/**
 Reference model of an upgrade session: a machine fed one byte at a time.  `Begin` is what happens
 before the first byte is looked at; each byte then either extends the configuration, or is
 programmed into the image being received.
 */
module UpgradeSpec {
  import opened Bytes
  import opened NorFlash
  import opened Descriptor
  import opened SlotSelection
  import opened UpgradeMem

  const HASH_LEN: nat := 32
  const CONFIG_HEAD_LEN: nat := 17
  const IMAGE_HDR_LEN: nat := 184
  const MAX_IMAGES_NUM: nat := 30
  const FORMAT_PARTIAL_UPGRADE: nat := 1

  /** What a session depends on besides the flash: the digest, and what the boot loader left behind. */
  datatype Env = Env(sha: seq<byte> -> seq<byte>, mode: Mode, active: nat, sbl: Option<Extent>)

  // The configuration

  datatype Header = Header(magic: uint32, id: uint32, version: uint32, disk: uint32, length: uint32, hashType: uint32, hash: seq<byte>)

  function ConfigMagic(cfg: seq<byte>): uint32 { Word(cfg, 0) }
  function ConfigVersion(cfg: seq<byte>): uint32 { Word(cfg, 4) }
  function ConfigFormat(cfg: seq<byte>): uint32 { Word(cfg, 8) }
  function ConfigLength(cfg: seq<byte>): uint32 { Word(cfg, 12) }
  function ConfigCount(cfg: seq<byte>): byte { Cell(cfg, 16) }

  function HashOffset(cfg: seq<byte>): nat {
    CONFIG_HEAD_LEN + ConfigCount(cfg) * IMAGE_HDR_LEN
  }

  /** The checks made as soon as the fixed head has arrived. */
  predicate HeadOk(cfg: seq<byte>) {
    && 0 < ConfigCount(cfg) <= MAX_IMAGES_NUM
    && ConfigMagic(cfg) != 0 && ConfigLength(cfg) != 0 && ConfigFormat(cfg) != 0
    && ConfigLength(cfg) == HashOffset(cfg) + HASH_LEN
  }

  function Slice(s: seq<byte>, from: nat, n: nat): seq<byte> {
    if from + n <= |s| then s[from..from + n] else []
  }

  /** Image header `k` as it stands in the configuration. */
  function RawHeader(cfg: seq<byte>, k: nat): Header {
    var a := CONFIG_HEAD_LEN + k * IMAGE_HDR_LEN;
    Header(
      Word(cfg, a), Word(cfg, a + 4), Word(cfg, a + 8),
      Word(cfg, a + 140), Word(cfg, a + 144), Word(cfg, a + 148), Slice(cfg, a + 152, HASH_LEN))
  }

  /** Sizes are rounded up to whole blocks, in 32-bit arithmetic, except for the SBL. */
  function RoundedDisk(h: Header): uint32 {
    if h.id == SBL_IMG_ID then h.disk
    else (if h.disk % BLOCK_SIZE != 0 then U32(h.disk as int + BLOCK_SIZE) else h.disk) / BLOCK_SIZE * BLOCK_SIZE
  }

  function Headers(cfg: seq<byte>): (hs: seq<Header>)
    ensures |hs| == ConfigCount(cfg)
  {
    seq(ConfigCount(cfg), k requires 0 <= k => var h := RawHeader(cfg, k); h.(disk := RoundedDisk(h)))
  }

  predicate HeaderOk(h: Header) {
    h.id != 0 && h.magic != 0 && h.hashType != 0 && h.disk != 0 && h.disk >= h.length
  }

  /** Images that take space in the selected region, as counted by the space check. */
  predicate Counted(h: Header) {
    h.id != FS1_IMG_ID && h.id != FS2_IMG_ID && h.id != SBL_IMG_ID
  }

  /** Images whose size moves the place of the next image. */
  predicate Advances(h: Header) {
    h.id != FS1_IMG_ID && h.id != SBL_IMG_ID
  }

  function DiskSum(hs: seq<Header>): uint32 {
    if hs == [] then 0 else U32((if Counted(hs[0]) then hs[0].disk as int else 0) + DiskSum(hs[1..]))
  }

  function LengthSum(hs: seq<Header>): uint32 {
    if hs == [] then 0 else U32((if Counted(hs[0]) then hs[0].length as int else 0) + LengthSum(hs[1..]))
  }

  /** Size of the last SBL image, or 0. */
  function SblDisk(hs: seq<Header>): uint32 {
    if hs == [] then 0
    else if hs[|hs| - 1].id == SBL_IMG_ID then hs[|hs| - 1].disk
    else SblDisk(hs[..|hs| - 1])
  }

  predicate HasImage(hs: seq<Header>, id: uint32) {
    exists k :: 0 <= k < |hs| && hs[k].id == id
  }

  /** The verdict on the image headers. */
  function CheckImages(env: Env, cfg: seq<byte>, space: nat): Code {
    var hs := Headers(cfg);
    if exists k :: 0 <= k < |hs| && !HeaderOk(RawHeader(cfg, k)) then IncorrectImageHdr
    else if HasImage(hs, SBL_IMG_ID) && !HasImage(hs, APP_IMG_ID) then SblOnlyNotSupport
    else if DiskSum(hs) > space then FlashNotEnoughSpace
    else if LengthSum(hs) > DiskSum(hs) then IncorrectImageHdr
    else if env.sbl == None then SblNotSupportUpgrade
    else if SblDisk(hs) > env.sbl.value.size then SblNotEnoughSpace
    else Ok
  }

  // The session state

  datatype Phase = Config | Images | Finished | Failed(code: Code)

  /**
   `table` lists the entries created in the trial slot, `payloads` the images completed so far and
   `fed` the bytes of the image being received.
   */
  datatype State = State(
    flash: seq<byte>, phase: Phase,
    trial: nat, cursor: nat, space: nat, hidden: nat,
    cfg: seq<byte>, hdrs: seq<Header>, index: nat,
    open: Option<Entry>, fed: seq<byte>,
    table: seq<Entry>, payloads: seq<seq<byte>>)
  {
    function Fail(code: Code): State {
      this.(phase := Failed(code))
    }

    function WithFlash(f: seq<byte>): State {
      this.(flash := f)
    }

    predicate Receiving() {
      phase == Images && index < |hdrs|
    }

    predicate Over() {
      phase.Failed? || phase == Finished
    }
  }

  /** The flash operation behind an erase of a partition can be carried out. */
  predicate CanErase(f: seq<byte>, e: Entry, offset: nat, n: nat) {
    Erasable(e, offset, n) && e.start + offset + n <= |f|
  }

  /** Appends an entry to the trial slot. */
  function AddEntry(s: State, e: Entry): State {
    if CanCreate(s.flash, s.trial, e)
    then s.(flash := Created(s.flash, s.trial, e), table := s.table + [e])
    else s.Fail(FlashCreatePartition)
  }

  // Before the first byte

  function Fresh(f: seq<byte>): State {
    State(f, Config, 0, 0, 0, 0, [], [], 0, None, [], [], [])
  }

  function Begin(env: Env, f: seq<byte>): State {
    match Select(env.mode, f, env.active)
    case None => Fresh(f).Fail(FlashNotSupportFwUpgrade)
    case Some(sel) =>
      var s := Fresh(f).(trial := sel.fwd, cursor := sel.region.start, space := sel.region.size);
      if env.active == sel.fwd then s.Fail(TrialIsRunning) else BeginErase(env, s)
  }

  function BeginErase(env: Env, s: State): State {
    BeginSecondFs(env, s.WithFlash(Erased(s.flash, s.trial * BLOCK_SIZE, BLOCK_SIZE)))
  }

  /** The running slot's second file system is scratch space. */
  function BeginSecondFs(env: Env, s: State): State {
    match Find(s.flash, env.active, FS2_IMG_ID)
    case None => s.Fail(FlashImageNotFound)
    case Some(e) =>
      if CanErase(s.flash, e, 0, e.size) then BeginFirstFs(env, s.WithFlash(Erased(s.flash, e.start, e.size)))
      else s.Fail(FlashErasePartition)
  }

  /** The running slot's first file system becomes the second one of the trial slot. */
  function BeginFirstFs(env: Env, s: State): State {
    match Find(s.flash, env.active, FS1_IMG_ID)
    case None => s.Fail(FlashImageNotFound)
    case Some(e) =>
      var s' := AddEntry(s, e.(id := FS2_IMG_ID));
      if s'.phase.Failed? then s' else BeginRamdump(env, s'.(hidden := s'.hidden + 1))
  }

  function BeginRamdump(env: Env, s: State): State {
    match Find(s.flash, env.active, RAMDUMP_IMG_ID)
    case None => BeginUserdata(env, s)
    case Some(e) =>
      if !(InBounds(e, 0, 4) && e.start + 4 <= |s.flash|) then s.Fail(FlashErasePartition)
      else if Word(s.flash, e.start) != 0xFFFF_FFFF && !CanErase(s.flash, e, 0, e.size) then s.Fail(FlashErasePartition)
      else
        var f := if Word(s.flash, e.start) != 0xFFFF_FFFF then Erased(s.flash, e.start, e.size) else s.flash;
        var s' := AddEntry(s.WithFlash(f), e);
        if s'.phase.Failed? then s' else BeginUserdata(env, s'.(hidden := s'.hidden + 1))
  }

  function BeginUserdata(env: Env, s: State): State {
    match Find(s.flash, env.active, USERDATA_IMG_ID)
    case None => s
    case Some(e) =>
      var s' := AddEntry(s, e);
      if s'.phase.Failed? then s' else s'.(hidden := s'.hidden + 1)
  }

  // Configuration bytes

  function StepConfig(env: Env, s: State, b: byte): State {
    var s' := s.(cfg := s.cfg + [b]);
    if |s'.cfg| < CONFIG_HEAD_LEN then s'
    else if |s'.cfg| == CONFIG_HEAD_LEN && !HeadOk(s'.cfg) then s'.Fail(IncorrectImageHdr)
    else if |s'.cfg| < ConfigLength(s'.cfg) then s'
    else ConfigDone(env, s')
  }

  function TotalImagesByte(cfg: seq<byte>, hidden: nat): byte {
    (ConfigCount(cfg) as int + hidden) % 0x100
  }

  /** The header fields programmed once the configuration is known to be intact. */
  function Described(s: State): seq<byte> {
    var f := Programmed(s.flash, InfoAddr(s.trial, Magic), Le32(ConfigMagic(s.cfg)));
    var f := Programmed(f, InfoAddr(s.trial, Version), Le32(ConfigVersion(s.cfg)));
    Programmed(f, InfoAddr(s.trial, TotalImages), [TotalImagesByte(s.cfg, s.hidden)])
  }

  predicate ConfigIntact(env: Env, cfg: seq<byte>) {
    env.sha(Slice(cfg, 0, HashOffset(cfg))) == Slice(cfg, HashOffset(cfg), HASH_LEN)
  }

  function ConfigDone(env: Env, s: State): (t: State)
    ensures t.phase == Images || t.phase.Failed?
  {
    if !ConfigIntact(env, s.cfg) then s.Fail(IncorrectImageChecksum)
    else
      var s' := s.(flash := Described(s), hdrs := Headers(s.cfg));
      var verdict := CheckImages(env, s.cfg, s.space);
      if verdict != Ok then s'.Fail(verdict) else s'.(phase := Images)
  }

  // Image bytes

  /** Where the image goes: FS1 takes over the running slot's FS2, the SBL has its own memory. */
  function Place(env: Env, s: State, h: Header): Entry {
    if h.id == FS1_IMG_ID then
      match Find(s.flash, env.active, FS2_IMG_ID)
      case None => Entry(FS1_IMG_ID, 0, 0, h.version)
      case Some(e) => Entry(FS1_IMG_ID, e.start, e.size, h.version)
    else if h.id == SBL_IMG_ID && env.sbl.Some? then Entry(SBL_IMG_ID, U32(env.sbl.value.start), h.disk, h.version)
    else Entry(h.id, U32(s.cursor), h.disk, h.version)
  }

  function PlaceError(env: Env, s: State, h: Header): Code {
    if h.id != FS1_IMG_ID then Ok
    else
      match Find(s.flash, env.active, FS2_IMG_ID)
      case None => FlashImageNotFound
      case Some(e) => if h.disk > e.size then IncorrectImageLength else Ok
  }

  /** The first block of a new partition is erased, unless it was beforehand (FS1) or need not be (SBL). */
  function EraseFirstBlock(s: State, e: Entry): State {
    if e.id == FS1_IMG_ID || e.id == SBL_IMG_ID then s
    else if CanErase(s.flash, e, 0, BLOCK_SIZE) then s.WithFlash(Erased(s.flash, e.start, BLOCK_SIZE))
    else s.Fail(FlashErasePartition)
  }

  /** Creates the partition of the next image; an empty image is complete at once. */
  function OpenImage(env: Env, s: State): (t: State)
    requires s.Receiving()
    ensures t.Receiving() && t.open == None ==> t.index == s.index + 1 && t.hdrs == s.hdrs
    ensures t.Receiving() || t.Over()
  {
    var h := s.hdrs[s.index];
    if PlaceError(env, s, h) != Ok then s.Fail(PlaceError(env, s, h))
    else
      var e := Place(env, s, h);
      var s1 := AddEntry(s, e);
      if s1.phase.Failed? then s1
      else
        var s2 := EraseFirstBlock(s1, e);
        if s2.phase.Failed? then s2
        else if h.length == 0 then NextImage(env, s2.(fed := []))
        else s2.(open := Some(e), fed := [])
  }

  /** Opens images until one has room for a byte. */
  function OpenImages(env: Env, s: State): (t: State)
    ensures s.Receiving() ==> (t.Receiving() && t.open.Some?) || t.Over()
    ensures !s.Receiving() || s.open.Some? ==> t == s
    decreases |s.hdrs| - s.index
  {
    if !(s.Receiving() && s.open == None) then s
    else
      var s' := OpenImage(env, s);
      if s'.Receiving() && s'.open == None then OpenImages(env, s') else s'
  }

  /** The image is complete: on to the next one, or to the end of the session. */
  function NextImage(env: Env, s: State): (t: State)
    requires s.Receiving()
    ensures t.Receiving() ==> t.open == None && t.index == s.index + 1 && t.hdrs == s.hdrs
    ensures t.Receiving() || t.Over()
  {
    var h := s.hdrs[s.index];
    var s' := s.(
      index := s.index + 1, cursor := if Advances(h) then U32(s.cursor + h.disk) else s.cursor,
      open := None, payloads := s.payloads + [s.fed], fed := []);
    if s'.index == |s'.hdrs| then CopyFileSystem(env, s') else s'
  }

  function CloseImage(env: Env, s: State): (t: State)
    requires s.Receiving()
    ensures t.Receiving() || t.Over()
  {
    if env.sha(s.fed) != s.hdrs[s.index].hash then s.Fail(IncorrectImageChecksum) else NextImage(env, s)
  }

  /** Programs one byte of the open image; the block after a full one is erased in advance. */
  function PutByte(env: Env, s: State, b: byte): (t: State)
    requires s.Receiving() && s.open.Some?
    ensures t.Receiving() || t.Over()
  {
    var e, c, len := s.open.value, |s.fed|, s.hdrs[s.index].length;
    var f1 := if e.id == SBL_IMG_ID then s.flash else Programmed(s.flash, e.start + c, [b]);
    var f2 := if e.id != SBL_IMG_ID && c + 1 < len && (c + 1) % BLOCK_SIZE == 0 then Erased(f1, e.start + c + 1, BLOCK_SIZE) else f1;
    var s' := s.(flash := f2, fed := s.fed + [b]);
    if c + 1 < len then s' else CloseImage(env, s')
  }

  // The end of the session

  /** `f` after copying the blocks of `from` from `offset` on to `to`; stops where `to` ends. */
  function CopyBlocks(f: seq<byte>, from: Entry, to: Entry, offset: nat): seq<byte>
    decreases from.size - offset
  {
    if offset >= from.size || !CanErase(f, to, offset, BLOCK_SIZE) then f
    else CopyBlocks(CopyBlock(f, from, to, offset), from, to, offset + BLOCK_SIZE)
  }

  function CopyBlock(f: seq<byte>, from: Entry, to: Entry, offset: nat): seq<byte> {
    Programmed(Erased(f, to.start + offset, BLOCK_SIZE), to.start + offset, Slice(f, from.start + offset, BLOCK_SIZE))
  }

  /** The running slot's first file system is copied over the one the trial slot will start with. */
  function CopyFileSystem(env: Env, s: State): State {
    match (Find(s.flash, env.active, FS1_IMG_ID), Find(s.flash, env.active, FS2_IMG_ID))
    case (Some(from), Some(to)) =>
      var s' := s.WithFlash(CopyBlocks(s.flash, from, to, 0));
      if from.size <= to.size then Commit(s') else s'.Fail(FlashErasePartition)
    case _ => s.Fail(FlashImageNotFound)
  }

  /** The very last write makes the trial slot valid. */
  function Commit(s: State): State {
    s.(flash := Programmed(s.flash, InfoAddr(s.trial, Status), [STATUS_VALID]), phase := Finished)
  }

  // The machine

  function Step(env: Env, s: State, b: byte): State {
    match s.phase
    case Config => StepConfig(env, s, b)
    case Images =>
      var s' := OpenImages(env, s);
      if s'.Receiving() && s'.open.Some? then PutByte(env, s', b) else s'
    case _ => s
  }

  function Consume(env: Env, s: State, data: seq<byte>): State
    decreases |data|
  {
    if data == [] then s else Consume(env, Step(env, s, data[0]), data[1..])
  }

  /** The machine does not see where one packet ends and the next begins. */
  lemma {:induction false} ConsumeAppend(env: Env, s: State, a: seq<byte>, b: seq<byte>)
    ensures Consume(env, s, a + b) == Consume(env, Consume(env, s, a), b)
    decreases |a|
  {
    if a == [] {
      assert a + b == b;
    } else {
      assert (a + b)[0] == a[0] && (a + b)[1..] == a[1..] + b;
      ConsumeAppend(env, Step(env, s, a[0]), a[1..], b);
    }
  }
}
