/**
 What holds of a session after every byte: where it may have written, what the trial descriptor
 holds, that completed images are in place and that the open one is being programmed
 onto erased cells.
 */
module SessionInvariant {
  import opened Bytes
  import opened NorFlash
  import opened Descriptor
  import opened SlotSelection
  import opened UpgradeMem
  import opened UpgradeSpec

  /** The flash a session starts from, and the areas it works on (size 0 where there is none). */
  datatype Geometry = Geometry(
    base: seq<byte>, trial: nat, region: Extent,
    fs1: Extent, fs2: Extent, ramdump: Extent, userdata: Extent)
  {
    predicate Writable(i: int) {
      || trial * BLOCK_SIZE <= i < trial * BLOCK_SIZE + BLOCK_SIZE
      || InExtent(fs2, i)
      || InExtent(ramdump, i)
      || InExtent(region, i)
    }
  }

  function ExtentOf(e: Option<Entry>): Extent {
    if e.Some? then e.value.Extent() else Extent(0, 0)
  }

  function GeometryOf(env: Env, f: seq<byte>, sel: Selection): Geometry {
    Geometry(f, sel.fwd, sel.region,
             ExtentOf(Find(f, env.active, FS1_IMG_ID)), ExtentOf(Find(f, env.active, FS2_IMG_ID)),
             ExtentOf(Find(f, env.active, RAMDUMP_IMG_ID)), ExtentOf(Find(f, env.active, USERDATA_IMG_ID)))
  }

  predicate Disjoint(a: Extent, b: Extent) {
    a.size == 0 || b.size == 0 || a.start + a.size <= b.start || b.start + b.size <= a.start
  }

  /** A whole-block extent between the descriptors and `limit`. */
  predicate Between(e: Extent, limit: nat) {
    e.start % BLOCK_SIZE == 0 && e.size % BLOCK_SIZE == 0 &&
    (e.size == 0 || (MAX_FWD * BLOCK_SIZE <= e.start && e.start + e.size <= limit))
  }

  /** The areas are where they should be; shown to hold over all upgrade histories in module LayoutHistory. */
  ghost predicate GeometryOk(g: Geometry, active: nat) {
    && g.trial < MAX_FWD && active < MAX_FWD && g.trial != active
    && |g.base| < TWO_TO_THE_32
    && Between(g.region, |g.base|) && MAX_FWD * BLOCK_SIZE <= g.region.start <= |g.base|
    && Between(g.fs1, g.region.start) && Between(g.fs2, g.region.start)
    && Between(g.ramdump, g.region.start) && Between(g.userdata, g.region.start)
    && Disjoint(g.fs1, g.fs2) && Disjoint(g.fs1, g.ramdump) && Disjoint(g.fs2, g.ramdump)
    && Disjoint(g.userdata, g.fs2) && Disjoint(g.userdata, g.ramdump)
  }

  /** Only the session's own areas have changed. */
  ghost predicate Frame(g: Geometry, f: seq<byte>) {
    |f| == |g.base| && forall i :: 0 <= i < |f| && !g.Writable(i) ==> f[i] == g.base[i]
  }

  /** The trial slot holds the entries created so far; its status and rank are still erased. */
  ghost predicate DescriptorInv(s: State) {
    && s.trial < MAX_FWD && MAX_FWD * BLOCK_SIZE <= |s.flash|
    && HoldsTable(s.flash, s.trial, s.table)
    && Blank(s.flash, InfoAddr(s.trial, Rank), 4)
    && Blank(s.flash, InfoAddr(s.trial, Status), 1)
    && (s.phase == Config ==>
          && Blank(s.flash, InfoAddr(s.trial, Magic), 8)
          && Blank(s.flash, InfoAddr(s.trial, TotalImages), 1))
  }

  // Operations on the data areas leave the descriptor alone, and the other way round

  lemma DataKeepsDescriptor(s: State, f: seq<byte>, a: nat, n: nat)
    requires DescriptorInv(s) && SameOutside(s.flash, f, a, n) && MAX_FWD * BLOCK_SIZE <= a
    ensures DescriptorInv(s.WithFlash(f))
  {
    hide EntryAt;
    assert SameCells(s.flash, f, 0, MAX_FWD * BLOCK_SIZE);
    TableSame(s.flash, f, s.trial, s.table);
  }

  lemma TableSame(f: seq<byte>, g: seq<byte>, fwd: nat, table: seq<Entry>)
    requires HoldsTable(f, fwd, table) && SameCells(f, g, EntryAddr(fwd, 0), 16 * MAX_IMAGE_ENTRIES)
    ensures HoldsTable(g, fwd, table)
  {
    hide EntryAt;
    forall k | 0 <= k < |table|
      ensures EntryAt(g, fwd, k) == table[k]
    {
      SameEntry(f, g, fwd, k);
    }
  }

  lemma FrameKept(g: Geometry, f: seq<byte>, f': seq<byte>, a: nat, n: nat)
    requires Frame(g, f) && SameOutside(f, f', a, n)
    requires forall i :: a <= i < a + n && i < |f| ==> g.Writable(i)
    ensures Frame(g, f')
  {
  }

  /** A new entry goes to the end of the table, onto erased cells, and disturbs nothing else. */
  lemma AddEntryKeepsDescriptor(s: State, e: Entry)
    requires DescriptorInv(s) && e.id != IMAGE_UNUSED
    ensures !CanCreate(s.flash, s.trial, e) ==> AddEntry(s, e) == s.Fail(FlashCreatePartition)
    ensures
      CanCreate(s.flash, s.trial, e) ==>
        var s', a := AddEntry(s, e), EntryAddr(s.trial, |s.table|);
        && s' == s.(flash := s'.flash, table := s.table + [e])
        && FindIndex(s.flash, s.trial, IMAGE_UNUSED) == |s.table| < MAX_IMAGE_ENTRIES
        && OnlyClears(s.flash, a, EntryBytes(e))
        && SameOutside(s.flash, s'.flash, a, 16)
        && DescriptorInv(s')
  {
    hide EntryAt, EntryBytes, And, FindIndex;
    FirstUnused(s.flash, s.trial, s.table);
    if CanCreate(s.flash, s.trial, e) {
      var s' := AddEntry(s, e);
      AppendEntry(s.flash, s'.flash, s.trial, s.table, e);
      assert SameCells(s.flash, s'.flash, s.trial * BLOCK_SIZE, 32);
    }
  }

  /** The running slot's descriptor is never touched, so its partitions stay where they were. */
  lemma ActiveFindsSame(g: Geometry, active: nat, f: seq<byte>, id: uint32)
    requires GeometryOk(g, active) && Frame(g, f)
    ensures Find(f, active, id) == Find(g.base, active, id)
  {
    hide FindFrom, EntryAt, Word;
    assert SameCells(f, g.base, active * BLOCK_SIZE, 512);
    SameFind(f, g.base, active, id);
  }

  // Before the first byte

  /** The entries every trial slot starts with: the file system to come, and the reserved partitions. */
  function HiddenTable(env: Env, f: seq<byte>): seq<Entry> {
    (match Find(f, env.active, FS1_IMG_ID) case None => [] case Some(e) => [e.(id := FS2_IMG_ID)])
    + Listed(Find(f, env.active, RAMDUMP_IMG_ID))
    + Listed(Find(f, env.active, USERDATA_IMG_ID))
  }

  function Listed(e: Option<Entry>): seq<Entry> {
    if e.Some? then [e.value] else []
  }

  /** The areas are those of the running slot's reserved partitions. */
  ghost predicate Located(env: Env, g: Geometry) {
    && g.fs1 == ExtentOf(Find(g.base, env.active, FS1_IMG_ID))
    && g.fs2 == ExtentOf(Find(g.base, env.active, FS2_IMG_ID))
    && g.ramdump == ExtentOf(Find(g.base, env.active, RAMDUMP_IMG_ID))
    && g.userdata == ExtentOf(Find(g.base, env.active, USERDATA_IMG_ID))
  }

  ghost predicate HasFileSystems(env: Env, g: Geometry) {
    Find(g.base, env.active, FS1_IMG_ID).Some? && Find(g.base, env.active, FS2_IMG_ID).Some?
  }

  /** Nothing of the configuration has been acted upon yet. */
  ghost predicate Starting(env: Env, g: Geometry, s: State) {
    && GeometryOk(g, env.active) && Located(env, g) && s.trial == g.trial
    && s.phase == Config && s.hdrs == [] && s.index == 0 && s.open == None && s.fed == [] && s.payloads == []
    && s.cursor == g.region.start && s.space == g.region.size
    && Frame(g, s.flash)
    && s.hidden == |s.table|
  }

  ghost predicate Erased1(env: Env, g: Geometry, s: State) {
    Starting(env, g, s) && DescriptorInv(s)
  }

  /** Receiving the configuration: the descriptor holds the hidden entries, the scratch file system is erased. */
  ghost predicate ConfigInv(env: Env, g: Geometry, s: State) {
    && Erased1(env, g, s)
    && Blank(s.flash, g.fs2.start, g.fs2.size)
    && s.table == HiddenTable(env, g.base)
    && HasFileSystems(env, g)
  }

  /** The selection can be used: whatever it is, the areas are where they should be. */
  ghost predicate Ready(env: Env, f: seq<byte>) {
    && MAX_FWD * BLOCK_SIZE <= |f|
    && (Select(env.mode, f, env.active).Some? && Select(env.mode, f, env.active).value.fwd != env.active ==>
          GeometryOk(GeometryOf(env, f, Select(env.mode, f, env.active).value), env.active))
  }

  lemma ErasedDescriptor(env: Env, g: Geometry, s: State)
    requires Starting(env, g, s) && s.flash == g.base && s.table == [] && MAX_FWD * BLOCK_SIZE <= |g.base|
    ensures Erased1(env, g, s.WithFlash(Erased(s.flash, s.trial * BLOCK_SIZE, BLOCK_SIZE)))
  {
    hide EntryAt, Find;
    var f := Erased(s.flash, s.trial * BLOCK_SIZE, BLOCK_SIZE);
    FrameKept(g, s.flash, f, s.trial * BLOCK_SIZE, BLOCK_SIZE);
    assert Blank(f, s.trial * BLOCK_SIZE, BLOCK_SIZE);
  }

  /** Erasing a scratch extent during the start. */
  lemma ScratchErased(env: Env, g: Geometry, s: State, e: Extent)
    requires Erased1(env, g, s) && Between(e, g.region.start) && (e == g.fs2 || e == g.ramdump)
    ensures Erased1(env, g, s.WithFlash(Erased(s.flash, e.start, e.size)))
  {
    hide EntryAt, HoldsTable;
    var f := Erased(s.flash, e.start, e.size);
    FrameKept(g, s.flash, f, e.start, e.size);
    if e.size == 0 {
      assert f == s.flash;
    } else {
      DataKeepsDescriptor(s, f, e.start, e.size);
    }
  }

  lemma BlankStays(f: seq<byte>, f': seq<byte>, a: nat, n: nat, start: nat, size: nat)
    requires SameOutside(f, f', a, n) && (size == 0 || start + size <= a || a + n <= start)
    ensures Blank(f, start, size) ==> Blank(f', start, size)
  {
    if Blank(f, start, size) {
      forall i | start <= i < start + size
        ensures Cell(f', i) == 0xFF
      {
        assert Cell(f, i) == 0xFF;
      }
    }
  }

  /** Adding a hidden entry during the start. */
  lemma HiddenAdded(env: Env, g: Geometry, s: State, e: Entry)
    requires Erased1(env, g, s) && e.id != IMAGE_UNUSED
    ensures
      var s' := AddEntry(s, e);
      && (!CanCreate(s.flash, s.trial, e) ==> s' == s.Fail(FlashCreatePartition))
      && (CanCreate(s.flash, s.trial, e) ==>
            && Erased1(env, g, s'.(hidden := s.hidden + 1))
            && s' == s.(flash := s'.flash, table := s.table + [e])
            && (Blank(s.flash, g.fs2.start, g.fs2.size) ==> Blank(s'.flash, g.fs2.start, g.fs2.size)))
  {
    hide HoldsTable, CanCreate, Created, EntryBytes, FindIndex;
    AddEntryKeepsDescriptor(s, e);
    if CanCreate(s.flash, s.trial, e) {
      FrameKept(g, s.flash, AddEntry(s, e).flash, EntryAddr(s.trial, |s.table|), 16);
      BlankStays(s.flash, AddEntry(s, e).flash, EntryAddr(s.trial, |s.table|), 16, g.fs2.start, g.fs2.size);
    }
  }

  lemma BeginUserdataKeeps(env: Env, g: Geometry, s: State)
    requires Erased1(env, g, s) && Blank(s.flash, g.fs2.start, g.fs2.size)
    requires Between(g.fs2, g.region.start)
    requires s.table + Listed(Find(g.base, env.active, USERDATA_IMG_ID)) == HiddenTable(env, g.base)
    requires HasFileSystems(env, g)
    ensures
      var s' := BeginUserdata(env, s);
      s'.phase.Failed? || (ConfigInv(env, g, s') && s'.cfg == s.cfg)
  {
    hide Find, CanCreate, HoldsTable, AddEntry;
    ActiveFindsSame(g, env.active, s.flash, USERDATA_IMG_ID);
    match Find(s.flash, env.active, USERDATA_IMG_ID)
    case None =>
    case Some(e) =>
      FoundId(s.flash, env.active, USERDATA_IMG_ID);
      HiddenAdded(env, g, s, e);
  }

  lemma BeginRamdumpKeeps(env: Env, g: Geometry, s: State)
    requires Erased1(env, g, s) && Blank(s.flash, g.fs2.start, g.fs2.size)
    requires s.table + Listed(Find(g.base, env.active, RAMDUMP_IMG_ID)) + Listed(Find(g.base, env.active, USERDATA_IMG_ID))
             == HiddenTable(env, g.base)
    requires HasFileSystems(env, g)
    ensures
      var s' := BeginRamdump(env, s);
      s'.phase.Failed? || (ConfigInv(env, g, s') && s'.cfg == s.cfg)
  {
    hide Find, CanCreate, HoldsTable, AddEntry, BeginUserdata, Word, HiddenTable;
    ActiveFindsSame(g, env.active, s.flash, RAMDUMP_IMG_ID);
    match Find(s.flash, env.active, RAMDUMP_IMG_ID)
    case None =>
      BeginUserdataKeeps(env, g, s);
    case Some(e) =>
      FoundId(s.flash, env.active, RAMDUMP_IMG_ID);
      var s1 := if Word(s.flash, e.start) != 0xFFFF_FFFF then s.WithFlash(Erased(s.flash, e.start, e.size)) else s;
      ScratchErased(env, g, s, g.ramdump);
      if e.size == 0 {
        assert Erased(s.flash, e.start, e.size) == s.flash;
      } else {
        BlankStays(s.flash, Erased(s.flash, e.start, e.size), e.start, e.size, g.fs2.start, g.fs2.size);
      }
      HiddenAdded(env, g, s1, e);
      if CanCreate(s1.flash, s1.trial, e) {
        BeginUserdataKeeps(env, g, AddEntry(s1, e).(hidden := s.hidden + 1));
      }
  }

  lemma BeginFirstFsKeeps(env: Env, g: Geometry, s: State)
    requires Erased1(env, g, s) && Blank(s.flash, g.fs2.start, g.fs2.size) && s.table == []
    requires Find(g.base, env.active, FS2_IMG_ID).Some?
    ensures
      var s' := BeginFirstFs(env, s);
      s'.phase.Failed? || (ConfigInv(env, g, s') && s'.cfg == s.cfg)
  {
    hide Find, CanCreate, HoldsTable, AddEntry, BeginRamdump;
    ActiveFindsSame(g, env.active, s.flash, FS1_IMG_ID);
    match Find(s.flash, env.active, FS1_IMG_ID)
    case None =>
    case Some(e) =>
      var e' := e.(id := FS2_IMG_ID);
      HiddenAdded(env, g, s, e');
      if CanCreate(s.flash, s.trial, e') {
        BeginRamdumpKeeps(env, g, AddEntry(s, e').(hidden := s.hidden + 1));
      }
  }

  lemma BeginSecondFsKeeps(env: Env, g: Geometry, s: State)
    requires Erased1(env, g, s) && s.table == []
    ensures
      var s' := BeginSecondFs(env, s);
      s'.phase.Failed? || (ConfigInv(env, g, s') && s'.cfg == s.cfg)
  {
    hide Find, HoldsTable, BeginFirstFs;
    ActiveFindsSame(g, env.active, s.flash, FS2_IMG_ID);
    match Find(s.flash, env.active, FS2_IMG_ID)
    case None =>
    case Some(e) =>
      ScratchErased(env, g, s, g.fs2);
      if CanErase(s.flash, e, 0, e.size) {
        BeginFirstFsKeeps(env, g, s.WithFlash(Erased(s.flash, e.start, e.size)));
      }
  }

  /** A session that gets past its start is ready to receive a configuration. */
  lemma BeginEstablishes(env: Env, f: seq<byte>)
    requires Ready(env, f)
    ensures
      var s := Begin(env, f);
      || s.phase.Failed?
      || (&& Select(env.mode, f, env.active).Some?
          && ConfigInv(env, GeometryOf(env, f, Select(env.mode, f, env.active).value), s) && s.cfg == [])
  {
    hide Find, HoldsTable, Select, BeginSecondFs;
    match Select(env.mode, f, env.active)
    case None =>
    case Some(sel) =>
      if env.active != sel.fwd {
        var g := GeometryOf(env, f, sel);
        var s := Fresh(f).(trial := sel.fwd, cursor := sel.region.start, space := sel.region.size);
        ErasedDescriptor(env, g, s);
        BeginSecondFsKeeps(env, g, s.WithFlash(Erased(s.flash, s.trial * BLOCK_SIZE, BLOCK_SIZE)));
      }
  }

  lemma FoundId(f: seq<byte>, fwd: nat, id: uint32)
    ensures Find(f, fwd, id).Some? ==> Find(f, fwd, id).value.id == id
  {
  }
}
