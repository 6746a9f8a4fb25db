/** From the last image to a valid slot: the file system copy, the commit, and the whole machine's invariant. */
module Completion {
  import opened Bytes
  import opened NorFlash
  import opened Descriptor
  import opened UpgradeMem
  import opened UpgradeSpec
  import opened PacketBoundaries
  import opened SessionInvariant
  import opened ImageInvariant

  /** Two block-aligned, disjoint areas inside the flash, the second at least as large as the first. */
  predicate CopyFits(f: seq<byte>, from: Entry, to: Entry) {
    && from.size % BLOCK_SIZE == 0 && to.size % BLOCK_SIZE == 0
    && Disjoint(from.Extent(), to.Extent()) && from.size <= to.size
    && from.End() <= |f| && to.End() <= |f| < TWO_TO_THE_32
  }

  lemma ErasedIsBlank(f: seq<byte>, a: nat, n: nat)
    ensures Blank(Erased(f, a, n), a, n)
  {
  }

  /** Programming freshly erased cells stores the data there and nowhere else. */
  lemma RewrittenHolds(f: seq<byte>, a: nat, d: seq<byte>)
    requires a + |d| <= |f|
    ensures
      var r := Programmed(Erased(f, a, |d|), a, d);
      SameOutside(f, r, a, |d|) && forall i :: a <= i < a + |d| ==> r[i] == d[i - a]
  {
    hide And;
    var r := Programmed(Erased(f, a, |d|), a, d);
    forall i | a <= i < a + |d|
      ensures r[i] == d[i - a]
    {
      ErasedTakesAnything(d[i - a]);
    }
  }

  /** A block is copied onto the erased cells of its destination. */
  lemma CopyBlockCopies(f: seq<byte>, from: Entry, to: Entry, offset: nat)
    requires CopyFits(f, from, to) && offset + BLOCK_SIZE <= from.size
    ensures
      var r := CopyBlock(f, from, to, offset);
      && SameOutside(f, r, to.start + offset, BLOCK_SIZE)
      && (forall i :: to.start + offset <= i < to.start + offset + BLOCK_SIZE ==> r[i] == f[i - to.start + from.start])
  {
    hide Erased, Programmed;
    RewrittenHolds(f, to.start + offset, Slice(f, from.start + offset, BLOCK_SIZE));
  }

  /** Copying from `offset` on leaves the rest of the source in the destination, and nothing else changed. */
  lemma {:induction false} CopyBlocksCopies(f: seq<byte>, from: Entry, to: Entry, offset: nat)
    requires CopyFits(f, from, to) && offset % BLOCK_SIZE == 0 && offset <= from.size
    ensures
      var r := CopyBlocks(f, from, to, offset);
      && SameOutside(f, r, to.start + offset, from.size - offset)
      && forall i :: to.start + offset <= i < to.start + from.size ==> r[i] == f[i - to.start + from.start]
    decreases from.size - offset
  {
    hide CopyBlock;
    if offset < from.size {
      CopyBlockCopies(f, from, to, offset);
      var f' := CopyBlock(f, from, to, offset);
      CopyBlocksCopies(f', from, to, offset + BLOCK_SIZE);
      var r := CopyBlocks(f', from, to, offset + BLOCK_SIZE);
      forall i | to.start + offset <= i < to.start + from.size
        ensures r[i] == f[i - to.start + from.start]
      {
        if i >= to.start + offset + BLOCK_SIZE {
          assert r[i] == f'[i - to.start + from.start];
        }
      }
    }
  }

  // The end of the session

  /** The file system of the running slot has been copied to the place of the second one. */
  ghost predicate FsCopied(g: Geometry, f: seq<byte>) {
    && g.fs1.size <= g.fs2.size
    && forall i :: g.fs2.start <= i < g.fs2.start + g.fs1.size ==> Cell(f, i) == Cell(g.base, i - g.fs2.start + g.fs1.start)
  }

  /** The trial slot is complete: its header is valid, its table lists the hidden and the downloaded
      images, and every downloaded image is in place with the right digest. */
  ghost predicate Installed(env: Env, g: Geometry, s: State) {
    && GeometryOk(g, env.active) && Located(env, g) && HasFileSystems(env, g) && s.trial == g.trial
    && Frame(g, s.flash) && FsCopied(g, s.flash)
    && SlotAt(s.flash, s.trial) == Slot(ConfigMagic(s.cfg), RANK_TRIAL, STATUS_VALID, TotalImagesByte(s.cfg, s.hidden))
    && HoldsTable(s.flash, s.trial, s.table)
    && s.index == |s.hdrs| == ConfigCount(s.cfg) && s.open == None
    && Counts(env, g, s) && Ordered(s) && AllDone(env, g, s) && SaneHeaders(env, s.hdrs)
    && s.cursor <= g.region.start + g.region.size && ConfigChecked(env, g.region.size, s.cfg, s.hdrs)
  }

  /** The copy stays inside the scratch file system and reproduces the running one. */
  lemma CopyReproduces(env: Env, g: Geometry, f: seq<byte>)
    requires GeometryOk(g, env.active) && Located(env, g) && HasFileSystems(env, g) && Frame(g, f)
    requires g.fs1.size <= g.fs2.size
    ensures
      var from, to := Find(g.base, env.active, FS1_IMG_ID).value, Find(g.base, env.active, FS2_IMG_ID).value;
      var r := CopyBlocks(f, from, to, 0);
      SameOutside(f, r, g.fs2.start, g.fs1.size) && FsCopied(g, r)
  {
    hide Find, CopyBlock;
    var from, to := Find(g.base, env.active, FS1_IMG_ID).value, Find(g.base, env.active, FS2_IMG_ID).value;
    if from.size > 0 {
      CopyBlocksCopies(f, from, to, 0);
      var r := CopyBlocks(f, from, to, 0);
      SourceUntouched(g, env.active, f);
      forall i | g.fs2.start <= i < g.fs2.start + g.fs1.size
        ensures Cell(r, i) == Cell(g.base, i - g.fs2.start + g.fs1.start)
      {
        assert r[i] == f[i - to.start + from.start];
      }
    }
  }

  /** The running slot's first file system is not among the session's scratch areas. */
  lemma SourceUntouched(g: Geometry, active: nat, f: seq<byte>)
    requires GeometryOk(g, active) && Frame(g, f)
    ensures forall i :: g.fs1.start <= i < g.fs1.start + g.fs1.size && i < |f| ==> f[i] == g.base[i]
  {
  }

  /** The copy keeps everything the images need. */
  lemma CopyKeeps(env: Env, g: Geometry, s: State, f: seq<byte>)
    requires ReceiveInv(env, g, s) && g.fs1.size <= g.fs2.size && SameOutside(s.flash, f, g.fs2.start, g.fs1.size)
    ensures Core(env, g, s.WithFlash(f))
  {
    hide Find, HoldsTable, Word, DescriptorInv, InfoInv, AllDone, HiddenTable, Ordered, FsPending, OpenInv, Rest, SaneHeaders;
    if g.fs1.size == 0 {
      assert f == s.flash;
    } else {
      CoreAfterData(env, g, s, f, g.fs2.start, g.fs1.size);
    }
  }

  /** The last write sets the status and nothing else. */
  lemma CommitSetsStatus(s: State)
    requires DescriptorInv(s) && InfoInv(s)
    ensures
      var t := Commit(s);
      && OnlyClears(s.flash, InfoAddr(s.trial, Status), [STATUS_VALID])
      && SameOutside(s.flash, t.flash, InfoAddr(s.trial, Status), 1)
      && SlotAt(t.flash, s.trial) == Slot(ConfigMagic(s.cfg), RANK_TRIAL, STATUS_VALID, TotalImagesByte(s.cfg, s.hidden))
      && HoldsTable(t.flash, s.trial, s.table)
  {
    hide HoldsTable, Word, And, ConfigMagic, TotalImagesByte;
    var a := InfoAddr(s.trial, Status);
    BlankOnlyClears(s.flash, a, [STATUS_VALID]);
    ErasedTakesAnything(STATUS_VALID);
    StatusProgrammed(s.flash, s.trial, STATUS_VALID);
    TableSame(s.flash, Commit(s).flash, s.trial, s.table);
    BlankRankIsTrial(s.flash, s.trial);
  }

  lemma BlankRankIsTrial(f: seq<byte>, fwd: nat)
    requires Blank(f, InfoAddr(fwd, Rank), 4)
    ensures SlotAt(f, fwd).rank == RANK_TRIAL
  {
    assert Le32(RANK_TRIAL) == [0xFF, 0xFF, 0xFF, 0xFF];
    WordOfLe32(f, InfoAddr(fwd, Rank), RANK_TRIAL);
  }

  lemma DescriptorsBelow(g: Geometry, active: nat)
    requires GeometryOk(g, active)
    ensures g.trial < MAX_FWD && MAX_FWD * BLOCK_SIZE <= g.region.start
    ensures g.fs2.size == 0 || MAX_FWD * BLOCK_SIZE <= g.fs2.start
  {
  }

  lemma CommitKeepsCore(env: Env, g: Geometry, s: State)
    requires Core(env, g, s) && s.trial == g.trial && GeometryOk(g, env.active) && FsCopied(g, s.flash)
    ensures Frame(g, Commit(s).flash) && AllDone(env, g, Commit(s)) && FsCopied(g, Commit(s).flash)
  {
    hide HoldsTable, Word, InfoInv, Done, ConfigMagic, And, Blank, GeometryOk;
    var t, a := Commit(s), InfoAddr(s.trial, Status);
    DescriptorsBelow(g, env.active);
    FrameKept(g, s.flash, t.flash, a, 1);
    DoneStays(env, g, s, t, a, 1);
    forall i | g.fs2.start <= i < g.fs2.start + g.fs1.size
      ensures Cell(t.flash, i) == Cell(g.base, i - g.fs2.start + g.fs1.start)
    {
      assert Cell(s.flash, i) == Cell(g.base, i - g.fs2.start + g.fs1.start);
    }
  }

  /** After the last image the session either fails or leaves the trial slot installed. */
  lemma FinishInstalls(env: Env, g: Geometry, s: State)
    requires ReceiveInv(env, g, s) && s.index == |s.hdrs|
    ensures
      var t := CopyFileSystem(env, s);
      && (g.fs1.size <= g.fs2.size <==> t.phase == Finished)
      && (t.phase == Finished ==> t == s.(flash := t.flash, phase := Finished) && Installed(env, g, t))
      && (t.phase != Finished ==> t.phase == Failed(FlashErasePartition))
  {
    hide Find, HoldsTable, Word, DescriptorInv, InfoInv, HiddenTable, SaneHeader, Frame, Done, CopyBlocks,
      ConfigMagic, FsCopied, TotalImagesByte, ConfigChecked, SblDisk;
    FsPlace(env, g, s);
    if g.fs1.size <= g.fs2.size {
      CopyReproduces(env, g, s.flash);
      var from, to := Find(g.base, env.active, FS1_IMG_ID).value, Find(g.base, env.active, FS2_IMG_ID).value;
      var s' := s.WithFlash(CopyBlocks(s.flash, from, to, 0));
      CopyKeeps(env, g, s, s'.flash);
      CommitSetsStatus(s');
      CommitKeepsCore(env, g, s');
    }
  }

  // The configuration is accepted

  /** Programming the header fields of a fresh descriptor stores them exactly. */
  lemma DescribedKeeps(s: State)
    requires DescriptorInv(s) && s.phase == Config
    ensures
      var a, f := s.trial * BLOCK_SIZE, s.flash;
      var f1 := Programmed(f, InfoAddr(s.trial, Magic), Le32(ConfigMagic(s.cfg)));
      var f2 := Programmed(f1, InfoAddr(s.trial, Version), Le32(ConfigVersion(s.cfg)));
      && OnlyClears(f, InfoAddr(s.trial, Magic), Le32(ConfigMagic(s.cfg)))
      && OnlyClears(f1, InfoAddr(s.trial, Version), Le32(ConfigVersion(s.cfg)))
      && OnlyClears(f2, InfoAddr(s.trial, TotalImages), [TotalImagesByte(s.cfg, s.hidden)])
      && SameOutside(f, f1, a, 14) && SameOutside(f, f2, a, 14) && SameOutside(f, Described(s), a, 14)
      && Cell(f1, InfoAddr(s.trial, Status)) == Cell(f2, InfoAddr(s.trial, Status)) == 0xFF
      && DescriptorInv(s.(flash := Described(s), phase := Images)) && InfoInv(s.(flash := Described(s), phase := Images))
  {
    hide HoldsTable, Word, Le32, And, ConfigMagic, ConfigVersion, TotalImagesByte;
    var f, t := s.flash, s.trial;
    var n := [TotalImagesByte(s.cfg, s.hidden)];
    var f1 := Programmed(f, InfoAddr(t, Magic), Le32(ConfigMagic(s.cfg)));
    var f2 := Programmed(f1, InfoAddr(t, Version), Le32(ConfigVersion(s.cfg)));
    var f3 := Described(s);
    FieldProgrammed(f, InfoAddr(t, Magic), ConfigMagic(s.cfg));
    BlankStays(f, f1, InfoAddr(t, Magic), 4, InfoAddr(t, Version), 4);
    FieldProgrammed(f1, InfoAddr(t, Version), ConfigVersion(s.cfg));
    BlankStays(f, f2, InfoAddr(t, Magic), 8, InfoAddr(t, TotalImages), 1);
    BlankOnlyClears(f2, InfoAddr(t, TotalImages), n);
    ErasedTakesAnything(n[0]);
    assert Cell(f2, InfoAddr(t, TotalImages)) == 0xFF;
    DescribedHolds(s, f1, f2, f3);
  }

  lemma DescribedHolds(s: State, f1: seq<byte>, f2: seq<byte>, f3: seq<byte>)
    requires DescriptorInv(s) && s.phase == Config && f3 == Described(s)
    requires SameOutside(s.flash, f1, InfoAddr(s.trial, Magic), 4) && Word(f1, InfoAddr(s.trial, Magic)) == ConfigMagic(s.cfg)
    requires SameOutside(f1, f2, InfoAddr(s.trial, Version), 4) && Word(f2, InfoAddr(s.trial, Version)) == ConfigVersion(s.cfg)
    requires SameOutside(f2, f3, InfoAddr(s.trial, TotalImages), 1)
    requires Cell(f3, InfoAddr(s.trial, TotalImages)) == TotalImagesByte(s.cfg, s.hidden)
    ensures DescriptorInv(s.(flash := f3, phase := Images)) && InfoInv(s.(flash := f3, phase := Images))
    ensures Cell(f1, InfoAddr(s.trial, Status)) == Cell(f2, InfoAddr(s.trial, Status)) == 0xFF
  {
    hide HoldsTable, Word, ConfigMagic, ConfigVersion, TotalImagesByte, Described;
    var f, t := s.flash, s.trial;
    BlankStays(f, f1, InfoAddr(t, Magic), 4, InfoAddr(t, Rank), 4);
    BlankStays(f1, f2, InfoAddr(t, Version), 4, InfoAddr(t, Rank), 4);
    BlankStays(f2, f3, InfoAddr(t, TotalImages), 1, InfoAddr(t, Rank), 4);
    BlankStays(f, f1, InfoAddr(t, Magic), 4, InfoAddr(t, Status), 1);
    BlankStays(f1, f2, InfoAddr(t, Version), 4, InfoAddr(t, Status), 1);
    BlankStays(f2, f3, InfoAddr(t, TotalImages), 1, InfoAddr(t, Status), 1);
    SameWord(f1, f2, InfoAddr(t, Magic));
    SameWord(f2, f3, InfoAddr(t, Magic));
    SameWord(f2, f3, InfoAddr(t, Version));
    TableSame(f, f3, t, s.table);
  }

  lemma FieldProgrammed(f: seq<byte>, a: nat, w: uint32)
    requires Blank(f, a, 4) && a + 4 <= |f|
    ensures OnlyClears(f, a, Le32(w)) && Word(Programmed(f, a, Le32(w)), a) == w
    ensures SameOutside(f, Programmed(f, a, Le32(w)), a, 4)
  {
    hide Word, Le32, And;
    BlankOnlyClears(f, a, Le32(w));
    ProgrammedIsSpliced(f, a, Le32(w));
    WordOfLe32(Programmed(f, a, Le32(w)), a, w);
  }

  /** The space check adds up exactly the space the images will take. */
  lemma {:induction false} DiskSumIsRest(hs: seq<Header>, k: nat)
    requires k <= |hs| && Rest(hs, k) < TWO_TO_THE_32
    requires forall j :: 0 <= j < |hs| ==> hs[j].id != FS2_IMG_ID
    ensures DiskSum(hs[k..]) == Rest(hs, k)
    decreases |hs| - k
  {
    if k < |hs| {
      assert hs[k..][0] == hs[k] && hs[k..][1..] == hs[k + 1..];
      DiskSumIsRest(hs, k + 1);
    }
  }

  lemma RoundedDiskFits(h: Header)
    requires h.disk + BLOCK_SIZE <= TWO_TO_THE_32
    ensures h.disk <= RoundedDisk(h) && (h.id == SBL_IMG_ID ==> RoundedDisk(h) == h.disk)
    ensures h.id != SBL_IMG_ID ==> RoundedDisk(h) % BLOCK_SIZE == 0
  {
    if h.disk % BLOCK_SIZE != 0 {
      assert (h.disk + BLOCK_SIZE) / BLOCK_SIZE == h.disk / BLOCK_SIZE + 1;
    }
  }

  /** A configuration that passes the checks, and is sane, has sane headers that fit the region. */
  lemma CheckedIsSane(env: Env, cfg: seq<byte>, space: nat)
    requires SaneConfig(env, cfg) && CheckImages(env, cfg, space) == Ok
    ensures SaneHeaders(env, Headers(cfg)) && Rest(Headers(cfg), 0) <= space
  {
    hide Word, Slice, RoundedDisk, ConfigFormat, ConfigCount, Rest, SblDisk, LengthSum, DiskSum;
    var hs := Headers(cfg);
    forall k | 0 <= k < |hs|
      ensures SaneHeader(env, hs[k])
    {
      RoundedDiskFits(RawHeader(cfg, k));
      assert HeaderOk(RawHeader(cfg, k));
    }
    DiskSumIsRest(hs, 0);
    assert hs[0..] == hs;
  }

  /** Once complete, a sane configuration is either refused or the session is ready for the first image. */
  lemma ConfigDoneKeeps(env: Env, g: Geometry, s: State)
    requires ConfigInv(env, g, s) && HeadOk(s.cfg) && SaneConfig(env, s.cfg) && |s.cfg| == ConfigLength(s.cfg)
    ensures
      var t := ConfigDone(env, s);
      SessionInv(env, g, t) && (t.phase == Images ==> t == s.(flash := Described(s), phase := Images, hdrs := Headers(s.cfg)))
  {
    hide HoldsTable, Word, CheckImages, ConfigIntact, Headers, SaneConfig, Described, ConfigMagic, ConfigVersion, ConfigCount,
      ConfigLength, ConfigFormat, Find, HiddenTable, GeometryOk, SaneHeaders, DescriptorInv, InfoInv, Blank, HashOffset;
    if ConfigIntact(env, s.cfg) && CheckImages(env, s.cfg, s.space) == Ok {
      var t := s.(flash := Described(s), phase := Images, hdrs := Headers(s.cfg));
      CheckedIsSane(env, s.cfg, s.space);
      DescribedKeeps(s);
      HeadersCount(s.cfg);
      FrameKept(g, s.flash, t.flash, s.trial * BLOCK_SIZE, 14);
      DescriptorsBelow(g, env.active);
      BlankStays(s.flash, t.flash, s.trial * BLOCK_SIZE, 14, g.fs2.start, g.fs2.size);
      DescriptorSame(s.(flash := Described(s), phase := Images), t);
      RegionAligned(g, env.active);
      assert t.table[..t.hidden] == s.table;
    }
  }

  lemma HeadersCount(cfg: seq<byte>)
    ensures |Headers(cfg)| == ConfigCount(cfg)
  {
  }

  lemma RegionAligned(g: Geometry, active: nat)
    requires GeometryOk(g, active)
    ensures g.region.start % BLOCK_SIZE == 0
  {
  }

  // Every byte

  /** What holds of the machine between bytes. */
  ghost predicate SessionInv(env: Env, g: Geometry, s: State) {
    match s.phase
    case Config =>
      && ConfigInv(env, g, s)
      && (|s.cfg| >= CONFIG_HEAD_LEN ==> HeadOk(s.cfg) && |s.cfg| < ConfigLength(s.cfg))
    case Images => ReceiveInv(env, g, s) && s.index < |s.hdrs| && (s.open.Some? ==> |s.fed| < s.hdrs[s.index].length)
    case Finished => Installed(env, g, s)
    case Failed(_) => true
  }

  /** If `stream` starts with a complete configuration, it is a sane one. */
  ghost predicate SaneStream(env: Env, stream: seq<byte>) {
    |stream| >= CONFIG_HEAD_LEN && HeadOk(stream) && ConfigLength(stream) <= |stream| ==>
      SaneConfig(env, stream[..ConfigLength(stream)])
  }

  lemma StepConfigKeeps(env: Env, g: Geometry, s: State, b: byte)
    requires SessionInv(env, g, s) && s.phase == Config && SaneStream(env, s.cfg + [b])
    ensures SessionInv(env, g, StepConfig(env, s, b))
  {
    hide ConfigInv, ConfigDone, HeadOk, ConfigLength, ReceiveInv, Installed, SaneConfig, SaneStream, Described, Headers;
    var x := s.cfg + [b];
    ConfigInvIgnoresBytes(env, g, s, s.(cfg := x));
    if |s.cfg| >= CONFIG_HEAD_LEN {
      HeadOfPrefix(x, |s.cfg|);
      assert x[..|s.cfg|] == s.cfg;
    }
    if |x| >= CONFIG_HEAD_LEN && HeadOk(x) && |x| >= ConfigLength(x) {
      LengthAboveHead(x);
      CompleteIsSane(env, x);
      ConfigDoneKeeps(env, g, s.(cfg := x));
    }
  }

  lemma CompleteIsSane(env: Env, x: seq<byte>)
    requires SaneStream(env, x) && HeadOk(x) && |x| >= CONFIG_HEAD_LEN && ConfigLength(x) == |x|
    ensures SaneConfig(env, x)
  {
    hide SaneConfig, HeadOk, ConfigLength;
    assert x[..ConfigLength(x)] == x;
  }

  lemma LengthAboveHead(cfg: seq<byte>)
    requires HeadOk(cfg)
    ensures ConfigLength(cfg) > CONFIG_HEAD_LEN
  {
  }

  lemma ConfigInvIgnoresBytes(env: Env, g: Geometry, s: State, t: State)
    requires ConfigInv(env, g, s) && t == s.(cfg := t.cfg)
    ensures ConfigInv(env, g, t)
  {
    hide HoldsTable, HiddenTable, Find;
  }

  /** Completing an image leads on to the next, to a failure or to the installed slot. */
  lemma NextImageKeeps(env: Env, g: Geometry, s: State)
    requires ReceiveInv(env, g, s) && s.open.Some? && |s.fed| == s.hdrs[s.index].length
    requires s.fed != [] ==> env.sha(s.fed) == s.hdrs[s.index].hash
    ensures SessionInv(env, g, NextImage(env, s))
  {
    hide ReceiveInv, Installed, CopyFileSystem;
    CountsOfReceiving(env, g, s);
    AdvanceKeeps(env, g, s);
    if s.index + 1 == |s.hdrs| {
      FinishInstalls(env, g, Advanced(s));
    }
  }

  lemma CountsOfReceiving(env: Env, g: Geometry, s: State)
    requires ReceiveInv(env, g, s)
    ensures s.phase == Images && s.index == |s.payloads| <= |s.hdrs| && (s.open.Some? ==> s.index < |s.hdrs| && s.table != [])
    ensures s.open == None ==> s.fed == []
    ensures s.open.Some? ==> |s.fed| <= s.hdrs[s.index].length
  {
    hide HoldsTable, HiddenTable, Find, Core, FsPending, Ordered, GeometryOk, Located, HasFileSystems, SaneHeaders, Rest;
  }

  /** Opening one image keeps the invariant of the machine. */
  lemma OpenImageKeeps(env: Env, g: Geometry, s: State)
    requires ReceiveInv(env, g, s) && s.Receiving() && s.open == None
    ensures SessionInv(env, g, OpenImage(env, s))
    ensures
      var t := OpenImage(env, s);
      t.Receiving() && t.open.Some? ==> t.fed == [] && t.hdrs == s.hdrs && t.index == s.index && 0 < s.hdrs[s.index].length
  {
    hide ReceiveInv, Installed, NextImage, Place, PlaceError, AddEntry, EraseFirstBlock, CanCreate;
    var h := s.hdrs[s.index];
    var e := Place(env, s, h);
    if PlaceError(env, s, h) == Ok {
      AddEntryCases(s, e);
      if CanCreate(s.flash, s.trial, e) {
        OpenKeeps(env, g, s);
        CountsOfReceiving(env, g, s);
        var s2 := EraseFirstBlock(AddEntry(s, e), e);
        if h.length == 0 {
          NextImageKeeps(env, g, Opened(s, e, s2.flash));
          NextImageIgnoresOpen(env, s2.(fed := []), Opened(s, e, s2.flash));
        }
      }
    }
  }

  lemma AddEntryCases(s: State, e: Entry)
    ensures !CanCreate(s.flash, s.trial, e) ==> AddEntry(s, e) == s.Fail(FlashCreatePartition)
    ensures CanCreate(s.flash, s.trial, e) ==> AddEntry(s, e).phase == s.phase
  {
    hide CanCreate, Created;
  }

  lemma NextImageIgnoresOpen(env: Env, s: State, t: State)
    requires s.Receiving() && t == s.(open := t.open)
    ensures NextImage(env, s) == NextImage(env, t)
  {
    hide CopyFileSystem;
  }

  lemma {:induction false} OpenImagesKeeps(env: Env, g: Geometry, s: State)
    requires SessionInv(env, g, s) && s.phase == Images
    ensures SessionInv(env, g, OpenImages(env, s))
    decreases |s.hdrs| - s.index
  {
    hide ReceiveInv, Installed, OpenImage;
    if s.open == None {
      OpenImageKeeps(env, g, s);
      var t := OpenImage(env, s);
      if t.Receiving() && t.open == None {
        OpenImagesKeeps(env, g, t);
      }
    }
  }

  /** The byte goes onto an erased cell of the open image, and the invariant is kept. */
  lemma PutByteKeeps(env: Env, g: Geometry, s: State, b: byte)
    requires SessionInv(env, g, s) && s.Receiving() && s.open.Some?
    ensures SessionInv(env, g, PutByte(env, s, b))
  {
    hide ReceiveInv, Installed, NextImage, Programmed, Erased;
    PutKeeps(env, g, s, b);
    var e, len := s.open.value, s.hdrs[s.index].length;
    var f' := if e.id == SBL_IMG_ID then s.flash else BytePut(s.flash, e.start, |s.fed|, b, len);
    var s' := s.(flash := f', fed := s.fed + [b]);
    if |s.fed| + 1 == len && env.sha(s'.fed) == s.hdrs[s.index].hash {
      NextImageKeeps(env, g, s');
    }
  }

  /** Every byte keeps the invariant. */
  lemma StepKeeps(env: Env, g: Geometry, s: State, b: byte)
    requires SessionInv(env, g, s) && (s.phase == Config ==> SaneStream(env, s.cfg + [b]))
    ensures SessionInv(env, g, Step(env, s, b))
  {
    hide ConfigInv, ReceiveInv, Installed, StepConfig, PutByte, SaneStream;
    match s.phase
    case Config => StepConfigKeeps(env, g, s, b);
    case Images =>
      OpenImagesKeeps(env, g, s);
      if OpenImages(env, s).Receiving() {
        PutByteKeeps(env, g, OpenImages(env, s), b);
      }
    case _ =>
  }

  /** A sane stream is sane all along. */
  lemma SanePrefix(env: Env, stream: seq<byte>, n: nat)
    requires SaneStream(env, stream) && n <= |stream|
    ensures SaneStream(env, stream[..n])
  {
    hide SaneConfig, HeadOk, ConfigLength;
    if n >= CONFIG_HEAD_LEN {
      HeadOfPrefix(stream, n);
      if ConfigLength(stream) <= n {
        assert stream[..n][..ConfigLength(stream)] == stream[..ConfigLength(stream)];
      }
    }
  }

  /** Any number of bytes keeps the invariant. */
  lemma {:induction false} ConsumeKeeps(env: Env, g: Geometry, s: State, data: seq<byte>)
    requires SessionInv(env, g, s) && (s.phase == Config ==> SaneStream(env, s.cfg + data))
    ensures SessionInv(env, g, Consume(env, s, data))
    decreases |data|
  {
    hide SessionInv, SaneStream, Step;
    if data != [] {
      if s.phase == Config {
        assert (s.cfg + data)[..|s.cfg| + 1] == s.cfg + [data[0]];
        SanePrefix(env, s.cfg + data, |s.cfg| + 1);
      }
      StepKeeps(env, g, s, data[0]);
      var t := Step(env, s, data[0]);
      if t.phase == Config {
        ConfigStaysConfig(env, s, data[0]);
        assert t.cfg + data[1..] == s.cfg + data;
      }
      ConsumeKeeps(env, g, t, data[1..]);
    }
  }

  lemma ConfigStaysConfig(env: Env, s: State, b: byte)
    requires Step(env, s, b).phase == Config
    ensures s.phase == Config && Step(env, s, b) == s.(cfg := s.cfg + [b])
  {
    hide PutByte, OpenImage, HeadOk, ConfigLength, ConfigDone;
  }
}
