/** The invariant of a session that is receiving images, kept by every byte up to and including the last. */
module ImageInvariant {
  import opened Bytes
  import opened NorFlash
  import opened Descriptor
  import opened SlotSelection
  import opened UpgradeMem
  import opened UpgradeSpec
  import opened PacketBoundaries
  import opened SessionInvariant

  // Configurations the session is meant for

  /** Ids an image must not have: reserved partitions are not downloaded, and one id marks unused entries. */
  predicate Downloadable(id: uint32) {
    id != FS2_IMG_ID && id != RAMDUMP_IMG_ID && id != USERDATA_IMG_ID && id != IMAGE_UNUSED
  }

  ghost predicate SaneHeader(env: Env, h: Header) {
    && Downloadable(h.id)
    && h.length <= h.disk && 0 < h.disk
    && (h.id != SBL_IMG_ID ==> h.disk % BLOCK_SIZE == 0)
    && (h.id == SBL_IMG_ID ==> env.sbl.Some? && env.sbl.value.start + h.disk < TWO_TO_THE_32)
  }

  ghost predicate SaneHeaders(env: Env, hs: seq<Header>) {
    && (forall k :: 0 <= k < |hs| ==> SaneHeader(env, hs[k]))
    && (forall j, k :: 0 <= j < k < |hs| && hs[j].id == FS1_IMG_ID ==> hs[k].id != FS1_IMG_ID)
    && env.sbl.Some? && SblDisk(hs) <= env.sbl.value.size
  }

  /** Region space the images from number `k` on will take. */
  function Rest(hs: seq<Header>, k: nat): nat
    decreases |hs| - k
  {
    if k >= |hs| then 0 else (if Advances(hs[k]) then hs[k].disk else 0) + Rest(hs, k + 1)
  }

  /** The configuration is all-in-one, downloads each file system at most once and no reserved
      partition, and its sizes stay within 32 bits. */
  ghost predicate SaneConfig(env: Env, cfg: seq<byte>) {
    && ConfigFormat(cfg) != FORMAT_PARTIAL_UPGRADE
    && (forall k :: 0 <= k < ConfigCount(cfg) ==>
          var h := RawHeader(cfg, k);
          && Downloadable(h.id) && h.disk + BLOCK_SIZE <= TWO_TO_THE_32
          && (h.id == SBL_IMG_ID && env.sbl.Some? ==> env.sbl.value.start + h.disk < TWO_TO_THE_32))
    && (forall j, k :: 0 <= j < k < ConfigCount(cfg) && RawHeader(cfg, j).id == FS1_IMG_ID ==> RawHeader(cfg, k).id != FS1_IMG_ID)
    && Rest(Headers(cfg), 0) < TWO_TO_THE_32
  }

  // The invariant

  /** Number of image entries created so far. */
  function Made(s: State): nat {
    s.index + if s.open.Some? then 1 else 0
  }

  /** An image with header `h` is complete: its entry `e` is right, its bytes `p` have the right digest
      and are in place below `cursor`. */
  ghost predicate Done(env: Env, g: Geometry, h: Header, e: Entry, p: seq<byte>, cursor: nat, f: seq<byte>) {
    && e.id == h.id && e.version == h.version
    && |p| == h.length <= h.disk && (p != [] ==> env.sha(p) == h.hash)
    && (Advances(h) ==>
          && e.size == h.disk && g.region.start <= e.start && e.End() <= cursor
          && Stored(f, e.start, p))
    && (h.id == FS1_IMG_ID ==> e.Extent() == g.fs2 && h.disk <= g.fs2.size)
    && (h.id == SBL_IMG_ID ==> env.sbl.Some? && e.Extent() == Extent(env.sbl.value.start, h.disk))
  }

  ghost predicate AllDone(env: Env, g: Geometry, s: State) {
    && s.index <= |s.payloads| && s.index <= |s.hdrs| && s.hidden + s.index <= |s.table|
    && forall k :: 0 <= k < s.index ==>
         Done(env, g, s.hdrs[k], s.table[s.hidden + k], s.payloads[k], s.cursor, s.flash)
  }

  /** The open image sits at the end of the table; its first bytes are in place and the cells up to the
      next block boundary are erased. */
  ghost predicate OpenInv(env: Env, g: Geometry, s: State)
    requires s.open.Some? && s.index < |s.hdrs| && s.table != []
  {
    var h, e, c := s.hdrs[s.index], s.open.value, |s.fed|;
    && e == s.table[|s.table| - 1] && e.id == h.id && e.version == h.version
    && c <= h.length <= e.size
    && (e.id == SBL_IMG_ID ==> e.start + e.size < TWO_TO_THE_32)
    && (Advances(h) ==> e.Extent() == Extent(s.cursor, h.disk))
    && (h.id == FS1_IMG_ID ==> e.Extent() == g.fs2 && h.disk <= g.fs2.size)
    && (h.id == SBL_IMG_ID ==> env.sbl.Some? && e.Extent() == Extent(env.sbl.value.start, h.disk))
    && (e.id != SBL_IMG_ID ==> PartitionInv(g, s.flash, e, s.fed, h.length))
  }

  ghost predicate PartitionInv(g: Geometry, f: seq<byte>, e: Entry, fed: seq<byte>, len: nat) {
    && e.start % BLOCK_SIZE == 0 && e.size % BLOCK_SIZE == 0
    && MAX_FWD * BLOCK_SIZE <= e.start && e.End() <= |f| && BLOCK_SIZE <= e.size
    && (e.Extent() == g.fs2 || (g.region.start <= e.start && e.End() <= g.region.start + g.region.size))
    && Stored(f, e.start, fed)
    && (|fed| < len ==> Blank(f, e.start + |fed|, NextBlock(|fed|) - |fed|))
  }

  /** Region images lie one after the other. */
  ghost predicate Ordered(s: State) {
    && s.hidden + Made(s) <= |s.table| && Made(s) <= |s.hdrs|
    && forall j, k :: 0 <= j < k < Made(s) && Advances(s.hdrs[j]) && Advances(s.hdrs[k]) ==>
         s.table[s.hidden + j].End() <= s.table[s.hidden + k].start
  }

  /** The configuration has passed all checks, and the headers are its own. */
  ghost predicate ConfigChecked(env: Env, space: nat, cfg: seq<byte>, hs: seq<Header>) {
    hs == Headers(cfg) && |cfg| == ConfigLength(cfg) && HeadOk(cfg) && ConfigIntact(env, cfg) && CheckImages(env, cfg, space) == Ok
  }

  /** The header fields are those of the configuration. */
  ghost predicate InfoInv(s: State) {
    && Word(s.flash, InfoAddr(s.trial, Magic)) == ConfigMagic(s.cfg)
    && Word(s.flash, InfoAddr(s.trial, Version)) == ConfigVersion(s.cfg)
    && Cell(s.flash, InfoAddr(s.trial, TotalImages)) == TotalImagesByte(s.cfg, s.hidden)
  }

  /** What does not change while images are received, and the room left for them. */
  ghost predicate Setting(env: Env, g: Geometry, s: State) {
    && GeometryOk(g, env.active) && Located(env, g) && HasFileSystems(env, g)
    && s.trial == g.trial && s.phase == Images
    && SaneHeaders(env, s.hdrs) && |s.hdrs| == ConfigCount(s.cfg) && ConfigChecked(env, g.region.size, s.cfg, s.hdrs)
    && s.cursor % BLOCK_SIZE == 0 && g.region.start <= s.cursor
    && s.cursor + Rest(s.hdrs, s.index) <= g.region.start + g.region.size
  }

  ghost predicate Counts(env: Env, g: Geometry, s: State) {
    && s.index == |s.payloads| <= |s.hdrs| && Made(s) <= |s.hdrs|
    && |s.table| == s.hidden + Made(s)
    && s.hidden == |HiddenTable(env, g.base)| && s.table[..s.hidden] == HiddenTable(env, g.base)
  }

  /** What every flash operation of the image phase keeps. */
  ghost predicate Core(env: Env, g: Geometry, s: State) {
    Frame(g, s.flash) && DescriptorInv(s) && InfoInv(s) && AllDone(env, g, s)
  }

  ghost predicate ReceiveInv(env: Env, g: Geometry, s: State) {
    && Setting(env, g, s) && Counts(env, g, s) && Ordered(s)
    && Core(env, g, s)
    && (s.open == None ==> s.fed == [])
    && (s.open.Some? ==> OpenInv(env, g, s))
    && FsPending(g, s)
  }

  lemma RestStep(hs: seq<Header>, k: nat)
    requires k < |hs|
    ensures Rest(hs, k) == (if Advances(hs[k]) then hs[k].disk else 0) + Rest(hs, k + 1)
  {
  }

  lemma StoredStays(f: seq<byte>, f': seq<byte>, a: nat, n: nat, start: nat, p: seq<byte>)
    requires Stored(f, start, p) && SameOutside(f, f', a, n)
    requires start + |p| <= a || a + n <= start
    ensures Stored(f', start, p)
  {
    forall i | start <= i < start + |p|
      ensures Cell(f', i) == p[i - start]
    {
      assert Cell(f, i) == p[i - start];
    }
  }

  lemma OneDoneStays(
    env: Env, g: Geometry, h: Header, e: Entry, p: seq<byte>, cursor: nat, f: seq<byte>,
    f': seq<byte>, cursor': nat, a: nat, n: nat)
    requires Done(env, g, h, e, p, cursor, f) && SameOutside(f, f', a, n)
    requires a + n <= g.region.start || cursor <= a
    requires cursor <= cursor'
    ensures Done(env, g, h, e, p, cursor', f')
  {
    if Advances(h) {
      StoredStays(f, f', a, n, e.start, p);
    }
  }

  /** Completed images are not affected by an operation outside the space already used up. */
  lemma DoneStays(env: Env, g: Geometry, s: State, s': State, a: nat, n: nat)
    requires AllDone(env, g, s) && SameOutside(s.flash, s'.flash, a, n)
    requires a + n <= g.region.start || s.cursor <= a
    requires s'.hdrs == s.hdrs && s.payloads <= s'.payloads && s.table <= s'.table && s'.hidden == s.hidden
    requires s.cursor <= s'.cursor && s.index <= s'.index <= |s'.payloads|
    requires s'.index <= |s'.hdrs| && s'.hidden + s'.index <= |s'.table|
    ensures forall k :: 0 <= k < s.index ==>
              Done(env, g, s'.hdrs[k], s'.table[s'.hidden + k], s'.payloads[k], s'.cursor, s'.flash)
  {
    hide Done;
    forall k | 0 <= k < s.index
      ensures Done(env, g, s'.hdrs[k], s'.table[s'.hidden + k], s'.payloads[k], s'.cursor, s'.flash)
    {
      OneDoneStays(env, g, s.hdrs[k], s.table[s.hidden + k], s.payloads[k], s.cursor, s.flash, s'.flash, s'.cursor, a, n);
    }
  }

  /** The header fields are outside the data areas and outside the entries. */
  lemma InfoStays(s: State, s': State)
    requires InfoInv(s) && s'.trial == s.trial && s'.cfg == s.cfg && s'.hidden == s.hidden
    requires SameCells(s.flash, s'.flash, s.trial * BLOCK_SIZE, 32)
    ensures InfoInv(s')
  {
    hide Word;
    SameWord(s.flash, s'.flash, InfoAddr(s.trial, Magic));
    SameWord(s.flash, s'.flash, InfoAddr(s.trial, Version));
  }

  // One byte

  /** The flash after programming byte `b` of a partition, with the next block erased when `b` fills one. */
  function BytePut(f: seq<byte>, start: nat, c: nat, b: byte, len: nat): seq<byte> {
    var f1 := Programmed(f, start + c, [b]);
    if c + 1 < len && (c + 1) % BLOCK_SIZE == 0 then Erased(f1, start + c + 1, BLOCK_SIZE) else f1
  }

  /** A byte goes onto an erased cell, and no cell already written is touched. */
  lemma BytePutKeeps(g: Geometry, f: seq<byte>, e: Entry, fed: seq<byte>, b: byte, len: nat)
    requires PartitionInv(g, f, e, fed, len) && |fed| < len <= e.size
    ensures
      var f' := BytePut(f, e.start, |fed|, b, len);
      && Cell(f, e.start + |fed|) == 0xFF
      && SameOutside(f, f', e.start + |fed|, e.size - |fed|)
      && PartitionInv(g, f', e, fed + [b], len)
  {
    hide NextBlock, And;
    var c := |fed|;
    NextBlockStep(c);
    assert Cell(f, e.start + c) == 0xFF;
    ErasedTakesAnything(b);
    var f' := BytePut(f, e.start, c, b, len);
    forall i | e.start <= i < e.start + c + 1
      ensures Cell(f', i) == (fed + [b])[i - e.start]
    {
      assert i < e.start + c ==> Cell(f, i) == fed[i - e.start];
    }
    if c + 1 < len {
      forall i | e.start + c + 1 <= i < e.start + NextBlock(c + 1)
        ensures Cell(f', i) == 0xFF
      {
        assert i < e.start + NextBlock(c) ==> Cell(f, i) == 0xFF;
      }
    }
  }

  /** Where an open flash partition lies, seen from the other areas. */
  lemma OpenPartitionPlace(env: Env, g: Geometry, s: State)
    requires Setting(env, g, s) && s.open.Some? && s.index < |s.hdrs| && s.table != []
    requires OpenInv(env, g, s) && s.open.value.id != SBL_IMG_ID
    ensures
      var e := s.open.value;
      && MAX_FWD * BLOCK_SIZE <= e.start && 0 < e.size
      && (e.End() <= g.region.start || s.cursor <= e.start)
      && (forall i :: e.start <= i < e.End() ==> g.Writable(i))
      && (s.hdrs[s.index].id != FS1_IMG_ID ==> Disjoint(e.Extent(), g.fs2))
  {
    hide HiddenTable, Find, Rest;
  }

  lemma PutKeeps(env: Env, g: Geometry, s: State, b: byte)
    requires ReceiveInv(env, g, s) && s.open.Some? && |s.fed| < s.hdrs[s.index].length
    ensures
      var e := s.open.value;
      var f' := if e.id == SBL_IMG_ID then s.flash else BytePut(s.flash, e.start, |s.fed|, b, s.hdrs[s.index].length);
      && ReceiveInv(env, g, s.(flash := f', fed := s.fed + [b]))
      && (e.id != SBL_IMG_ID ==> Cell(s.flash, e.start + |s.fed|) == 0xFF)
  {
    hide ReceiveInv, BytePut, SameOutside, PartitionInv;
    OpenIndex(env, g, s);
    var e := s.open.value;
    var f' := if e.id == SBL_IMG_ID then s.flash else BytePut(s.flash, e.start, |s.fed|, b, s.hdrs[s.index].length);
    var s' := s.(flash := f', fed := s.fed + [b]);
    if e.id != SBL_IMG_ID {
      OpenPartitionInv(env, g, s);
      BytePutKeeps(g, s.flash, e, s.fed, b, s.hdrs[s.index].length);
      TailIsInside(s.flash, f', e, |s.fed|);
      DataChanged(env, g, s, s');
    } else {
      SblByteKeeps(env, g, s, s');
    }
    PutKeepsRest(env, g, s, s', b);
  }

  lemma OpenIndex(env: Env, g: Geometry, s: State)
    requires ReceiveInv(env, g, s) && s.open.Some?
    ensures s.index < |s.hdrs|
  {
    hide HiddenTable, Find, Rest, PartitionInv, Core, Ordered, FsPending, SaneHeaders, GeometryOk, Located, HasFileSystems, OpenInv;
  }

  lemma OpenPartitionInv(env: Env, g: Geometry, s: State)
    requires ReceiveInv(env, g, s) && s.open.Some? && s.open.value.id != SBL_IMG_ID
    ensures s.index < |s.hdrs| && PartitionInv(g, s.flash, s.open.value, s.fed, s.hdrs[s.index].length)
    ensures s.hdrs[s.index].length <= s.open.value.size
  {
    hide HiddenTable, Find, Rest, PartitionInv, Core, Ordered, FsPending, SaneHeaders, GeometryOk, Located, HasFileSystems;
  }

  lemma TailIsInside(f: seq<byte>, f': seq<byte>, e: Entry, c: nat)
    requires SameOutside(f, f', e.start + c, e.size - c)
    ensures SameOutside(f, f', e.start, e.size)
  {
  }

  /** A byte of the SBL goes to another memory. */
  lemma SblByteKeeps(env: Env, g: Geometry, s: State, s': State)
    requires ReceiveInv(env, g, s) && s' == s.(fed := s'.fed)
    ensures Frame(g, s'.flash) && DescriptorInv(s') && InfoInv(s') && AllDone(env, g, s') && FsPending(g, s')
  {
    hide HiddenTable, Find, Rest, PartitionInv, HoldsTable, GeometryOk, Done, SaneHeaders, Word, Ordered, Located,
      HasFileSystems, Blank, ConfigChecked, SblDisk;
  }

  /** What is left of the invariant once the flash is known to be in order. */
  lemma PutKeepsRest(env: Env, g: Geometry, s: State, s': State, b: byte)
    requires ReceiveInv(env, g, s) && s.open.Some? && |s.fed| < s.hdrs[s.index].length
    requires s' == s.(flash := s'.flash, fed := s.fed + [b])
    requires Frame(g, s'.flash) && DescriptorInv(s') && InfoInv(s') && AllDone(env, g, s') && FsPending(g, s')
    requires s.open.value.id != SBL_IMG_ID ==> PartitionInv(g, s'.flash, s'.open.value, s'.fed, s'.hdrs[s'.index].length)
    ensures ReceiveInv(env, g, s')
  {
    hide HiddenTable, Find, Rest, PartitionInv, Frame, DescriptorInv, InfoInv, AllDone, GeometryOk, SaneHeaders, FsPending, Located,
      HasFileSystems, ConfigCount, ConfigChecked, SblDisk;
  }

  /** A change inside the open partition keeps everything but the partition's own clause. */
  lemma DataChanged(env: Env, g: Geometry, s: State, s': State)
    requires ReceiveInv(env, g, s) && s.open.Some? && s.open.value.id != SBL_IMG_ID
    requires s' == s.(flash := s'.flash, fed := s'.fed)
    requires SameOutside(s.flash, s'.flash, s.open.value.start, s.open.value.size)
    ensures Frame(g, s'.flash) && DescriptorInv(s') && InfoInv(s') && AllDone(env, g, s')
    ensures FsPending(g, s')
  {
    hide HiddenTable, Find, Rest, PartitionInv, HoldsTable, GeometryOk, Done, SaneHeaders, Word;
    var e := s.open.value;
    OpenPartitionPlace(env, g, s);
    FrameKept(g, s.flash, s'.flash, e.start, e.size);
    DataKeepsDescriptor(s, s'.flash, e.start, e.size);
    InfoStays(s, s');
    DoneStays(env, g, s, s', e.start, e.size);
    if s.hdrs[s.index].id != FS1_IMG_ID {
      BlankStays(s.flash, s'.flash, e.start, e.size, g.fs2.start, g.fs2.size);
    } else {
      assert Made(s) == s.index + 1;
    }
  }

  // Opening an image

  /** The open image, when it is opened, is not yet received. */
  function Opened(s: State, e: Entry, f: seq<byte>): State {
    s.(flash := f, table := s.table + [e], open := Some(e), fed := [])
  }

  /** Facts about the place of the next image. */
  lemma PlaceFits(env: Env, g: Geometry, s: State)
    requires ReceiveInv(env, g, s) && s.open == None && s.index < |s.hdrs| && PlaceError(env, s, s.hdrs[s.index]) == Ok
    ensures
      var h, e := s.hdrs[s.index], Place(env, s, s.hdrs[s.index]);
      && e.id == h.id && e.version == h.version && e.id != IMAGE_UNUSED && h.length <= e.size && 0 < e.size
      && (e.id == SBL_IMG_ID ==> e.start + e.size < TWO_TO_THE_32)
      && (Advances(h) ==> e.Extent() == Extent(s.cursor, h.disk) && e.End() <= g.region.start + g.region.size)
      && (h.id == FS1_IMG_ID ==> e.Extent() == g.fs2 && h.disk <= g.fs2.size)
      && (h.id == SBL_IMG_ID ==> env.sbl.Some? && e.Extent() == Extent(env.sbl.value.start, h.disk))
  {
    hide HiddenTable, FindFrom, EntryAt, HoldsTable, Done, Word, DescriptorInv, InfoInv, Ordered, Frame, ConfigChecked, SblDisk;
    var h := s.hdrs[s.index];
    assert SaneHeader(env, h);
    RestStep(s.hdrs, s.index);
    if h.id == FS1_IMG_ID {
      FsPlace(env, g, s);
    }
  }

  /** The running slot's second file system is where it was when the session started. */
  lemma FsPlace(env: Env, g: Geometry, s: State)
    requires GeometryOk(g, env.active) && Frame(g, s.flash)
    ensures Find(s.flash, env.active, FS2_IMG_ID) == Find(g.base, env.active, FS2_IMG_ID)
    ensures Find(s.flash, env.active, FS1_IMG_ID) == Find(g.base, env.active, FS1_IMG_ID)
  {
    hide Find;
    ActiveFindsSame(g, env.active, s.flash, FS2_IMG_ID);
    ActiveFindsSame(g, env.active, s.flash, FS1_IMG_ID);
  }

  lemma CoreAfterEntry(env: Env, g: Geometry, s: State, e: Entry)
    requires Core(env, g, s) && GeometryOk(g, env.active) && s.trial == g.trial
    requires CanCreate(s.flash, s.trial, e) && e.id != IMAGE_UNUSED
    ensures
      var s' := AddEntry(s, e);
      && s' == s.(flash := s'.flash, table := s.table + [e])
      && Core(env, g, s')
      && (Blank(s.flash, g.fs2.start, g.fs2.size) ==> Blank(s'.flash, g.fs2.start, g.fs2.size))
  {
    hide CanCreate, Created, HoldsTable, Done, Word, EntryBytes, FindIndex;
    var s', a := AddEntry(s, e), EntryAddr(s.trial, |s.table|);
    AddEntryKeepsDescriptor(s, e);
    FrameKept(g, s.flash, s'.flash, a, 16);
    InfoStays(s, s');
    DoneStays(env, g, s, s', a, 16);
    BlankStays(s.flash, s'.flash, a, 16, g.fs2.start, g.fs2.size);
  }

  lemma CoreAfterData(env: Env, g: Geometry, s: State, f: seq<byte>, a: nat, n: nat)
    requires Core(env, g, s) && s.trial == g.trial && SameOutside(s.flash, f, a, n)
    requires MAX_FWD * BLOCK_SIZE <= a && (a + n <= g.region.start || s.cursor <= a)
    requires forall i :: a <= i < a + n ==> g.Writable(i)
    ensures Core(env, g, s.WithFlash(f))
  {
    hide HoldsTable, Done, Word;
    FrameKept(g, s.flash, f, a, n);
    DataKeepsDescriptor(s, f, a, n);
    InfoStays(s, s.WithFlash(f));
    DoneStays(env, g, s, s.WithFlash(f), a, n);
  }

  /** The first block of the new partition is erased, by now or beforehand. */
  lemma FirstBlockErased(env: Env, g: Geometry, s: State, e: Entry)
    requires Core(env, g, s) && Setting(env, g, s)
    requires s.index < |s.hdrs| && e.id == s.hdrs[s.index].id && 0 < e.size
    requires Advances(s.hdrs[s.index]) ==>
               e.Extent() == Extent(s.cursor, s.hdrs[s.index].disk) && e.End() <= g.region.start + g.region.size
    requires e.id == FS1_IMG_ID ==> e.Extent() == g.fs2 && Blank(s.flash, g.fs2.start, g.fs2.size)
    ensures
      var s' := EraseFirstBlock(s, e);
      && s' == s.WithFlash(s'.flash) && Core(env, g, s')
      && (e.id != SBL_IMG_ID ==> PartitionInv(g, s'.flash, e, [], s.hdrs[s.index].length))
      && (e.id != FS1_IMG_ID ==> Blank(s.flash, g.fs2.start, g.fs2.size) ==> Blank(s'.flash, g.fs2.start, g.fs2.size))
  {
    hide HiddenTable, Find, Rest, HoldsTable, Done, Word, DescriptorInv, InfoInv, AllDone;
    assert SaneHeader(env, s.hdrs[s.index]);
    if Advances(s.hdrs[s.index]) {
      var f := Erased(s.flash, e.start, BLOCK_SIZE);
      CoreAfterData(env, g, s, f, e.start, BLOCK_SIZE);
      BlankStays(s.flash, f, e.start, BLOCK_SIZE, g.fs2.start, g.fs2.size);
    }
  }

  /** While no downloaded file system has been opened, its future place is erased. */
  ghost predicate FsPending(g: Geometry, s: State)
    requires Made(s) <= |s.hdrs|
  {
    (forall k :: 0 <= k < Made(s) ==> s.hdrs[k].id != FS1_IMG_ID) ==> Blank(s.flash, g.fs2.start, g.fs2.size)
  }

  /** The descriptor clauses do not depend on the position in the stream. */
  lemma DescriptorSame(s: State, t: State)
    requires DescriptorInv(s) && InfoInv(s)
    requires t.flash == s.flash && t.trial == s.trial && t.table == s.table && t.phase == s.phase
    requires t.cfg == s.cfg && t.hidden == s.hidden
    ensures DescriptorInv(t) && InfoInv(t)
  {
    hide HoldsTable, Word, Blank;
  }

  lemma OpenedOrdered(env: Env, g: Geometry, s: State, t: State, e: Entry)
    requires ReceiveInv(env, g, s) && s.open == None && s.index < |s.hdrs|
    requires t == Opened(s, e, t.flash)
    requires Advances(s.hdrs[s.index]) ==> e.start == s.cursor
    ensures Ordered(t)
  {
    hide HiddenTable, Find, Rest, HoldsTable, Word, PartitionInv, GeometryOk, Located, HasFileSystems, Blank, Stored,
      DescriptorInv, InfoInv, Frame, SaneHeaders, ConfigChecked, SblDisk;
    forall j, k | 0 <= j < k < Made(t) && Advances(t.hdrs[j]) && Advances(t.hdrs[k])
      ensures t.table[t.hidden + j].End() <= t.table[t.hidden + k].start
    {
      assert Done(env, g, s.hdrs[j], s.table[s.hidden + j], s.payloads[j], s.cursor, s.flash);
    }
  }

  /** Opening the next image keeps the invariant; it fails only for want of a free entry or of a file system. */
  lemma OpenKeeps(env: Env, g: Geometry, s: State)
    requires ReceiveInv(env, g, s) && s.open == None && s.index < |s.hdrs|
    requires PlaceError(env, s, s.hdrs[s.index]) == Ok
    requires CanCreate(s.flash, s.trial, Place(env, s, s.hdrs[s.index]))
    ensures
      var e := Place(env, s, s.hdrs[s.index]);
      var s2 := EraseFirstBlock(AddEntry(s, e), e);
      && s2 == s.(flash := s2.flash, table := s.table + [e])
      && ReceiveInv(env, g, Opened(s, e, s2.flash))
  {
    hide HiddenTable, Find, Rest, HoldsTable, Word, CanCreate, Place, PlaceError, AddEntry, EraseFirstBlock, PartitionInv,
      GeometryOk, Located, HasFileSystems, SaneHeader, Frame, DescriptorInv, InfoInv, Blank, AllDone, Ordered, ConfigChecked, SblDisk;
    var h := s.hdrs[s.index];
    var e := Place(env, s, h);
    PlaceFits(env, g, s);
    CoreAfterEntry(env, g, s, e);
    if h.id == FS1_IMG_ID {
      assert forall k :: 0 <= k < s.index ==> s.hdrs[k].id != FS1_IMG_ID;
    }
    FirstBlockErased(env, g, AddEntry(s, e), e);
    var t := Opened(s, e, EraseFirstBlock(AddEntry(s, e), e).flash);
    OpenedOrdered(env, g, s, t, e);
    assert t.table[..t.hidden] == s.table[..s.hidden];
    assert FsPending(g, s) && FsPending(g, t);
    DescriptorSame(AddEntry(s, e).WithFlash(t.flash), t);
    assert AllDone(env, g, t) by { DoneSame(env, g, AddEntry(s, e).WithFlash(t.flash), t); }
  }

  lemma DoneSame(env: Env, g: Geometry, s: State, t: State)
    requires AllDone(env, g, s)
    requires t == s.(open := t.open, fed := t.fed)
    ensures AllDone(env, g, t)
  {
    hide Done;
  }

  // Completing an image

  /** The state after the open image is complete, before the end of the session is considered. */
  function Advanced(s: State): State
    requires s.Receiving()
  {
    var h := s.hdrs[s.index];
    s.(index := s.index + 1, cursor := if Advances(h) then U32(s.cursor + h.disk) else s.cursor,
       open := None, payloads := s.payloads + [s.fed], fed := [])
  }

  lemma AdvanceKeeps(env: Env, g: Geometry, s: State)
    requires ReceiveInv(env, g, s) && s.open.Some? && |s.fed| == s.hdrs[s.index].length
    requires s.fed != [] ==> env.sha(s.fed) == s.hdrs[s.index].hash
    ensures ReceiveInv(env, g, Advanced(s))
  {
    hide HiddenTable, Find, HoldsTable, Word, Located, HasFileSystems, Frame, DescriptorInv, InfoInv, Blank, AllDone,
      PartitionInv, ConfigCount, ConfigChecked, SblDisk;
    var h, t := s.hdrs[s.index], Advanced(s);
    RestStep(s.hdrs, s.index);
    assert SaneHeader(env, h);
    NewlyDone(env, g, s, t);
    DescriptorSame(s, t);
    assert FsPending(g, s) && FsPending(g, t);
  }

  lemma NewlyDone(env: Env, g: Geometry, s: State, t: State)
    requires ReceiveInv(env, g, s) && s.open.Some? && |s.fed| == s.hdrs[s.index].length
    requires s.fed != [] ==> env.sha(s.fed) == s.hdrs[s.index].hash
    requires t == Advanced(s) && SaneHeader(env, s.hdrs[s.index])
    requires Advances(s.hdrs[s.index]) ==> t.cursor == s.cursor + s.hdrs[s.index].disk
    ensures AllDone(env, g, t)
  {
    hide HiddenTable, Find, HoldsTable, Word, Located, HasFileSystems, Frame, DescriptorInv, InfoInv, Blank, Rest, GeometryOk,
      ConfigChecked, SblDisk;
    DoneStays(env, g, s, t, 0, 0);
    assert Done(env, g, s.hdrs[s.index], s.table[s.hidden + s.index], s.fed, t.cursor, t.flash);
  }

  // What the invariant leaves to the configuration: one first file system

  /** The next image is a first file system, for which there is an entry and a place to put it. */
  predicate FsNext(env: Env, s: State) {
    && s.Receiving() && s.open == None && s.hdrs[s.index].id == FS1_IMG_ID && PlaceError(env, s, s.hdrs[s.index]) == Ok
    && var e := Place(env, s, s.hdrs[s.index]);
       CanCreate(s.flash, s.trial, e) && MAX_FWD * BLOCK_SIZE <= e.start && e.start + BLOCK_SIZE <= |s.flash|
  }

  /** `t` has received the bytes `d` of the image put at `e`, which have been programmed onto the cells of `s`. */
  ghost predicate OntoOld(s: State, t: State, e: Entry, d: seq<byte>) {
    && t == s.(flash := t.flash, open := Some(e), fed := d, table := s.table + [e]) && |t.flash| == |s.flash|
    && forall i :: e.start <= i < e.start + BLOCK_SIZE ==>
         Cell(t.flash, i) == if i < e.start + |d| then And(Cell(s.flash, i), d[i - e.start]) else Cell(s.flash, i)
  }

  lemma FsOpened(env: Env, s: State)
    requires FsNext(env, s) && 0 < s.hdrs[s.index].length
    ensures OntoOld(s, OpenImages(env, s), Place(env, s, s.hdrs[s.index]), [])
  {
    hide And, Find, FindIndex;
    var e, t := Place(env, s, s.hdrs[s.index]), OpenImages(env, s);
    var s1 := AddEntry(s, e);
    assert OpenImage(env, s) == s1.(open := Some(e), fed := []) == t;
    var a := EntryAddr(s.trial, FindIndex(s.flash, s.trial, IMAGE_UNUSED));
    assert a + 16 <= MAX_FWD * BLOCK_SIZE;
    assert forall i :: e.start <= i < e.start + BLOCK_SIZE ==> Cell(t.flash, i) == Cell(s.flash, i);
  }

  lemma FsByte(env: Env, s: State, u: State, e: Entry, fed: seq<byte>, b: byte)
    requires s.Receiving() && e.id == FS1_IMG_ID && e.start + BLOCK_SIZE <= |s.flash|
    requires OntoOld(s, u, e, fed) && |fed| < BLOCK_SIZE && |fed| + 1 < s.hdrs[s.index].length
    ensures OntoOld(s, PutByte(env, u, b), e, fed + [b])
  {
    hide And;
    var t, c := PutByte(env, u, b), e.start + |fed|;
    assert forall i :: e.start <= i < e.start + BLOCK_SIZE ==>
                         Cell(t.flash, i) == if i == c then And(Cell(u.flash, i), b) else Cell(u.flash, i);
  }

  /** Its first block is programmed onto whatever is there. */
  lemma {:induction false} FsBytesOntoOld(env: Env, s: State, d: seq<byte>)
    requires FsNext(env, s) && 0 < |d| <= BLOCK_SIZE && |d| < s.hdrs[s.index].length
    ensures OntoOld(s, Consume(env, s, d), Place(env, s, s.hdrs[s.index]), d)
    decreases |d|
  {
    hide Find, CanCreate, OntoOld, PutByte, OpenImages, PlaceError;
    var e, n := Place(env, s, s.hdrs[s.index]), |d| - 1;
    FsOpened(env, s);
    var u := if n == 0 then OpenImages(env, s) else Consume(env, s, d[..n]);
    assert d == d[..n] + [d[n]];
    if n > 0 {
      FsBytesOntoOld(env, s, d[..n]);
      ConsumeAppend(env, s, d[..n], [d[n]]);
    }
    OneByte(env, if n == 0 then s else u, d[n]);
    FsByte(env, s, u, e, d[..n], d[n]);
    assert Consume(env, s, d) == PutByte(env, u, d[n]) by { Reopened(env, s, u, e, d[..n]); }
  }

  lemma OneByte(env: Env, s: State, b: byte)
    ensures Consume(env, s, [b]) == Step(env, s, b)
  {
    assert [b][1..] == [];
  }

  lemma Reopened(env: Env, s: State, u: State, e: Entry, fed: seq<byte>)
    requires s.Receiving() && OntoOld(s, u, e, fed)
    ensures u.Receiving() && u.open.Some? && OpenImages(env, u) == u
  {
  }

  /**
   So it is stored as given exactly when that takes no erase: always for the only one, whose place has been erased, but not for
   a second one over the bytes of the first.
   */
  lemma FirstFsStoredExactlyWhen(env: Env, s: State, d: seq<byte>)
    requires FsNext(env, s) && 0 < |d| <= BLOCK_SIZE && |d| < s.hdrs[s.index].length
    ensures
      var a := Place(env, s, s.hdrs[s.index]).start;
      Stored(Consume(env, s, d).flash, a, d) <==> OnlyClears(s.flash, a, d)
  {
    hide And, Find, Consume, Place, CanCreate;
    FsBytesOntoOld(env, s, d);
    var a, t := Place(env, s, s.hdrs[s.index]).start, Consume(env, s, d);
    assert forall i :: a <= i < a + |d| ==> Cell(t.flash, i) == And(Cell(s.flash, i), d[i - a]);
  }

  /** A second one that sets a bit the first one has cleared, in whatever byte, is not stored. */
  lemma SecondFirstFsGarbled(env: Env, s: State, p: seq<byte>, d: seq<byte>, i: nat, k: nat)
    requires FsNext(env, s) && 0 < |d| <= BLOCK_SIZE && |d| < s.hdrs[s.index].length
    requires Stored(s.flash, Place(env, s, s.hdrs[s.index]).start, p)
    requires i < |d| && i < |p| && k < 8 && Bit(d[i], k) && !Bit(p[i], k)
    ensures !Stored(Consume(env, s, d).flash, Place(env, s, s.hdrs[s.index]).start, d)
  {
    hide Find, Consume, Place, CanCreate, And, Bit;
    FirstFsStoredExactlyWhen(env, s, d);
    var a := Place(env, s, s.hdrs[s.index]).start;
    assert Cell(s.flash, a + i) == p[i];
    StoredExactlyWhen(p[i], d[i]);
    assert !SetsNoBit(p[i], d[i]);
  }
}
