/**
 Small devices of sixteen blocks, the first slot provisioned with two file systems and an application: one for which everything
 assumed elsewhere holds, with an upload that it accepts, and those on which the code does not do what is wanted.
 */
module SampleDevice {
  import opened Bytes
  import opened NorFlash
  import opened Descriptor
  import opened SlotSelection
  import opened UpgradeMem
  import opened UpgradeSpec
  import opened SessionInvariant
  import opened ImageInvariant
  import opened Completion
  import opened Formats
  import opened UpgradeSession
  import opened WholeUpload
  import opened FlashLayout
  import opened LayoutHistory
  import opened Lifecycle
  import opened FileSystems

  const BLOCKS: nat := 16
  const FS1 := Entry(FS1_IMG_ID, 3 * BLOCK_SIZE, BLOCK_SIZE, 1)
  const FS2 := Entry(FS2_IMG_ID, 4 * BLOCK_SIZE, BLOCK_SIZE, 1)
  const APP := Entry(APP_IMG_ID, 5 * BLOCK_SIZE, BLOCK_SIZE, 1)
  /** An application that fills the flash to the last block. */
  const WIDE_APP := Entry(APP_IMG_ID, 5 * BLOCK_SIZE, 11 * BLOCK_SIZE, 1)

  /** The plan of the two-slot device, and with a golden slot. */
  function SamplePlan(goldenEnd: nat): Plan {
    Plan(FS1.Extent(), FS2.Extent(), None, None, BLOCKS * BLOCK_SIZE, goldenEnd)
  }

  predicate IsApp(app: Entry) {
    app == APP || app == WIDE_APP
  }

  function BlankFlash(): (f: seq<byte>)
    ensures |f| == BLOCKS * BLOCK_SIZE && Blank(f, 0, BLOCKS * BLOCK_SIZE)
  {
    seq(BLOCKS * BLOCK_SIZE, i => 0xFF)
  }

  /** The first slot's entries. */
  function Listed(app: Entry): seq<byte> {
    var f := Programmed(BlankFlash(), EntryAddr(0, 0), EntryBytes(FS1));
    var f := Programmed(f, EntryAddr(0, 1), EntryBytes(FS2));
    Programmed(f, EntryAddr(0, 2), EntryBytes(app))
  }

  /** The first slot's header: valid, with rank 1, or 0 for the golden slot. */
  function Provisioned(rank: uint32, app: Entry): seq<byte> {
    var f := Programmed(Listed(app), InfoAddr(0, Magic), Le32(MAGIC_V1));
    var f := Programmed(f, InfoAddr(0, Rank), Le32(rank));
    Programmed(f, InfoAddr(0, Status), [STATUS_VALID, 3])
  }

  function TwoSlotDevice(): seq<byte> {
    Provisioned(1, APP)
  }

  lemma BlankTable(fwd: nat)
    requires fwd < MAX_FWD
    ensures HoldsTable(BlankFlash(), fwd, [])
  {
    hide BlankFlash, EntryAt;
  }

  lemma ListedTable(app: Entry)
    requires IsApp(app)
    ensures HoldsTable(Listed(app), 0, [FS1, FS2, app]) && SameOutside(BlankFlash(), Listed(app), EntryAddr(0, 0), 48)
  {
    hide BlankFlash, EntryAt, EntryBytes, HoldsTable;
    var f0 := BlankFlash();
    var f1 := Programmed(f0, EntryAddr(0, 0), EntryBytes(FS1));
    var f2 := Programmed(f1, EntryAddr(0, 1), EntryBytes(FS2));
    BlankTable(0);
    AppendEntry(f0, f1, 0, [], FS1);
    assert [] + [FS1] == [FS1];
    AppendEntry(f1, f2, 0, [FS1], FS2);
    assert [FS1] + [FS2] == [FS1, FS2];
    AppendEntry(f2, Listed(app), 0, [FS1, FS2], app);
    assert [FS1, FS2] + [app] == [FS1, FS2, app];
  }

  /** The provisioned slot boots; the other slots are erased. */
  lemma ProvisionedSlots(rank: uint32, app: Entry)
    requires IsApp(app)
    ensures
      var f := Provisioned(rank, app);
      && |f| == BLOCKS * BLOCK_SIZE && HoldsTable(f, 0, [FS1, FS2, app])
      && SlotAt(f, 0) == Slot(MAGIC_V1, rank, STATUS_VALID, 3)
      && Blank(f, 512, |f| - 512)
  {
    hide BlankFlash, EntryAt, HoldsTable, Listed, Word, Le32, And, IsApp;
    ListedTable(app);
    var f0, f := Listed(app), Provisioned(rank, app);
    var f1 := Programmed(f0, InfoAddr(0, Magic), Le32(MAGIC_V1));
    var f2 := Programmed(f1, InfoAddr(0, Rank), Le32(rank));
    BlankOutside(BlankFlash(), f0, EntryAddr(0, 0), 48, 0, 32);
    FieldProgrammed(f0, InfoAddr(0, Magic), MAGIC_V1);
    BlankStays(f0, f1, InfoAddr(0, Magic), 4, InfoAddr(0, Rank), 4);
    BlankStays(f0, f1, InfoAddr(0, Magic), 4, InfoAddr(0, Status), 2);
    FieldProgrammed(f1, InfoAddr(0, Rank), rank);
    BlankStays(f1, f2, InfoAddr(0, Rank), 4, InfoAddr(0, Status), 2);
    assert Cell(f2, InfoAddr(0, Status)) == 0xFF && Cell(f2, InfoAddr(0, TotalImages)) == 0xFF;
    ErasedTakesAnything(STATUS_VALID);
    ErasedTakesAnything(3);
    SameWord(f1, f2, InfoAddr(0, Magic));
    SameWord(f2, f, InfoAddr(0, Magic));
    SameWord(f2, f, InfoAddr(0, Rank));
    TableSame(f0, f, 0, [FS1, FS2, app]);
    BlankOutside(BlankFlash(), f0, EntryAddr(0, 0), 48, 512, |f| - 512);
    BlankOutside(f0, f, 0, 32, 512, |f| - 512);
  }

  lemma BlankOutside(f: seq<byte>, g: seq<byte>, a: nat, n: nat, start: nat, size: nat)
    requires Blank(f, start, size) && SameOutside(f, g, a, n) && (a + n <= start || start + size <= a)
    ensures Blank(g, start, size)
  {
    BlankStays(f, g, a, n, start, size);
  }

  lemma SamplePlanOk()
    ensures PlanOk(SamplePlan(0), TwoSlots) && Reserved(SamplePlan(0)) == 5 * BLOCK_SIZE
    ensures Area(SamplePlan(0), TwoSlots, 0) == Bounds(5 * BLOCK_SIZE, 15 * BLOCK_SIZE)
    ensures PlanOk(SamplePlan(6 * BLOCK_SIZE), GoldenPlusTwo)
    ensures Area(SamplePlan(6 * BLOCK_SIZE), GoldenPlusTwo, 0) == Bounds(5 * BLOCK_SIZE, 6 * BLOCK_SIZE)
  {
  }

  lemma OnlyFirstSlotValid(rank: uint32, app: Entry)
    requires IsApp(app)
    ensures
      var f := Provisioned(rank, app);
      SlotAt(f, 0).status == STATUS_VALID && SlotAt(f, 1).status == SlotAt(f, 2).status == 0xFF && TableOf(f, 0) == [FS1, FS2, app]
  {
    hide Provisioned, EntryAt, HoldsTable, Word, IsApp;
    var f := Provisioned(rank, app);
    ProvisionedSlots(rank, app);
    TableOfHeld(f, 0, [FS1, FS2, app]);
    StatusOf(f, 1);
    StatusOf(f, 2);
    assert Cell(f, InfoAddr(1, Status)) == 0xFF && Cell(f, InfoAddr(2, Status)) == 0xFF;
  }

  lemma TableFitsPlan(p: Plan, area: Bounds)
    requires p == SamplePlan(p.goldenEnd) && area.Holds(APP.Extent())
    ensures TableFits(p, area, [FS1, FS2, APP]) && Lists([FS1, FS2, APP], FS1_IMG_ID)
  {
    hide IndexIn;
    var table := [FS1, FS2, APP];
    NotListed(APP);
    assert forall k :: 0 <= k < 3 ==> EntryFits(p, area, table[k]);
  }

  /** The provisioned flash has the layout the histories start from... */
  lemma SampleLayout()
    ensures Layout(SamplePlan(0), TwoSlots, TwoSlotDevice(), 0)
  {
    hide Provisioned, EntryAt, HoldsTable, PlanOk, Reserved, Area, SlotAt, TableFits;
    ProvisionedSlots(1, APP);
    OnlyFirstSlotValid(1, APP);
    SamplePlanOk();
    TableFitsPlan(SamplePlan(0), Area(SamplePlan(0), TwoSlots, 0));
  }

  /** ... with a golden slot as well... */
  lemma GoldenLayout()
    ensures Layout(SamplePlan(6 * BLOCK_SIZE), GoldenPlusTwo, Provisioned(RANK_GOLDEN, APP), 0)
  {
    hide Provisioned, EntryAt, HoldsTable, PlanOk, Reserved, Area, SlotAt, TableFits, ImageSetEnd;
    var p := SamplePlan(6 * BLOCK_SIZE);
    ProvisionedSlots(RANK_GOLDEN, APP);
    OnlyFirstSlotValid(RANK_GOLDEN, APP);
    SamplePlanOk();
    TableFitsPlan(p, Area(p, GoldenPlusTwo, 0));
    SampleEnd(RANK_GOLDEN, APP);
  }

  /** ... and the file systems that histories preserve. */
  lemma SampleFileSystems()
    ensures FsInv(SamplePlan(0), TwoSlots, Device(TwoSlotDevice(), 0, BootCurrent, MAX_HANDLES))
    ensures FsInv(SamplePlan(6 * BLOCK_SIZE), GoldenPlusTwo, Device(Provisioned(RANK_GOLDEN, APP), 0, BootGolden, MAX_HANDLES))
  {
    hide Provisioned, Layout, Find, SlotAt, Twins;
    SampleLayout();
    GoldenLayout();
    SampleFinds(1, APP);
    SampleFinds(RANK_GOLDEN, APP);
    OnlyFirstSlotValid(1, APP);
    OnlyFirstSlotValid(RANK_GOLDEN, APP);
    ProvisionedSlots(RANK_GOLDEN, APP);
  }

  lemma NotListed(app: Entry)
    requires IsApp(app)
    ensures
      var table := [FS1, FS2, app];
      && IndexIn(table, FS1_IMG_ID) == 0 && IndexIn(table, FS2_IMG_ID) == 1
      && IndexIn(table, RAMDUMP_IMG_ID) == 3 && IndexIn(table, USERDATA_IMG_ID) == 3
  {
    var table := [FS1, FS2, app];
    var rest := [FS2, app];
    assert table[1..] == rest && rest[1..] == [app] && [app][1..] == [];
    assert IndexIn([app], RAMDUMP_IMG_ID) == 1 && IndexIn([app], USERDATA_IMG_ID) == 1;
    assert IndexIn(rest, RAMDUMP_IMG_ID) == 2 && IndexIn(rest, USERDATA_IMG_ID) == 2;
  }

  // The session's start

  function Zeros(n: nat): (s: seq<byte>)
    ensures |s| == n && forall i :: 0 <= i < n ==> s[i] == 0
  {
    seq(n, i => 0)
  }

  function SampleEnv(): Env {
    Env((s: seq<byte>) => Zeros(HASH_LEN), TwoSlots, 0, Some(Extent(0, 0)))
  }

  lemma SampleFinds(rank: uint32, app: Entry)
    requires IsApp(app)
    ensures
      var f := Provisioned(rank, app);
      && Find(f, 0, FS1_IMG_ID) == Some(FS1) && Find(f, 0, FS2_IMG_ID) == Some(FS2)
      && Find(f, 0, RAMDUMP_IMG_ID) == None && Find(f, 0, USERDATA_IMG_ID) == None
  {
    hide Provisioned, HoldsTable, Find, IndexIn, IsApp;
    ProvisionedSlots(rank, app);
    NotListed(app);
    FindInTable(Provisioned(rank, app), 0, [FS1, FS2, app], FS1_IMG_ID);
    FindInTable(Provisioned(rank, app), 0, [FS1, FS2, app], FS2_IMG_ID);
    FindInTable(Provisioned(rank, app), 0, [FS1, FS2, app], RAMDUMP_IMG_ID);
    FindInTable(Provisioned(rank, app), 0, [FS1, FS2, app], USERDATA_IMG_ID);
  }

  /** Where the images of the first slot end, for the whole walk and for one that stops at the first entry. */
  lemma SampleEnd(rank: uint32, app: Entry)
    requires IsApp(app)
    ensures ImageSetEnd(Provisioned(rank, app), 0) == Some(app.End()) && EndWith(EntryAt(Provisioned(rank, app), 0, 0), 0) == 4 * BLOCK_SIZE
    ensures forall mode :: ScanSlots(mode, Slots(Provisioned(rank, app))).current == 0
  {
    hide Provisioned, HoldsTable, WalkEnd, Word, EntryAt, SlotAt;
    var f, table := Provisioned(rank, app), [FS1, FS2, app];
    ProvisionedSlots(rank, app);
    OnlyFirstSlotValid(rank, app);
    FirstEntry(f, table);
    ImageSetEndIsMaximum(f, 0, table);
    assert table[2] == app && U32(FS1.End()) < U32(FS2.End()) < U32(app.End()) == app.End();
    forall mode
      ensures ScanSlots(mode, Slots(f)).current == 0
    {
      assert !Slots(f)[1].Bootable() && !Slots(f)[2].Bootable();
    }
  }

  lemma FirstEntry(f: seq<byte>, table: seq<Entry>)
    requires HoldsTable(f, 0, table) && table != []
    ensures EntryAt(f, 0, 0) == table[0]
  {
  }

  lemma SampleReserved(rank: uint32, app: Entry)
    requires IsApp(app)
    ensures ReservedEnd(Provisioned(rank, app), 0) == 5 * BLOCK_SIZE && |Provisioned(rank, app)| == BLOCKS * BLOCK_SIZE
  {
    hide Provisioned, HoldsTable, Find, IsApp;
    ProvisionedSlots(rank, app);
    SampleFinds(rank, app);
  }

  /** The upgrade goes to the second slot, into the upper half. */
  lemma SampleSelection()
    ensures Select(TwoSlots, TwoSlotDevice(), 0) == Some(Selection(1, Extent(10 * BLOCK_SIZE, 5 * BLOCK_SIZE)))
  {
    hide Provisioned, ReservedEnd, ImageSetEnd, ScanSlots, Slots, EntryAt, EndWith;
    SampleEnd(1, APP);
    SampleReserved(1, APP);
  }

  /** With an odd number of blocks behind the reserved partitions and the first slot's images in the last one, the size of the
      selected region wraps around: the region reaches far beyond the flash. */
  lemma LastBlockWraps()
    ensures
      var f := Provisioned(1, WIDE_APP);
      && Select(TwoSlots, f, 0) == Some(Selection(1, Extent(|f|, TWO_TO_THE_32 - BLOCK_SIZE)))
      && ImageSetEnd(f, 0) == Some(|f|) && |f| > 5 * BLOCK_SIZE + 2 * HalfRegion(|f|, 5 * BLOCK_SIZE)
  {
    hide Provisioned, ReservedEnd, ImageSetEnd, ScanSlots, Slots, EntryAt, EndWith;
    SampleEnd(1, WIDE_APP);
    SampleReserved(1, WIDE_APP);
  }

  /** A golden device on which the selection depends on the free handles: with none it is refused, with one the region starts
      below the end of the golden images and covers the application, with more it starts behind them. */
  lemma OneHandleReachesGolden(free: nat)
    ensures
      var sel := SelectWith(GoldenPlusTwo, Provisioned(RANK_GOLDEN, APP), 0, free);
      && (sel.Some? <==> free >= 1)
      && (sel.Some? ==> (sel.value.region.start < 6 * BLOCK_SIZE <==> free == 1))
      && (sel.Some? ==> (Disjoint(sel.value.region, APP.Extent()) <==> free != 1))
  {
    hide Provisioned, ReservedEnd, ImageSetEnd, ScanSlots, Slots, EntryAt, EndWith;
    SampleEnd(RANK_GOLDEN, APP);
    SampleReserved(RANK_GOLDEN, APP);
  }

  function SampleGeometry(): Geometry {
    GeometryOf(SampleEnv(), TwoSlotDevice(), Selection(1, Extent(10 * BLOCK_SIZE, 5 * BLOCK_SIZE)))
  }

  /** The session gets past its start. */
  lemma SampleBegins()
    ensures
      var s := Begin(SampleEnv(), TwoSlotDevice());
      && s.phase == Config && s.cfg == [] && ConfigInv(SampleEnv(), SampleGeometry(), s)
      && s.space == 5 * BLOCK_SIZE && s.hidden == 1
  {
    hide Provisioned, HoldsTable, Find, Select, Begin, ConfigInv, Ready;
    var env, g, f := SampleEnv(), SampleGeometry(), TwoSlotDevice();
    SampleLayout();
    LayoutReady(SamplePlan(0), env, f);
    SampleSelection();
    SampleFinds(1, APP);
    BeginEstablishes(env, f);
    SampleGoesOn();
    ConfigInvFields(env, g, Begin(env, f));
  }

  lemma SampleGoesOn()
    ensures Begin(SampleEnv(), TwoSlotDevice()).phase == Config
  {
    hide Provisioned, HoldsTable, Find, Select, Begin, BeginSecondFs, Erased1, Erased, Ready, Starting;
    var env, g, f := SampleEnv(), SampleGeometry(), TwoSlotDevice();
    SampleLayout();
    LayoutReady(SamplePlan(0), env, f);
    SampleSelection();
    SampleFinds(1, APP);
    ProvisionedSlots(1, APP);
    GeometryFits(env, f, g);
    var sel := Selection(1, Extent(10 * BLOCK_SIZE, 5 * BLOCK_SIZE));
    var s0 := Fresh(f).(trial := sel.fwd, cursor := sel.region.start, space := sel.region.size);
    BeginCases(env, f, s0);
    SampleStarting(env, g, s0);
    ErasedDescriptor(env, g, s0);
    SampleStarts(env, g, s0.WithFlash(Erased(f, BLOCK_SIZE, BLOCK_SIZE)));
  }

  lemma SampleStarting(env: Env, g: Geometry, s: State)
    requires GeometryOk(g, env.active) && Located(env, g)
    requires s == Fresh(g.base).(trial := g.trial, cursor := g.region.start, space := g.region.size)
    ensures Starting(env, g, s)
  {
    hide Find, Disjoint;
  }

  lemma GeometryFits(env: Env, f: seq<byte>, g: Geometry)
    requires Ready(env, f) && Select(env.mode, f, env.active).Some? && Select(env.mode, f, env.active).value.fwd != env.active
    requires g == GeometryOf(env, f, Select(env.mode, f, env.active).value)
    ensures GeometryOk(g, env.active) && Located(env, g) && g.base == f
  {
    hide Find, Select, Disjoint;
  }

  lemma ConfigInvFields(env: Env, g: Geometry, s: State)
    requires ConfigInv(env, g, s)
    ensures s.phase == Config && s.space == g.region.size && s.hidden == |HiddenTable(env, g.base)|
  {
    hide HoldsTable, HiddenTable, Find;
  }

  /** With both file systems and a free entry, the start goes through. */
  lemma SampleStarts(env: Env, g: Geometry, s: State)
    requires Erased1(env, g, s) && s.table == [] && env.active == 0
    requires Find(g.base, 0, FS1_IMG_ID) == Some(FS1) && Find(g.base, 0, FS2_IMG_ID) == Some(FS2)
    requires Find(g.base, 0, RAMDUMP_IMG_ID) == None && Find(g.base, 0, USERDATA_IMG_ID) == None
    ensures BeginSecondFs(env, s).phase == Config
  {
    hide HoldsTable, Find, Starting, BeginSecondFs, FindIndex, Created, Erased;
    SecondFsFacts(env, g, s);
    var t := s.WithFlash(Erased(s.flash, FS2.start, FS2.size));
    StartingFields(env, g, t);
    SameInBase(env, g, t);
    FirstUnused(t.flash, t.trial, t.table);
    var e := FS1.(id := FS2_IMG_ID);
    HiddenAdded(env, g, t, e);
    var u := AddEntry(t, e).(hidden := t.hidden + 1);
    SameInBase(env, g, u);
    StartingFields(env, g, u);
  }

  lemma SameInBase(env: Env, g: Geometry, s: State)
    requires Erased1(env, g, s)
    ensures forall id: uint32 :: Find(s.flash, env.active, id) == Find(g.base, env.active, id)
  {
    hide HoldsTable, Find;
    forall id: uint32
      ensures Find(s.flash, env.active, id) == Find(g.base, env.active, id)
    {
      ActiveFindsSame(g, env.active, s.flash, id);
    }
  }

  // An upload

  /** An all-in-one configuration of one application image of `len` bytes. */
  function SampleConfig(len: byte): seq<byte> {
    ConfigBytes(SampleHead(), [SampleImage(len)], Zeros(HASH_LEN))
  }

  function SampleHead(): ConfigHead {
    ConfigHead(MAGIC_V1, 5, 2, 233, 1)
  }

  function SampleImage(len: byte): (n: NamedHeader)
    ensures n.Sized()
  {
    NamedHeader(Header(6, APP_IMG_ID, 7, BLOCK_SIZE, len, 3, Zeros(HASH_LEN)), Zeros(128))
  }

  lemma SampleConfigReads(len: byte)
    ensures
      var c := SampleConfig(len);
      && ConfigMagic(c) == MAGIC_V1 && ConfigFormat(c) == 2 && ConfigLength(c) == 233 == |c| && ConfigCount(c) == 1
      && HeadOk(c) && HashOffset(c) == 201 && Slice(c, 201, HASH_LEN) == Zeros(HASH_LEN)
      && RawHeader(c, 0) == Header(6, APP_IMG_ID, 7, BLOCK_SIZE, len, 3, Zeros(HASH_LEN))
  {
    hide Word, RawHeader, HeadBytes, HeadersBytes, Slice, ConfigMagic, ConfigFormat, ConfigLength, ConfigCount;
    ConfigReadsBack(SampleHead(), [SampleImage(len)], Zeros(HASH_LEN));
  }

  /** The device accepts the upload, so the assumptions about uploads can all be met at once. */
  lemma SampleUploadIsValid(payload: seq<byte>)
    requires |payload| < 0x100
    ensures ValidUpload(SampleEnv(), SampleGeometry(), Begin(SampleEnv(), TwoSlotDevice()), SampleConfig(|payload|), [payload])
  {
    hide Provisioned, Begin, ConfigInv, SampleConfig, Select, Find, Word, Slice, RawHeader, HashOffset, HeadOk, ConfigLength,
      ConfigFormat, ConfigCount;
    var len: byte := |payload|;
    SampleBegins();
    SampleFinds(1, APP);
    SampleConfigReads(len);
    var c, s := SampleConfig(len), Begin(SampleEnv(), TwoSlotDevice());
    var hs := Headers(c);
    assert hs == [RawHeader(c, 0)];
    SampleSums(hs);
    assert Rest(hs, 0) == BLOCK_SIZE;
    assert HasImage(hs, APP_IMG_ID) by { assert hs[0].id == APP_IMG_ID; }
    assert CheckImages(SampleEnv(), c, s.space) == Ok;
  }

  lemma SampleSums(hs: seq<Header>)
    requires |hs| == 1 && hs[0].id == APP_IMG_ID && hs[0].disk == BLOCK_SIZE && hs[0].length < 0x100
    ensures DiskSum(hs) == BLOCK_SIZE && LengthSum(hs) == hs[0].length && SblDisk(hs) == 0 && Rest(hs, 0) == BLOCK_SIZE
    ensures !HasImage(hs, SBL_IMG_ID) && !HasImage(hs, FS1_IMG_ID)
  {
    assert hs[1..] == [] && hs[..0] == [];
    assert DiskSum(hs[1..]) == 0 && LengthSum(hs[1..]) == 0 && SblDisk(hs[..0]) == 0;
  }

  /** The device once the upload has come in. */
  function Uploaded(payload: seq<byte>): State
    requires |payload| < 0x100
  {
    Consume(SampleEnv(), Begin(SampleEnv(), TwoSlotDevice()), SampleConfig(|payload|) + Concat([payload]))
  }

  /** A payload of at least one byte is installed. */
  lemma SampleUploadInstalls(payload: seq<byte>)
    requires 0 < |payload| < 0x100
    ensures
      var t := Uploaded(payload);
      && t.phase == Finished && t.payloads == [payload] && Installed(SampleEnv(), SampleGeometry(), t)
      && t.cfg == SampleConfig(|payload|) && t.hdrs == Headers(t.cfg)
  {
    hide Provisioned, Begin, SampleConfig, Consume, Installed, ValidUpload;
    SampleUploadIsValid(payload);
    UploadCompletesExactlyWhen(SampleEnv(), TwoSlotDevice(), SampleGeometry(), SampleConfig(|payload|), [payload]);
  }

  /** An empty one, although just as valid, leaves the session waiting for bytes that will not come. */
  lemma EmptyUploadNeverEnds()
    ensures Uploaded([]).phase == Images
  {
    hide Provisioned, Begin, SampleConfig, Consume, Installed, ValidUpload;
    SampleUploadIsValid([]);
    UploadCompletesExactlyWhen(SampleEnv(), TwoSlotDevice(), SampleGeometry(), SampleConfig(0), [[]]);
  }

  // A dead end

  lemma SampleTargets()
    ensures Targets(SampleEnv(), TwoSlotDevice(), SampleGeometry())
  {
    hide Provisioned, Find, Select;
    SampleSelection();
  }

  lemma UploadedFacts(payload: seq<byte>)
    requires 0 < |payload| < 0x100
    ensures
      var t := Uploaded(payload);
      && t.phase == Finished && Installed(SampleEnv(), SampleGeometry(), t) && Layout(SamplePlan(0), TwoSlots, t.flash, 0)
      && !HasImage(t.hdrs, FS1_IMG_ID) && ConfigMagic(t.cfg) == MAGIC_V1
  {
    hide TwoSlotDevice, SampleConfig, Uploaded, Installed, Layout, Targets, HasImage, ConfigMagic, Headers, SampleGeometry, SamplePlan;
    var env, g, t := SampleEnv(), SampleGeometry(), Uploaded(payload);
    SampleUploadInstalls(payload);
    SampleLayout();
    SampleTargets();
    CompletedKeeps(SamplePlan(0), env, TwoSlotDevice(), t);
    SampleHeaders(|payload|);
  }

  lemma SampleHeaders(len: byte)
    ensures !HasImage(Headers(SampleConfig(len)), FS1_IMG_ID) && ConfigMagic(SampleConfig(len)) == MAGIC_V1
  {
    hide SampleConfig, HasImage, RawHeader, ConfigMagic, ConfigCount, ConfigFormat, ConfigLength, HeadOk, HashOffset, Slice;
    SampleConfigReads(len);
    OneHeader(SampleConfig(len));
    SampleSums(Headers(SampleConfig(len)));
  }

  lemma OneHeader(cfg: seq<byte>)
    requires ConfigCount(cfg) == 1 && RawHeader(cfg, 0).id != SBL_IMG_ID && RawHeader(cfg, 0).disk == BLOCK_SIZE
    ensures Headers(cfg) == [RawHeader(cfg, 0)]
  {
    hide RawHeader;
  }

  /** The upgraded slot boots and is accepted; the other one can be selected for the next upgrade, but as the configuration
      listed no first file system, no session ever gets past its start again. */
  lemma NoUpgradeAfterThat(payload: seq<byte>)
    requires 0 < |payload| < 0x100
    ensures
      var t := Uploaded(payload);
      && SlotAt(t.flash, 1).Bootable() && CanAccept(TwoSlots, BootTrial, t.flash)
      && var f, later := Accepted(TwoSlots, t.flash), SampleEnv().(active := 1);
         && SlotAt(f, 1).Bootable() && !SlotAt(f, 0).Bootable()
         && Select(TwoSlots, f, 1).Some? && Select(TwoSlots, f, 1).value.fwd == 0
         && Begin(later, f).phase.Failed?
  {
    hide Provisioned, Begin, Uploaded, Installed, Layout, Targets, HasImage, ConfigMagic, Select, Accepted, Promoted, SlotAt;
    var p, env, g, t := SamplePlan(0), SampleEnv(), SampleGeometry(), Uploaded(payload);
    var f, later := Accepted(TwoSlots, t.flash), env.(active := 1);
    UploadedFacts(payload);
    UploadedSlots(payload);
    RebootKeeps(p, TwoSlots, t.flash, 0, 1);
    ActiveInRange(p, TwoSlots, t.flash, 1);
    AcceptedSlots(t.flash);
    AcceptedLayout(p, t.flash);
    AcceptedTarget(f);
    SampleTargets();
    SampleLayout();
    InstalledUpgradesExactlyWhen(p, env, TwoSlotDevice(), g, t, later, f);
  }

  /** The slots once the upload is installed. */
  lemma UploadedSlots(payload: seq<byte>)
    requires 0 < |payload| < 0x100
    ensures
      var t := Uploaded(payload);
      && SlotAt(t.flash, 0) == Slot(MAGIC_V1, 1, STATUS_VALID, 3)
      && SlotAt(t.flash, 1).Bootable() && SlotAt(t.flash, 1).rank == RANK_TRIAL
  {
    hide Provisioned, Uploaded, Installed, Layout, Targets, HasImage, Select, ConfigMagic, SlotAt, Frame;
    var g, t := SampleGeometry(), Uploaded(payload);
    UploadedFacts(payload);
    SampleTargets();
    SampleLayout();
    ProvisionedSlots(1, APP);
    InstalledSlot(SampleEnv(), g, t);
    OtherDescriptorsUntouched(SamplePlan(0), SampleEnv(), TwoSlotDevice(), g, t.flash, 0);
  }

  lemma InstalledSlot(env: Env, g: Geometry, s: State)
    requires Installed(env, g, s)
    ensures Frame(g, s.flash) && SlotAt(s.flash, g.trial).magic == ConfigMagic(s.cfg) && SlotAt(s.flash, g.trial).rank == RANK_TRIAL
    ensures SlotAt(s.flash, g.trial).status == STATUS_VALID && 0 < SlotAt(s.flash, g.trial).total != 0xFF
  {
    hide Find, HoldsTable, Ordered, AllDone, FsCopied, SaneHeaders, ConfigCount, ConfigMagic, GeometryOk, Frame, HiddenTable,
      SlotAt, Located, HasFileSystems, Counts;
    InstalledTableIsComplete(env, g, s);
    InstalledTableNotEmpty(env, g, s) by { InstalledLocated(env, g, s); }
    ShortTable(s.flash, s.trial, s.table);
  }

  lemma InstalledLocated(env: Env, g: Geometry, s: State)
    requires Installed(env, g, s)
    ensures Located(env, g)
  {
    hide Find, HoldsTable, Ordered, AllDone, FsCopied, SaneHeaders, ConfigCount, ConfigMagic, TotalImagesByte, GeometryOk, Frame, HiddenTable,
      SlotAt, Located, HasFileSystems, Counts;
  }

  lemma ShortTable(f: seq<byte>, fwd: nat, table: seq<Entry>)
    requires HoldsTable(f, fwd, table)
    ensures |table| <= MAX_IMAGE_ENTRIES
  {
    hide EntryAt;
  }

  /** What accepting the second slot does to the headers. */
  lemma AcceptedSlots(f: seq<byte>)
    requires MAX_FWD * BLOCK_SIZE <= |f| && SlotAt(f, 0) == Slot(MAGIC_V1, 1, STATUS_VALID, 3)
    requires SlotAt(f, 1).Bootable() && SlotAt(f, 1).rank == RANK_TRIAL
    ensures CanAccept(TwoSlots, BootTrial, f)
    ensures
      var f' := Accepted(TwoSlots, f);
      SlotAt(f', 1) == SlotAt(f, 1).(rank := 2) && SlotAt(f', 0) == SlotAt(f, 0).(status := STATUS_INVALID)
  {
    hide SlotAt, Accepted;
    AcceptedIsAccept(TwoSlots, f, 1, BootTrial, None);
    var s := SystemOf(TwoSlots, f, 1, BootTrial, None);
    var s' := SystemOf(TwoSlots, Accepted(TwoSlots, f), 1, BootTrial, None);
    assert s.slots[0] == SlotAt(f, 0) && s.slots[1] == SlotAt(f, 1);
    assert s'.slots[0] == SlotAt(Accepted(TwoSlots, f), 0) && s'.slots[1] == SlotAt(Accepted(TwoSlots, f), 1);
  }

  lemma AcceptedLayout(p: Plan, f: seq<byte>)
    requires Layout(p, TwoSlots, f, 1) && CanAccept(TwoSlots, BootTrial, f)
    ensures Layout(p, TwoSlots, Accepted(TwoSlots, f), 1) && SameEntries(f, Accepted(TwoSlots, f), 1)
  {
    hide Layout, ScanSlots, SlotAt, Word, Le32, And;
    ScanInRange(TwoSlots, f);
    PromotedKeeps(p, TwoSlots, f, 1);
    RetiredKeeps(p, TwoSlots, Promoted(TwoSlots, f), 1, ScanSlots(TwoSlots, Slots(f)).current);
  }

  lemma AcceptedTarget(f: seq<byte>)
    requires SlotAt(f, 1).Bootable() && SlotAt(f, 1).rank == 2 && !SlotAt(f, 0).Bootable()
    ensures Select(TwoSlots, f, 1).Some? && Select(TwoSlots, f, 1).value.fwd == 0
  {
    hide SlotAt, ReservedEnd, ImageSetEnd;
    assert Slots(f)[0] == SlotAt(f, 0) && Slots(f)[1] == SlotAt(f, 1);
  }
}
