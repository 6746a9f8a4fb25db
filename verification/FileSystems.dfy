/** File systems over any history of upgrades, and which slots can be upgraded from. */
module FileSystems {
  import opened Bytes
  import opened NorFlash
  import opened Descriptor
  import opened SlotSelection
  import opened UpgradeMem
  import opened UpgradeSpec
  import opened SessionInvariant
  import opened ImageInvariant
  import opened Completion
  import opened FlashLayout
  import opened LayoutHistory
  import opened DeviceLife
  import opened UpgradeSession

  /** The bytes of a slot's first file system. */
  function FsContent(f: seq<byte>, slot: nat): seq<byte> {
    match Find(f, slot, FS1_IMG_ID)
    case None => []
    case Some(e) => Contents(f, e.Extent())
  }

  function Contents(f: seq<byte>, e: Extent): seq<byte> {
    seq<byte>(e.size, i requires 0 <= i => Cell(f, e.start + i))
  }

  /** An upgrade whose configuration has a first file system swaps the two areas and carries the contents over. */
  lemma FileSystemCarriedOver(p: Plan, env: Env, f: seq<byte>, g: Geometry, s: State)
    requires Layout(p, env.mode, f, env.active) && p.fsA.size == p.fsB.size
    requires Targets(env, f, g) && Installed(env, g, s) && HasImage(s.hdrs, FS1_IMG_ID)
    ensures ExtentOption(Find(s.flash, g.trial, FS1_IMG_ID)) == ExtentOption(Find(f, env.active, FS2_IMG_ID)) == Some(g.fs2)
    ensures ExtentOption(Find(s.flash, g.trial, FS2_IMG_ID)) == ExtentOption(Find(f, env.active, FS1_IMG_ID)) == Some(g.fs1)
    ensures FsContent(s.flash, g.trial) == FsContent(f, env.active)
    ensures ReservedEnd(s.flash, g.trial) == ReservedEnd(f, env.active) == Reserved(p)
  {
    hide Layout, Find, SlotFits, Select, HiddenTable, Area, Reserved, ReservedEnd, IndexIn, TableFits, HoldsTable, Installed,
      PlanOk, Contents, TableOf;
    ActiveInRange(p, env.mode, f, env.active);
    ActiveFits(p, env.mode, f, env.active);
    ReservedFound(p, env.mode, f, env.active);
    InstalledTableNotEmpty(env, g, s);
    NewTableFits(p, env, f, g, s);
    LayoutReadyTrial(p, env, f, g);
    FirstFsListed(env, g, s);
    FindInTable(s.flash, g.trial, s.table, FS1_IMG_ID);
    FindInTable(s.flash, g.trial, s.table, FS2_IMG_ID);
    FirstIndex(s.table, FS2_IMG_ID);
    TableOfHeld(s.flash, g.trial, s.table);
    FitsByTable(p, env.mode, s.flash, g.trial);
    ReservedEndPlaced(p, env.mode, s.flash, g.trial);
    ReservedEndPlaced(p, env.mode, f, env.active);
    CopiedIs(env, g, s);
  }

  lemma FirstFsListed(env: Env, g: Geometry, s: State)
    requires Installed(env, g, s) && HasImage(s.hdrs, FS1_IMG_ID)
    ensures Lists(s.table, FS1_IMG_ID)
  {
    hide HiddenTable, Find, SlotAt, Ordered, Frame, FsCopied, GeometryOk, EntryAt, Stored, ConfigCount, HoldsTable, Lists,
      ConfigChecked, SblDisk;
    var k :| 0 <= k < |s.hdrs| && s.hdrs[k].id == FS1_IMG_ID;
    assert Done(env, g, s.hdrs[k], s.table[s.hidden + k], s.payloads[k], s.cursor, s.flash);
    ListsExactly(s.table, FS1_IMG_ID);
    assert s.table[s.hidden + k].id == FS1_IMG_ID;
  }

  lemma CopiedIs(env: Env, g: Geometry, s: State)
    requires Installed(env, g, s) && g.fs1.size == g.fs2.size
    ensures Contents(s.flash, g.fs2) == Contents(g.base, g.fs1)
  {
    hide HiddenTable, Find, SlotAt, Ordered, Frame, GeometryOk, HoldsTable, Counts, AllDone, SaneHeaders, ConfigCount;
    forall i | 0 <= i < g.fs1.size
      ensures Contents(s.flash, g.fs2)[i] == Contents(g.base, g.fs1)[i]
    {
      assert g.fs2.start <= g.fs2.start + i < g.fs2.start + g.fs1.size;
    }
  }

  // Histories

  /** Two slots share the pair of areas, the one's first file system being the other's second, and hold the same contents. */
  ghost predicate Twins(f: seq<byte>, a: nat, b: nat) {
    && Find(f, a, FS1_IMG_ID).Some? && Find(f, b, FS1_IMG_ID).Some?
    && ExtentOption(Find(f, a, FS1_IMG_ID)) == ExtentOption(Find(f, b, FS2_IMG_ID))
    && ExtentOption(Find(f, a, FS2_IMG_ID)) == ExtentOption(Find(f, b, FS1_IMG_ID))
    && FsContent(f, a) == FsContent(f, b)
  }

  /** The slots upgrades go to. */
  predicate Upgradable(mode: Mode, slot: nat) {
    ScanStart(mode) <= slot < ScanStart(mode) + 2
  }

  /** Every other slot that could be booted has the same file system.  While the golden slot runs, an upgrade at most
      waits for its trial. */
  ghost predicate FsInv(p: Plan, mode: Mode, d: Device) {
    && Layout(p, mode, d.f, d.active) && p.fsA.size == p.fsB.size && Find(d.f, d.active, FS1_IMG_ID).Some?
    && (forall b :: Upgradable(mode, b) && b != d.active && SlotAt(d.f, b).Bootable() ==> Twins(d.f, d.active, b))
    && (mode == GoldenPlusTwo && d.active == 0 ==> OnGolden(d))
  }

  predicate OnGolden(d: Device) {
    && SlotAt(d.f, 0).rank == RANK_GOLDEN && d.boot != BootTrial && !SlotAt(d.f, 2).Bootable()
    && (SlotAt(d.f, 1).Bootable() ==> SlotAt(d.f, 1).rank == RANK_TRIAL)
  }

  /** Events that leave the file systems to the upgrades: configurations have a first one, software does not write to them,
      and the device does not go back to its golden slot. */
  ghost predicate CarriesFs(p: Plan, mode: Mode, d: Device, d': Device) {
    || SessionIsCutOff(mode, d, d')
    || (exists env: Env, s: State :: SessionCompletes(mode, d, d', env, s) && HasImage(s.hdrs, FS1_IMG_ID))
    || IsAccepted(mode, d, d')
    || IsRejected(mode, d, d')
    || (Reboots(mode, d, d') && (mode == GoldenPlusTwo && d'.active == 0 ==> d.active == 0))
    || (WritesData(d, d') && SameCells(d.f, d'.f, p.fsA.start, p.fsA.size) && SameCells(d.f, d'.f, p.fsB.start, p.fsB.size))
  }

  lemma CarriesFsHappens(p: Plan, mode: Mode, d: Device, d': Device)
    requires CarriesFs(p, mode, d, d')
    ensures Happens(mode, d, d')
  {
    hide SessionIsCutOff, SessionCompletes, IsAccepted, IsRejected, Reboots, WritesData;
  }

  lemma SameContents(f: seq<byte>, f': seq<byte>, e: Extent)
    requires SameCells(f, f', e.start, e.size)
    ensures Contents(f', e) == Contents(f, e)
  {
  }

  /** With its entries and the bytes of its first file system, a slot keeps both. */
  lemma SlotKeepsFs(f: seq<byte>, f': seq<byte>, slot: nat)
    requires SameEntries(f, f', slot)
    requires var e := Find(f, slot, FS1_IMG_ID); e.Some? ==> SameCells(f, f', e.value.start, e.value.size)
    ensures Find(f', slot, FS1_IMG_ID) == Find(f, slot, FS1_IMG_ID) && Find(f', slot, FS2_IMG_ID) == Find(f, slot, FS2_IMG_ID)
    ensures FsContent(f', slot) == FsContent(f, slot)
  {
    hide Find, Contents;
    SameLookup(f, f', slot, FS1_IMG_ID);
    SameLookup(f, f', slot, FS2_IMG_ID);
    if Find(f, slot, FS1_IMG_ID).Some? {
      SameContents(f, f', Find(f, slot, FS1_IMG_ID).value.Extent());
    }
  }

  /** The running slot's file system survives a session, however it ends. */
  lemma RunningFsSurvives(p: Plan, env: Env, f: seq<byte>, g: Geometry, f': seq<byte>)
    requires Layout(p, env.mode, f, env.active) && Targets(env, f, g) && Frame(g, f')
    ensures Find(f', env.active, FS1_IMG_ID) == Find(f, env.active, FS1_IMG_ID)
    ensures Find(f', env.active, FS2_IMG_ID) == Find(f, env.active, FS2_IMG_ID)
    ensures FsContent(f', env.active) == FsContent(f, env.active)
  {
    hide Layout, Find, Select, Frame;
    ActiveInRange(p, env.mode, f, env.active);
    LayoutReadyTrial(p, env, f, g);
    OtherDescriptorsUntouched(p, env, f, g, f', env.active);
    RunningDataUntouched(p, env, f, g, f');
    SlotKeepsFs(f, f', env.active);
  }

  /** Besides the running slot and the target, no slot can be booted while a session is under way. */
  lemma NoThirdSlot(p: Plan, env: Env, d: Device, g: Geometry, b: nat)
    requires FsInv(p, env.mode, d) && env.active == d.active && Targets(env, d.f, g)
    requires Upgradable(env.mode, b) && b != d.active && b != g.trial
    ensures !SlotAt(d.f, b).Bootable()
    ensures env.mode == GoldenPlusTwo && d.active == 0 ==> g.trial == 1
  {
    hide Layout, Targets, ScanSlots, Twins, SlotAt, Find;
    ActiveInRange(p, env.mode, d.f, d.active);
    LayoutReadyTrial(p, env, d.f, g);
    GoldenTarget(p, env, d, g);
  }

  lemma GoldenTarget(p: Plan, env: Env, d: Device, g: Geometry)
    requires FsInv(p, env.mode, d) && env.active == d.active && Targets(env, d.f, g)
    ensures env.mode == GoldenPlusTwo ==> 1 <= g.trial < 3
    ensures env.mode == GoldenPlusTwo && d.active == 0 ==> g.trial == 1
  {
    hide Layout, Targets, ScanSlots, Twins, SlotAt, Find;
    LayoutReadyTrial(p, env, d.f, g);
    TargetOfSelection(env, d.f, g);
    CurrentHasHighestRank(env.mode, Slots(d.f));
  }

  /** A session cut off: the running slot is the only one left to boot. */
  lemma CutOffCarries(p: Plan, mode: Mode, d: Device, d': Device)
    requires FsInv(p, mode, d) && SessionIsCutOff(mode, d, d')
    ensures FsInv(p, mode, d') && SameFs(d, d')
  {
    hide Layout, Targets, Frame, Twins, SlotAt, Find, FsContent;
    var env: Env :| env.mode == mode && env.active == d.active && CutOff(env, d.f, d'.f);
    var g: Geometry :| Targets(env, d.f, g) && Frame(g, d'.f) && Cell(d'.f, InfoAddr(g.trial, Status)) != STATUS_VALID;
    CutOffKeeps(p, env, d.f, d'.f);
    RunningFsSurvives(p, env, d.f, g, d'.f);
    SlotsOtherwiseSame(p, env, d.f, g, d'.f);
    OthersDoNotBoot(p, env, d, g, d'.f);
    StatusOf(d'.f, g.trial);
    GoldenTarget(p, env, d, g);
  }

  lemma OthersDoNotBoot(p: Plan, env: Env, d: Device, g: Geometry, f': seq<byte>)
    requires FsInv(p, env.mode, d) && env.active == d.active && Targets(env, d.f, g)
    requires Slots(f') == Slots(d.f)[g.trial := SlotAt(f', g.trial)]
    ensures forall b :: Upgradable(env.mode, b) && b != d.active && b != g.trial ==> !SlotAt(f', b).Bootable()
  {
    hide FsInv, Targets, SlotAt;
    forall b: nat | Upgradable(env.mode, b) && b != d.active && b != g.trial
      ensures !SlotAt(f', b).Bootable()
    {
      NoThirdSlot(p, env, d, g, b);
      assert Slots(f')[b] == Slots(d.f)[b];
    }
  }

  /** The running slot has the same file system in the same places. */
  ghost predicate SameFs(d: Device, d': Device) {
    && d'.active == d.active && FsContent(d'.f, d'.active) == FsContent(d.f, d.active)
    && Find(d'.f, d.active, FS1_IMG_ID) == Find(d.f, d.active, FS1_IMG_ID)
    && Find(d'.f, d.active, FS2_IMG_ID) == Find(d.f, d.active, FS2_IMG_ID)
  }

  /** A session carried through: the new slot is a twin of the running one. */
  lemma CompletedCarries(p: Plan, mode: Mode, d: Device, d': Device, env: Env, s: State)
    requires FsInv(p, mode, d) && SessionCompletes(mode, d, d', env, s) && HasImage(s.hdrs, FS1_IMG_ID)
    ensures FsInv(p, mode, d') && SameFs(d, d')
  {
    hide Layout, Targets, Frame, Twins, SlotAt, Find, FsContent, Installed, HasImage;
    var g: Geometry :| Targets(env, d.f, g) && Installed(env, g, s);
    InstalledInFrame(env, g, s);
    CompletedKeeps(p, env, d.f, s);
    RunningFsSurvives(p, env, d.f, g, s.flash);
    SlotsOtherwiseSame(p, env, d.f, g, s.flash);
    OthersDoNotBoot(p, env, d, g, s.flash);
    FileSystemCarriedOver(p, env, d.f, g, s);
    assert Twins(s.flash, d.active, g.trial) by { TwinsFrom(s.flash, d.active, g.trial); }
    GoldenTarget(p, env, d, g);
  }

  lemma InstalledInFrame(env: Env, g: Geometry, s: State)
    requires Installed(env, g, s)
    ensures Frame(g, s.flash) && SlotAt(s.flash, g.trial).rank == RANK_TRIAL
  {
    hide Find, HoldsTable, Ordered, AllDone, FsCopied, SaneHeaders, ConfigCount, ConfigMagic, TotalImagesByte, GeometryOk, Frame, HiddenTable,
      SlotAt, Located, HasFileSystems, Counts;
  }

  lemma TwinsFrom(f: seq<byte>, a: nat, b: nat)
    requires Find(f, a, FS1_IMG_ID).Some? && FsContent(f, a) == FsContent(f, b)
    requires ExtentOption(Find(f, b, FS1_IMG_ID)) == ExtentOption(Find(f, a, FS2_IMG_ID)) != None
    requires ExtentOption(Find(f, b, FS2_IMG_ID)) == ExtentOption(Find(f, a, FS1_IMG_ID))
    ensures Twins(f, a, b)
  {
    hide Find, FsContent;
  }

  /** Twins in `f` are twins in `f'` if both slots keep their file system. */
  lemma TwinsStay(f: seq<byte>, f': seq<byte>, a: nat, b: nat)
    requires Twins(f, a, b)
    requires forall x :: x == a || x == b ==>
               && Find(f', x, FS1_IMG_ID) == Find(f, x, FS1_IMG_ID) && Find(f', x, FS2_IMG_ID) == Find(f, x, FS2_IMG_ID)
               && FsContent(f', x) == FsContent(f, x)
    ensures Twins(f', a, b)
  {
    hide Find, FsContent;
  }

  /** Whatever keeps the entries and the file systems of all slots, and makes none bootable, keeps everything. */
  lemma QuietEventCarries(p: Plan, mode: Mode, d: Device, d': Device)
    requires FsInv(p, mode, d) && Layout(p, mode, d'.f, d'.active) && d'.active == d.active && d'.boot == d.boot
    requires forall x :: 0 <= x < SlotCount(mode) && Matters(d.f, d.active, x) ==>
               && Find(d'.f, x, FS1_IMG_ID) == Find(d.f, x, FS1_IMG_ID) && Find(d'.f, x, FS2_IMG_ID) == Find(d.f, x, FS2_IMG_ID)
               && FsContent(d'.f, x) == FsContent(d.f, x)
    requires forall x :: 0 <= x < MAX_FWD && SlotAt(d'.f, x).Bootable() ==> SlotAt(d.f, x).Bootable()
    requires mode == GoldenPlusTwo && d.active == 0 ==> OnGolden(d')
    ensures FsInv(p, mode, d') && SameFs(d, d')
  {
    hide Layout, Twins, SlotAt, Find, FsContent, OnGolden;
    ActiveInRange(p, mode, d.f, d.active);
    assert Matters(d.f, d.active, d.active);
    forall b: nat | Upgradable(mode, b) && b != d.active && SlotAt(d'.f, b).Bootable()
      ensures Twins(d'.f, d.active, b)
    {
      assert Matters(d.f, d.active, b);
      TwinsStay(d.f, d'.f, d.active, b);
    }
  }

  /** A write confined to rank and status bytes leaves entries and data alone. */
  lemma HeaderWriteIsQuiet(f: seq<byte>, f': seq<byte>, slot: nat, a: nat, n: nat, x: nat)
    requires SameOutside(f, f', a, n) && InfoAddr(slot, Rank) <= a && a + n <= InfoAddr(slot, TotalImages) && slot < MAX_FWD
    requires var e := Find(f, x, FS1_IMG_ID); e.Some? ==> MAX_FWD * BLOCK_SIZE <= e.value.start
    ensures Find(f', x, FS1_IMG_ID) == Find(f, x, FS1_IMG_ID) && Find(f', x, FS2_IMG_ID) == Find(f, x, FS2_IMG_ID)
    ensures FsContent(f', x) == FsContent(f, x)
  {
    hide Find, FsContent;
    assert SameEntries(f, f', x);
    SlotKeepsFs(f, f', x);
  }

  /** The file systems of a slot that matters are the two areas of the plan. */
  lemma FsAreas(p: Plan, mode: Mode, f: seq<byte>, active: nat, x: nat)
    requires Layout(p, mode, f, active) && x < SlotCount(mode) && Matters(f, active, x)
    ensures
      var e := Find(f, x, FS1_IMG_ID);
      e.Some? ==> (e.value.Extent() == p.fsA || e.value.Extent() == p.fsB) && MAX_FWD * BLOCK_SIZE <= e.value.start
  {
    hide SlotFits, Find, Precedes, TableOf, ImageSetEnd, Reserved, Disjoint, ShortWithoutFs;
    ReservedFound(p, mode, f, x);
  }

  /** The two writes of an acceptance or a rejection, one after the other. */
  lemma TwoHeaderWritesAreQuiet(p: Plan, mode: Mode, d: Device, f1: seq<byte>, f2: seq<byte>, s1: nat, a1: nat, n1: nat, s2: nat, a2: nat, n2: nat)
    requires Layout(p, mode, d.f, d.active) && s1 < MAX_FWD && s2 < MAX_FWD
    requires SameOutside(d.f, f1, a1, n1) && InfoAddr(s1, Rank) <= a1 && a1 + n1 <= InfoAddr(s1, TotalImages)
    requires SameOutside(f1, f2, a2, n2) && InfoAddr(s2, Rank) <= a2 && a2 + n2 <= InfoAddr(s2, TotalImages)
    ensures
      forall x :: 0 <= x < SlotCount(mode) && Matters(d.f, d.active, x) ==>
        && Find(f2, x, FS1_IMG_ID) == Find(d.f, x, FS1_IMG_ID) && Find(f2, x, FS2_IMG_ID) == Find(d.f, x, FS2_IMG_ID)
        && FsContent(f2, x) == FsContent(d.f, x)
  {
    hide Layout, Find, FsContent, Matters;
    forall x | 0 <= x < SlotCount(mode) && Matters(d.f, d.active, x)
      ensures Find(f2, x, FS1_IMG_ID) == Find(d.f, x, FS1_IMG_ID) && Find(f2, x, FS2_IMG_ID) == Find(d.f, x, FS2_IMG_ID)
      ensures FsContent(f2, x) == FsContent(d.f, x)
    {
      FsAreas(p, mode, d.f, d.active, x);
      HeaderWriteIsQuiet(d.f, f1, s1, a1, n1, x);
      HeaderWriteIsQuiet(f1, f2, s2, a2, n2, x);
    }
  }

  lemma NoChange(f: seq<byte>, a: nat)
    ensures SameOutside(f, f, a, 0)
  {
  }

  lemma DismissedDoesNotBoot(mode: Mode, f: seq<byte>, f': seq<byte>)
    requires CanReject(mode, f) && RejectLeaves(mode, f, f') && f' != f && MAX_FWD * BLOCK_SIZE <= |f|
    ensures !SlotAt(f', ScanSlots(mode, Slots(f)).trial).Bootable()
  {
    hide ScanSlots, Slots, Le32, Word, And;
    var t := ScanSlots(mode, Slots(f)).trial;
    ScanInRange(mode, f);
    AnythingTakesZero(Cell(f, InfoAddr(t, Status)));
    StatusOf(f', t);
    assert Cell(f', InfoAddr(t, Status)) == Cell(Dismissed(mode, f), InfoAddr(t, Status));
  }

  /** What acceptances and rejections do to the headers, seen as actions of the life cycle. */
  lemma HeadersAfter(p: Plan, mode: Mode, d: Device, d': Device)
    requires Layout(p, mode, d.f, d.active) && (IsAccepted(mode, d, d') || IsRejected(mode, d, d'))
    ensures forall x :: 0 <= x < MAX_FWD && SlotAt(d'.f, x).Bootable() ==> SlotAt(d.f, x).Bootable()
    ensures forall x :: 0 <= x < MAX_FWD && x != ScanSlots(mode, Slots(d.f)).trial ==> SlotAt(d'.f, x).rank == SlotAt(d.f, x).rank
    ensures !IsAccepted(mode, d, d') && d'.f != d.f ==> !SlotAt(d'.f, ScanSlots(mode, Slots(d.f)).trial).Bootable()
  {
    hide Layout, Promoted, Accepted, Slots, ScanSlots, SlotAt, AcceptLeaves, RejectLeaves, TornWord, TearsRank, GivesRank, Accepts;
    ActiveInRange(p, mode, d.f, d.active);
    ScanInRange(mode, d.f);
    var s, t := SystemAt(mode, d), ScanSlots(mode, Slots(d.f)).trial;
    CurrentHasHighestRank(mode, Slots(d.f));
    if IsAccepted(mode, d, d') {
      var a := AcceptanceAsAction(mode, d, d');
    } else {
      var a := RejectionAsAction(mode, d, d');
      if d'.f != d.f {
        DismissedDoesNotBoot(mode, d.f, d'.f);
      }
    }
  }

  /** An acceptance changes the rank of one slot, then perhaps the status of another. */
  lemma AcceptedIsQuiet(p: Plan, mode: Mode, d: Device, d': Device)
    requires Layout(p, mode, d.f, d.active) && IsAccepted(mode, d, d')
    ensures
      forall x :: 0 <= x < SlotCount(mode) && Matters(d.f, d.active, x) ==>
        && Find(d'.f, x, FS1_IMG_ID) == Find(d.f, x, FS1_IMG_ID) && Find(d'.f, x, FS2_IMG_ID) == Find(d.f, x, FS2_IMG_ID)
        && FsContent(d'.f, x) == FsContent(d.f, x)
  {
    hide Layout, Slots, ScanSlots, Word, Find, FsContent, Le32, And, Matters;
    var r := ScanSlots(mode, Slots(d.f));
    ScanInRange(mode, d.f);
    if PartlyWritten(d.f, d'.f, InfoAddr(r.trial, Rank), Le32(U32(r.rank + 1))) {
      NoChange(d'.f, InfoAddr(r.current, Status));
      TwoHeaderWritesAreQuiet(p, mode, d, d'.f, d'.f, r.trial, InfoAddr(r.trial, Rank), 4, r.current, InfoAddr(r.current, Status), 0);
    } else {
      var f1 := Promoted(mode, d.f);
      TwoHeaderWritesAreQuiet(p, mode, d, f1, d'.f, r.trial, InfoAddr(r.trial, Rank), 4, r.current, InfoAddr(r.current, Status), 1);
    }
  }

  lemma AcceptedCarries(p: Plan, mode: Mode, d: Device, d': Device)
    requires FsInv(p, mode, d) && IsAccepted(mode, d, d')
    ensures FsInv(p, mode, d') && SameFs(d, d')
  {
    hide Layout, Slots, ScanSlots, SlotAt, Find, FsContent, AcceptLeaves, Twins, Matters;
    EventKeepsLayout(p, mode, d, d');
    HeadersAfter(p, mode, d, d');
    AcceptedIsQuiet(p, mode, d, d');
    QuietEventCarries(p, mode, d, d');
  }

  /** A rejection changes the status, then the rank of one slot. */
  lemma RejectedIsQuiet(p: Plan, mode: Mode, d: Device, d': Device)
    requires Layout(p, mode, d.f, d.active) && IsRejected(mode, d, d') && d'.f != d.f
    ensures
      forall x :: 0 <= x < SlotCount(mode) && Matters(d.f, d.active, x) ==>
        && Find(d'.f, x, FS1_IMG_ID) == Find(d.f, x, FS1_IMG_ID) && Find(d'.f, x, FS2_IMG_ID) == Find(d.f, x, FS2_IMG_ID)
        && FsContent(d'.f, x) == FsContent(d.f, x)
  {
    hide Layout, Slots, ScanSlots, Word, Find, FsContent, Le32, And, Matters;
    var t := ScanSlots(mode, Slots(d.f)).trial;
    ScanInRange(mode, d.f);
    var f1 := Dismissed(mode, d.f);
    TwoHeaderWritesAreQuiet(p, mode, d, f1, d'.f, t, InfoAddr(t, Status), 1, t, InfoAddr(t, Rank), 4);
  }

  lemma RejectedCarries(p: Plan, mode: Mode, d: Device, d': Device)
    requires FsInv(p, mode, d) && IsRejected(mode, d, d') && !IsAccepted(mode, d, d')
    ensures FsInv(p, mode, d') && SameFs(d, d')
  {
    hide Layout, Slots, ScanSlots, SlotAt, Find, FsContent, RejectLeaves, Twins, Matters, IsAccepted;
    if d'.f != d.f {
      EventKeepsLayout(p, mode, d, d');
      HeadersAfter(p, mode, d, d');
      RejectedIsQuiet(p, mode, d, d');
      CurrentHasHighestRank(mode, Slots(d.f));
      QuietEventCarries(p, mode, d, d');
    }
  }

  lemma DataCarries(p: Plan, mode: Mode, d: Device, d': Device)
    requires FsInv(p, mode, d) && WritesData(d, d')
    requires SameCells(d.f, d'.f, p.fsA.start, p.fsA.size) && SameCells(d.f, d'.f, p.fsB.start, p.fsB.size)
    ensures FsInv(p, mode, d') && SameFs(d, d')
  {
    hide Layout, SlotAt, Find, FsContent, Twins, Matters;
    EventKeepsLayout(p, mode, d, d') by { CarriesFsHappens(p, mode, d, d'); }
    SameHeaders(d.f, d'.f);
    assert forall x :: 0 <= x < MAX_FWD ==> Slots(d'.f)[x] == Slots(d.f)[x];
    forall x | 0 <= x < SlotCount(mode) && Matters(d.f, d.active, x)
      ensures Find(d'.f, x, FS1_IMG_ID) == Find(d.f, x, FS1_IMG_ID) && Find(d'.f, x, FS2_IMG_ID) == Find(d.f, x, FS2_IMG_ID)
      ensures FsContent(d'.f, x) == FsContent(d.f, x)
    {
      FsAreas(p, mode, d.f, d.active, x);
      SlotKeepsFs(d.f, d'.f, x);
    }
    QuietEventCarries(p, mode, d, d');
  }

  /** Booting a twin swaps the areas and nothing else. */
  lemma RebootCarries(p: Plan, mode: Mode, d: Device, d': Device)
    requires FsInv(p, mode, d) && Reboots(mode, d, d') && (mode == GoldenPlusTwo && d'.active == 0 ==> d.active == 0)
    ensures FsInv(p, mode, d') && FsContent(d'.f, d'.active) == FsContent(d.f, d.active)
    ensures d'.active == d.active ==> SameFs(d, d')
    ensures d'.active != d.active ==> Twins(d.f, d.active, d'.active)
  {
    hide Layout, SlotAt, Find, FsContent;
    ActiveInRange(p, mode, d.f, d.active);
    RebootKeeps(p, mode, d.f, d.active, d'.active);
  }

  /** How often the device has changed slots. */
  function Moves(h: seq<Device>): nat {
    if |h| <= 1 then 0
    else Moves(h[..|h| - 1]) + if h[|h| - 1].active == h[|h| - 2].active then 0 else 1
  }

  /** One event: same contents, and the areas swapped if the device now runs the other slot. */
  lemma EventCarries(p: Plan, mode: Mode, d: Device, d': Device)
    requires FsInv(p, mode, d) && CarriesFs(p, mode, d, d')
    ensures FsInv(p, mode, d') && FsContent(d'.f, d'.active) == FsContent(d.f, d.active)
    ensures
      var same := d'.active == d.active;
      && ExtentOption(Find(d'.f, d'.active, FS1_IMG_ID)) == ExtentOption(Find(d.f, d.active, if same then FS1_IMG_ID else FS2_IMG_ID))
      && ExtentOption(Find(d'.f, d'.active, FS2_IMG_ID)) == ExtentOption(Find(d.f, d.active, if same then FS2_IMG_ID else FS1_IMG_ID))
  {
    hide FsInv, SessionIsCutOff, SessionCompletes, IsAccepted, IsRejected, WritesData, FsContent, Find, HasImage, SlotAt;
    if SessionIsCutOff(mode, d, d') {
      CutOffCarries(p, mode, d, d');
    } else if env: Env, s: State :| SessionCompletes(mode, d, d', env, s) && HasImage(s.hdrs, FS1_IMG_ID) {
      CompletedCarries(p, mode, d, d', env, s);
    } else if IsAccepted(mode, d, d') {
      AcceptedCarries(p, mode, d, d');
    } else if IsRejected(mode, d, d') {
      RejectedCarries(p, mode, d, d');
    } else if Reboots(mode, d, d') && (mode == GoldenPlusTwo && d'.active == 0 ==> d.active == 0) {
      RebootCarries(p, mode, d, d');
    } else {
      DataCarries(p, mode, d, d');
    }
  }

  /**
   Over any history of upgrades, completed, cut off, accepted or rejected, and of reboots, the running slot's first file system
   has the same contents, the reserved area ends at the same place, and the two areas have swapped places with every move.
   */
  lemma {:induction false} FileSystemForever(p: Plan, mode: Mode, h: seq<Device>)
    requires h != [] && FsInv(p, mode, h[0]) && forall k :: 0 <= k < |h| - 1 ==> CarriesFs(p, mode, h[k], h[k + 1])
    ensures
      var d, e, even := h[0], h[|h| - 1], Moves(h) % 2 == 0;
      && FsInv(p, mode, e) && FsContent(e.f, e.active) == FsContent(d.f, d.active)
      && ReservedEnd(e.f, e.active) == ReservedEnd(d.f, d.active) == Reserved(p)
      && ExtentOption(Find(e.f, e.active, FS1_IMG_ID)) == ExtentOption(Find(d.f, d.active, if even then FS1_IMG_ID else FS2_IMG_ID))
      && ExtentOption(Find(e.f, e.active, FS2_IMG_ID)) == ExtentOption(Find(d.f, d.active, if even then FS2_IMG_ID else FS1_IMG_ID))
    decreases |h|
  {
    hide FsInv, CarriesFs, Find, FsContent, ReservedEnd;
    ReservedAsPlanned(p, mode, h[0]);
    if |h| > 1 {
      FileSystemForever(p, mode, h[..|h| - 1]);
      EventCarries(p, mode, h[|h| - 2], h[|h| - 1]);
      ReservedAsPlanned(p, mode, h[|h| - 1]);
    }
  }

  lemma ReservedAsPlanned(p: Plan, mode: Mode, d: Device)
    requires FsInv(p, mode, d)
    ensures ReservedEnd(d.f, d.active) == Reserved(p)
  {
    hide Layout, Find, SlotFits, Reserved, ReservedEnd, SlotAt, Twins;
    ActiveInRange(p, mode, d.f, d.active);
    ActiveFits(p, mode, d.f, d.active);
    ReservedEndPlaced(p, mode, d.f, d.active);
  }

  // Which slots can be upgraded from

  /** An upgrade whose configuration has no first file system leaves a slot without one. */
  lemma NoFirstFsInstalled(p: Plan, env: Env, f: seq<byte>, g: Geometry, s: State)
    requires Layout(p, env.mode, f, env.active) && Targets(env, f, g) && Installed(env, g, s)
    ensures Find(s.flash, g.trial, FS1_IMG_ID).Some? <==> HasImage(s.hdrs, FS1_IMG_ID)
  {
    hide Layout, Find, Select, HiddenTable, IndexIn, HoldsTable, Installed, Lists, Reserved;
    InstalledTableNotEmpty(env, g, s);
    LayoutReadyTrial(p, env, f, g);
    FindInTable(s.flash, g.trial, s.table, FS1_IMG_ID);
    ListsExactly(s.table, FS1_IMG_ID);
    assert Lists(s.table, FS1_IMG_ID) == (IndexIn(s.table, FS1_IMG_ID) < |s.table|) by { ListsIsIndex(s.table, FS1_IMG_ID); }
    NewEntriesFit(p, env, f, g, s, 0);
    HiddenStart(env, f);
    forall k | 0 <= k < |s.table| && s.table[k].id == FS1_IMG_ID
      ensures HasImage(s.hdrs, FS1_IMG_ID)
    {
      NewEntriesFit(p, env, f, g, s, k);
      DownloadedId(env, g, s, k);
    }
    if HasImage(s.hdrs, FS1_IMG_ID) {
      FirstFsListed(env, g, s);
    }
  }

  lemma ListsIsIndex(table: seq<Entry>, id: uint32)
    ensures Lists(table, id) == (IndexIn(table, id) < |table|)
  {
  }

  lemma DownloadedId(env: Env, g: Geometry, s: State, k: nat)
    requires Installed(env, g, s) && s.hidden <= k < |s.table|
    ensures k - s.hidden < |s.hdrs| && s.table[k].id == s.hdrs[k - s.hidden].id
  {
    hide HiddenTable, Find, SlotAt, Ordered, Frame, FsCopied, GeometryOk, EntryAt, Stored, ConfigCount, HoldsTable;
    assert Done(env, g, s.hdrs[k - s.hidden], s.table[s.hidden + (k - s.hidden)], s.payloads[k - s.hidden], s.cursor, s.flash);
  }

  /** The reserved partitions of the running slot, as the start of a session finds them. */
  lemma RunningPartitions(p: Plan, env: Env, f: seq<byte>, id: uint32)
    requires Layout(p, env.mode, f, env.active)
    requires id == FS1_IMG_ID || id == FS2_IMG_ID || id == RAMDUMP_IMG_ID || id == USERDATA_IMG_ID
    ensures
      var e := Find(f, env.active, id);
      e.Some? ==>
        && e.value.id == id && e.value.start % BLOCK_SIZE == 0 && e.value.size % BLOCK_SIZE == 0
        && 0 < e.value.size && e.value.End() <= |f| < TWO_TO_THE_32
    ensures Find(f, env.active, FS2_IMG_ID).Some?
  {
    hide Layout, Find, SlotFits, Reserved, Disjoint;
    ActiveInRange(p, env.mode, f, env.active);
    ActiveFits(p, env.mode, f, env.active);
    ReservedFound(p, env.mode, f, env.active);
    ReservedPlaced(p, env.mode);
    SizeOk(p, env.mode);
    FoundId(f, env.active, id);
  }

  /** So no session fails with a handle in its hands unless the flash does. */
  lemma ScratchNotEmpty(p: Plan, env: Env, f: seq<byte>)
    requires Layout(p, env.mode, f, env.active)
    ensures !EmptyScratch(env, f)
  {
    hide Layout, Find;
    RunningPartitions(p, env, f, FS2_IMG_ID);
    RunningPartitions(p, env, f, RAMDUMP_IMG_ID);
  }

  /** A hidden entry for which there is room. */
  lemma HiddenFits(env: Env, g: Geometry, s: State, e: Entry)
    requires Erased1(env, g, s) && |s.table| < 3 && e.id != IMAGE_UNUSED && e.start % BLOCK_SIZE == 0 && e.size % BLOCK_SIZE == 0
    ensures
      var s' := AddEntry(s, e).(hidden := s.hidden + 1);
      AddEntry(s, e).phase == Config && AddEntry(s, e).hidden == s.hidden && Erased1(env, g, s') && |s'.table| == |s.table| + 1
  {
    hide Starting, HoldsTable, AddEntry, FindIndex;
    StartingFields(env, g, s);
    FirstUnused(s.flash, s.trial, s.table);
    HiddenAdded(env, g, s, e);
  }

  lemma UserdataGoesOn(p: Plan, env: Env, g: Geometry, s: State)
    requires Erased1(env, g, s) && |s.table| < 3 && Layout(p, env.mode, g.base, env.active)
    ensures BeginUserdata(env, s).phase == Config
  {
    hide Layout, Find, AddEntry, Erased1;
    FindsAsBefore(env, g, s, USERDATA_IMG_ID);
    RunningPartitions(p, env, g.base, USERDATA_IMG_ID);
    if Find(s.flash, env.active, USERDATA_IMG_ID).Some? {
      HiddenFits(env, g, s, Find(s.flash, env.active, USERDATA_IMG_ID).value);
    }
  }

  lemma FindsAsBefore(env: Env, g: Geometry, s: State, id: uint32)
    requires Erased1(env, g, s)
    ensures Find(s.flash, env.active, id) == Find(g.base, env.active, id) && s.phase == Config && |s.flash| == |g.base|
  {
    hide Find, HoldsTable, Disjoint;
    ActiveFindsSame(g, env.active, s.flash, id);
  }

  lemma RamdumpGoesOn(p: Plan, env: Env, g: Geometry, s: State)
    requires Erased1(env, g, s) && |s.table| < 2 && Layout(p, env.mode, g.base, env.active)
    ensures BeginRamdump(env, s).phase == Config
  {
    hide Layout, Find, AddEntry, Erased1, BeginRamdump, BeginUserdata, Word, Erased;
    FindsAsBefore(env, g, s, RAMDUMP_IMG_ID);
    RunningPartitions(p, env, g.base, RAMDUMP_IMG_ID);
    RamdumpFacts(env, g, s);
    match Find(s.flash, env.active, RAMDUMP_IMG_ID)
    case None =>
      UserdataGoesOn(p, env, g, s);
    case Some(e) =>
      var t := if Word(s.flash, e.start) != 0xFFFF_FFFF then s.WithFlash(Erased(s.flash, e.start, e.size)) else s;
      assert InBounds(e, 0, 4) && e.start + 4 <= |s.flash|;
      HiddenFits(env, g, t, e);
      UserdataGoesOn(p, env, g, AddEntry(t, e).(hidden := s.hidden + 1));
  }

  lemma FirstFsGoesOn(p: Plan, env: Env, g: Geometry, s: State)
    requires Erased1(env, g, s) && s.table == [] && Layout(p, env.mode, g.base, env.active)
    requires Find(g.base, env.active, FS1_IMG_ID).Some?
    ensures BeginFirstFs(env, s).phase == Config
  {
    hide Layout, Find, AddEntry, Erased1, BeginRamdump;
    FindsAsBefore(env, g, s, FS1_IMG_ID);
    RunningPartitions(p, env, g.base, FS1_IMG_ID);
    var e := Find(g.base, env.active, FS1_IMG_ID).value.(id := FS2_IMG_ID);
    HiddenFits(env, g, s, e);
    RamdumpGoesOn(p, env, g, AddEntry(s, e).(hidden := s.hidden + 1));
  }

  lemma SecondFsGoesOn(p: Plan, env: Env, g: Geometry, s: State)
    requires Erased1(env, g, s) && s.table == [] && Layout(p, env.mode, g.base, env.active)
    requires Find(g.base, env.active, FS1_IMG_ID).Some?
    ensures BeginSecondFs(env, s).phase == Config
  {
    hide Layout, Find, Erased1, BeginFirstFs, BeginSecondFs, Erased;
    FindsAsBefore(env, g, s, FS2_IMG_ID);
    RunningPartitions(p, env, g.base, FS2_IMG_ID);
    SecondFsFacts(env, g, s);
    var e := Find(s.flash, env.active, FS2_IMG_ID).value;
    FirstFsGoesOn(p, env, g, s.WithFlash(Erased(s.flash, e.start, e.size)));
  }

  /** A session gets past its start exactly when a slot other than the running one can be selected and the running slot has a
      first file system. */
  lemma SessionStartsExactlyWhen(p: Plan, env: Env, f: seq<byte>)
    requires Layout(p, env.mode, f, env.active)
    ensures
      var sel := Select(env.mode, f, env.active);
      && (!Begin(env, f).phase.Failed? <==> sel.Some? && sel.value.fwd != env.active && Find(f, env.active, FS1_IMG_ID).Some?)
      && (sel == None ==> Begin(env, f).phase == Failed(FlashNotSupportFwUpgrade))
      && (sel.Some? && sel.value.fwd == env.active ==> Begin(env, f).phase == Failed(TrialIsRunning))
      && (sel.Some? && sel.value.fwd != env.active && Find(f, env.active, FS1_IMG_ID) == None ==> Begin(env, f).phase == Failed(FlashImageNotFound))
  {
    hide Layout, Find, Select, Begin, BeginErase, Erased1;
    LayoutReady(p, env, f);
    BeginEstablishes(env, f);
    var sel := Select(env.mode, f, env.active);
    if sel.Some? {
      BeginCases(env, f, Fresh(f).(trial := sel.value.fwd, cursor := sel.value.region.start, space := sel.value.region.size));
      if sel.value.fwd != env.active && Find(f, env.active, FS1_IMG_ID).Some? {
        StartGoesOn(p, env, f);
      } else if sel.value.fwd != env.active {
        StartStops(p, env, f);
      }
    } else {
      BeginCases(env, f, Fresh(f));
    }
  }

  lemma NoFirstFsStops(p: Plan, env: Env, g: Geometry, s: State)
    requires Erased1(env, g, s) && s.table == [] && Layout(p, env.mode, g.base, env.active)
    requires Find(g.base, env.active, FS1_IMG_ID) == None
    ensures BeginSecondFs(env, s).phase == Failed(FlashImageNotFound)
  {
    hide Layout, Find, Erased1, BeginSecondFs, Erased;
    FindsAsBefore(env, g, s, FS2_IMG_ID);
    RunningPartitions(p, env, g.base, FS2_IMG_ID);
    SecondFsFacts(env, g, s);
    var e := Find(s.flash, env.active, FS2_IMG_ID).value;
    FindsAsBefore(env, g, s.WithFlash(Erased(s.flash, e.start, e.size)), FS1_IMG_ID);
  }

  lemma StartStops(p: Plan, env: Env, f: seq<byte>)
    requires Layout(p, env.mode, f, env.active) && Find(f, env.active, FS1_IMG_ID) == None
    requires Select(env.mode, f, env.active).Some? && Select(env.mode, f, env.active).value.fwd != env.active
    ensures Begin(env, f).phase == Failed(FlashImageNotFound)
  {
    hide Layout, Find, Select, Begin, BeginSecondFs, Erased, Disjoint;
    var sel := Select(env.mode, f, env.active).value;
    var g := GeometryOf(env, f, sel);
    var s0 := Fresh(f).(trial := sel.fwd, cursor := sel.region.start, space := sel.region.size);
    LayoutReady(p, env, f);
    ActiveInRange(p, env.mode, f, env.active);
    BeginCases(env, f, s0);
    ErasedDescriptor(env, g, s0);
    NoFirstFsStops(p, env, g, s0.WithFlash(Erased(f, s0.trial * BLOCK_SIZE, BLOCK_SIZE)));
  }

  lemma StartGoesOn(p: Plan, env: Env, f: seq<byte>)
    requires Layout(p, env.mode, f, env.active) && Find(f, env.active, FS1_IMG_ID).Some?
    requires Select(env.mode, f, env.active).Some? && Select(env.mode, f, env.active).value.fwd != env.active
    ensures !Begin(env, f).phase.Failed?
  {
    hide Layout, Find, Select, Begin, BeginSecondFs, Erased, Disjoint;
    var sel := Select(env.mode, f, env.active).value;
    var g := GeometryOf(env, f, sel);
    var s0 := Fresh(f).(trial := sel.fwd, cursor := sel.region.start, space := sel.region.size);
    LayoutReady(p, env, f);
    ActiveInRange(p, env.mode, f, env.active);
    BeginCases(env, f, s0);
    ErasedDescriptor(env, g, s0);
    SecondFsGoesOn(p, env, g, s0.WithFlash(Erased(f, s0.trial * BLOCK_SIZE, BLOCK_SIZE)));
  }

  /** Once an installed slot runs, and another one can be selected, it can be upgraded from exactly when its own configuration
      listed a first file system. */
  lemma InstalledUpgradesExactlyWhen(p: Plan, env: Env, f: seq<byte>, g: Geometry, s: State, later: Env, f': seq<byte>)
    requires Layout(p, env.mode, f, env.active) && Targets(env, f, g) && Installed(env, g, s)
    requires later.mode == env.mode && later.active == g.trial
    requires Layout(p, env.mode, f', g.trial) && SameEntries(s.flash, f', g.trial)
    requires Select(later.mode, f', later.active).Some? && Select(later.mode, f', later.active).value.fwd != later.active
    ensures !Begin(later, f').phase.Failed? <==> HasImage(s.hdrs, FS1_IMG_ID)
  {
    hide Layout, Find, Select, Begin, Installed, Targets, HasImage;
    NoFirstFsInstalled(p, env, f, g, s);
    SameLookup(s.flash, f', g.trial, FS1_IMG_ID);
    SessionStartsExactlyWhen(p, later, f');
  }
}
