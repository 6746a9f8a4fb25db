/** The layout over any history of the device: upgrades that complete or are cut off, acceptances, rejections and reboots. */
module LayoutHistory {
  import opened Bytes
  import opened NorFlash
  import opened Descriptor
  import opened SlotSelection
  import opened UpgradeMem
  import opened UpgradeSpec
  import opened SessionInvariant
  import opened ImageInvariant
  import opened Completion
  import opened Lifecycle
  import opened FlashLayout

  lemma SlotStillFits(p: Plan, mode: Mode, f: seq<byte>, g: seq<byte>, slot: nat)
    requires SlotFits(p, mode, f, slot) && SameEntries(f, g, slot)
    ensures SlotFits(p, mode, g, slot) && TableOf(g, slot) == TableOf(f, slot)
  {
    hide EntryAt, FindIndex, TableFits;
    TableSame(f, g, slot, TableOf(f, slot));
    TableOfHeld(g, slot, TableOf(f, slot));
  }

  lemma {:induction false} WalkEndSame(f: seq<byte>, g: seq<byte>, slot: nat, k: nat, acc: uint32)
    requires SameEntries(f, g, slot)
    ensures WalkEnd(f, slot, k, acc) == WalkEnd(g, slot, k, acc)
    decreases MAX_IMAGE_ENTRIES - k
  {
    hide EndWith;
    if k < MAX_IMAGE_ENTRIES {
      SameEntry(f, g, slot, k);
      WalkEndSame(f, g, slot, k + 1, EndWith(EntryAt(f, slot, k), acc));
    }
  }

  lemma ImageSetEndSame(f: seq<byte>, g: seq<byte>, slot: nat)
    requires SameEntries(f, g, slot)
    requires SlotAt(f, slot).magic == SlotAt(g, slot).magic && SlotAt(f, slot).total == SlotAt(g, slot).total
    ensures ImageSetEnd(f, slot) == ImageSetEnd(g, slot)
  {
    hide WalkEnd, EntryAt, SlotAt;
    SameEntry(f, g, slot, 0);
    WalkEndSame(f, g, slot, 1, EndWith(EntryAt(f, slot, 0), 0));
  }

  /** The layout is a matter of the entries of the slots that matter. */
  lemma LayoutKept(p: Plan, mode: Mode, f: seq<byte>, active: nat, g: seq<byte>, active': nat)
    requires Layout(p, mode, f, active) && |g| == |f| && active' < SlotCount(mode)
    requires forall i :: 0 <= i < SlotCount(mode) && Matters(g, active', i) ==> Matters(f, active, i) && SameEntries(f, g, i)
    requires mode == GoldenPlusTwo ==>
               SameEntries(f, g, 0) && SlotAt(f, 0).magic == SlotAt(g, 0).magic && SlotAt(f, 0).total == SlotAt(g, 0).total
    ensures Layout(p, mode, g, active')
  {
    hide SlotFits, SlotAt, TableOf, ImageSetEnd, PlanOk, SameEntries, Precedes, ShortWithoutFs;
    forall i | 0 <= i < SlotCount(mode) && Matters(g, active', i)
      ensures SlotFits(p, mode, g, i) && TableOf(g, i) == TableOf(f, i)
    {
      SlotStillFits(p, mode, f, g, i);
    }
    if mode == GoldenPlusTwo {
      SlotStillFits(p, mode, f, g, 0);
      ImageSetEndSame(f, g, 0);
    }
  }

  // What happens to a device

  /** The flash, the running slot, how it was started, and the partition handles that are free between sessions. */
  datatype Device = Device(f: seq<byte>, active: nat, boot: BootType, free: nat)

  /** The session's target, when it gets as far as touching the flash. */
  ghost predicate Targets(env: Env, f: seq<byte>, g: Geometry) {
    var sel := Select(env.mode, f, env.active);
    sel.Some? && sel.value.fwd != env.active && g == GeometryOf(env, f, sel.value)
  }

  /** A session left somewhere between the erase of the descriptor and the commit. */
  ghost predicate CutOff(env: Env, f: seq<byte>, f': seq<byte>) {
    exists g: Geometry :: Targets(env, f, g) && Frame(g, f') && Cell(f', InfoAddr(g.trial, Status)) != STATUS_VALID
  }

  /** A session carried through. */
  ghost predicate Completed(env: Env, f: seq<byte>, s: State) {
    exists g: Geometry :: Targets(env, f, g) && Installed(env, g, s)
  }

  /** The erase of a session's descriptor has been cut off. */
  ghost predicate TornErase(env: Env, f: seq<byte>, f': seq<byte>) {
    exists g: Geometry :: Targets(env, f, g) && PartlyErased(f, f', g.trial * BLOCK_SIZE, BLOCK_SIZE)
  }

  // The events.  A session starts with two handles to spare, and may lose one.

  ghost predicate SessionIsCutOff(mode: Mode, d: Device, d': Device) {
    && 2 <= d.free && LosesAtMostOne(d.free, d'.free) && d' == d.(f := d'.f, free := d'.free)
    && exists env: Env :: env.mode == mode && env.active == d.active && CutOff(env, d.f, d'.f)
  }

  /** The session `env`, `s` is carried through. */
  ghost predicate SessionCompletes(mode: Mode, d: Device, d': Device, env: Env, s: State) {
    && 2 <= d.free && LosesAtMostOne(d.free, d'.free) && d' == d.(f := s.flash, free := d'.free)
    && env.mode == mode && env.active == d.active && Completed(env, d.f, s)
  }

  /** An acceptance, carried through or cut off anywhere, even in the middle of a write. */
  ghost predicate IsAccepted(mode: Mode, d: Device, d': Device) {
    CanAccept(mode, d.boot, d.f) && AcceptLeaves(mode, d.f, d'.f) && d' == d.(f := d'.f)
  }

  /** A rejection, likewise. */
  ghost predicate IsRejected(mode: Mode, d: Device, d': Device) {
    CanReject(mode, d.f) && RejectLeaves(mode, d.f, d'.f) && LosesAtMostOne(d.free, d'.free) && d' == d.(f := d'.f, free := d'.free)
  }

  ghost predicate Reboots(mode: Mode, d: Device, d': Device) {
    && d'.active < SlotCount(mode) && SlotAt(d.f, d'.active).Bootable()
    && d' == Device(d.f, d'.active, BootTypeOf(SlotAt(d.f, d'.active)), MAX_HANDLES)
  }

  /** Software writes its data anywhere behind the descriptors. */
  ghost predicate WritesData(d: Device, d': Device) {
    SameCells(d.f, d'.f, 0, MAX_FWD * BLOCK_SIZE) && |d'.f| == |d.f| && d' == d.(f := d'.f)
  }

  /** An erase of the descriptor that is cut off counts as a session cut off, unless the old status, having been valid,
      is still there. */
  ghost predicate Happens(mode: Mode, d: Device, d': Device) {
    || SessionIsCutOff(mode, d, d')
    || (exists env: Env, s: State :: SessionCompletes(mode, d, d', env, s))
    || IsAccepted(mode, d, d')
    || IsRejected(mode, d, d')
    || Reboots(mode, d, d')
    || WritesData(d, d')
  }

  // Each kind of event keeps the layout

  /** Where the session may write, seen from the descriptors. */
  lemma OtherDescriptorsUntouched(p: Plan, env: Env, f: seq<byte>, g: Geometry, f': seq<byte>, slot: nat)
    requires Layout(p, env.mode, f, env.active) && Targets(env, f, g) && Frame(g, f') && slot < MAX_FWD && slot != g.trial
    ensures SameDescriptor(f, f', slot) && SameEntries(f, f', slot) && SlotAt(f', slot) == SlotAt(f, slot)
    ensures g.trial < SlotCount(env.mode) && (env.mode == GoldenPlusTwo ==> g.trial != 0)
  {
    hide SlotFits, Layout, Find, TableOf, ImageSetEnd, FindFrom, SlotAt, ReservedEnd, Disjoint;
    LayoutReady(p, env, f);
    TargetInRange(env.mode, f, env.active);
    forall i | slot * BLOCK_SIZE <= i < slot * BLOCK_SIZE + BLOCK_SIZE
      ensures Cell(f, i) == Cell(f', i)
    {
      assert !g.Writable(i);
    }
    SameFind(f, f', slot, 0);
  }

  lemma TargetInRange(mode: Mode, f: seq<byte>, active: nat)
    requires Select(mode, f, active).Some?
    ensures Select(mode, f, active).value.fwd < SlotCount(mode)
    ensures mode == GoldenPlusTwo ==> Select(mode, f, active).value.fwd != 0
  {
    hide ReservedEnd, ImageSetEnd, ScanSlots, PushBack, HalfRegion;
  }

  lemma CutOffKeeps(p: Plan, env: Env, f: seq<byte>, f': seq<byte>)
    requires Layout(p, env.mode, f, env.active) && CutOff(env, f, f')
    ensures Layout(p, env.mode, f', env.active)
  {
    hide SlotFits, Find, TableOf, ImageSetEnd, Select, PlanOk, Precedes, Layout, SameEntries;
    var g: Geometry :| Targets(env, f, g) && Frame(g, f') && Cell(f', InfoAddr(g.trial, Status)) != STATUS_VALID;
    ActiveInRange(p, env.mode, f, env.active);
    StatusOf(f', g.trial);
    forall i | 0 <= i < SlotCount(env.mode) && i != g.trial
      ensures SameEntries(f, f', i) && SlotAt(f', i) == SlotAt(f, i)
    {
      OtherDescriptorsUntouched(p, env, f, g, f', i);
    }
    OtherDescriptorsUntouched(p, env, f, g, f', env.active);
    LayoutKept(p, env.mode, f, env.active, f', env.active);
  }

  lemma ActiveInRange(p: Plan, mode: Mode, f: seq<byte>, active: nat)
    requires Layout(p, mode, f, active)
    ensures active < SlotCount(mode) && |f| == p.size && PlanOk(p, mode) && MAX_FWD * BLOCK_SIZE <= |f|
  {
    hide SlotFits, TableOf, ImageSetEnd, Precedes, Reserved, Disjoint;
    ReservedPlaced(p, mode);
    SizeOk(p, mode);
  }

  lemma StatusOf(f: seq<byte>, slot: nat)
    ensures SlotAt(f, slot).status == Cell(f, InfoAddr(slot, Status))
  {
  }

  // An erase cut off

  lemma PartlyErasedInFrame(p: Plan, env: Env, f: seq<byte>, g: Geometry, f': seq<byte>)
    requires Layout(p, env.mode, f, env.active) && Targets(env, f, g)
    requires PartlyErased(f, f', g.trial * BLOCK_SIZE, BLOCK_SIZE)
    ensures Frame(g, f') && g.trial < SlotCount(env.mode)
    ensures Cell(f', InfoAddr(g.trial, Status)) == Cell(f, InfoAddr(g.trial, Status)) || Cell(f', InfoAddr(g.trial, Status)) == 0xFF
  {
    hide Layout, Find, Select;
    ActiveInRange(p, env.mode, f, env.active);
    TargetInRange(env.mode, f, env.active);
  }

  /** Unless the old status is still there and valid, the erase cut off is a session cut off. */
  lemma TornEraseIsCutOff(p: Plan, env: Env, f: seq<byte>, f': seq<byte>)
    requires Layout(p, env.mode, f, env.active) && TornErase(env, f, f')
    ensures
      CutOff(env, f, f') ||
      exists g: Geometry ::
        && Targets(env, f, g) && PartlyErased(f, f', g.trial * BLOCK_SIZE, BLOCK_SIZE)
        && Cell(f, InfoAddr(g.trial, Status)) == Cell(f', InfoAddr(g.trial, Status)) == STATUS_VALID
  {
    hide Layout, Targets, Frame, PartlyErased;
    var g: Geometry :| Targets(env, f, g) && PartlyErased(f, f', g.trial * BLOCK_SIZE, BLOCK_SIZE);
    PartlyErasedInFrame(p, env, f, g, f');
  }

  /** The header is still there, the entries are gone: the slot boots as before, but lists nothing. */
  function EntriesLost(f: seq<byte>, slot: nat): seq<byte> {
    Erased(f, EntryAddr(slot, 0), 16 * MAX_IMAGE_ENTRIES)
  }

  lemma EntriesLostStillBoots(f: seq<byte>, slot: nat)
    requires slot * BLOCK_SIZE + BLOCK_SIZE <= |f|
    ensures
      var f' := EntriesLost(f, slot);
      && PartlyErased(f, f', slot * BLOCK_SIZE, BLOCK_SIZE)
      && SlotAt(f', slot) == SlotAt(f, slot) && TableOf(f', slot) == []
      && Cell(f', InfoAddr(slot, Status)) == Cell(f, InfoAddr(slot, Status))
  {
    hide Word, EntryAt;
    var f' := EntriesLost(f, slot);
    SameWord(f, f', InfoAddr(slot, Magic));
    SameWord(f, f', InfoAddr(slot, Rank));
    assert HoldsTable(f', slot, []);
    TableOfHeld(f', slot, []);
  }

  /** However the erase of the descriptor is cut off, the layout is kept: exactly when the slot was not valid before. */
  lemma TornEraseKeepsLayoutExactlyWhen(p: Plan, env: Env, f: seq<byte>, g: Geometry)
    requires Layout(p, env.mode, f, env.active) && Targets(env, f, g)
    ensures
      (forall f' :: PartlyErased(f, f', g.trial * BLOCK_SIZE, BLOCK_SIZE) ==> Layout(p, env.mode, f', env.active))
      <==> Cell(f, InfoAddr(g.trial, Status)) != STATUS_VALID
  {
    hide Layout, Targets, Frame, PartlyErased, EntriesLost;
    PartlyErasedInFrame(p, env, f, g, f) by { NothingErased(f, g.trial * BLOCK_SIZE, BLOCK_SIZE); }
    if Cell(f, InfoAddr(g.trial, Status)) != STATUS_VALID {
      forall f' | PartlyErased(f, f', g.trial * BLOCK_SIZE, BLOCK_SIZE)
        ensures Layout(p, env.mode, f', env.active)
      {
        PartlyErasedInFrame(p, env, f, g, f');
        CutOffKeeps(p, env, f, f');
      }
    } else {
      ActiveInRange(p, env.mode, f, env.active);
      EntriesLostStillBoots(f, g.trial);
      NoTableNoLayout(p, env.mode, EntriesLost(f, g.trial), env.active, g.trial);
    }
  }

  lemma NothingErased(f: seq<byte>, a: nat, n: nat)
    ensures PartlyErased(f, f, a, n)
  {
  }

  lemma NoTableNoLayout(p: Plan, mode: Mode, f: seq<byte>, active: nat, slot: nat)
    requires slot < SlotCount(mode) && Cell(f, InfoAddr(slot, Status)) == STATUS_VALID && TableOf(f, slot) == []
    ensures !Layout(p, mode, f, active)
  {
    hide PlanOk, ImageSetEnd, Precedes;
    StatusOf(f, slot);
    assert Layout(p, mode, f, active) ==> SlotFits(p, mode, f, slot);
  }

  // A completed upgrade

  /** The hidden entries of the new slot: the reserved partitions, with the running first file system as the second. */
  lemma HiddenEntriesFit(p: Plan, env: Env, f: seq<byte>, area: Bounds, k: nat)
    requires PlanOk(p, env.mode) && env.active < MAX_FWD && SlotFits(p, env.mode, f, env.active)
    requires Find(f, env.active, FS1_IMG_ID).Some? && k < |HiddenTable(env, f)|
    ensures EntryFits(p, area, HiddenTable(env, f)[k])
    ensures HiddenTable(env, f)[k].id != FS1_IMG_ID
  {
    hide Find, SlotFits, PlanOk;
    ReservedFound(p, env.mode, f, env.active);
    FoundId(f, env.active, RAMDUMP_IMG_ID);
    FoundId(f, env.active, USERDATA_IMG_ID);
  }

  /** Entries read back from a descriptor are whole blocks. */
  lemma EntryBlocks(f: seq<byte>, slot: nat, table: seq<Entry>, k: nat)
    requires HoldsTable(f, slot, table) && k < |table| && table[k].id != SBL_IMG_ID
    ensures table[k].start % BLOCK_SIZE == 0 && table[k].size % BLOCK_SIZE == 0
  {
    hide Word;
    assert EntryAt(f, slot, k) == table[k];
  }

  /** The downloaded entries: images in the region, the first file system in the area of the running second one. */
  lemma DownloadedEntryFits(p: Plan, env: Env, f: seq<byte>, g: Geometry, s: State, k: nat)
    requires Layout(p, env.mode, f, env.active) && Targets(env, f, g) && Installed(env, g, s) && k < |s.hdrs|
    ensures k < |s.hdrs| && s.hidden + k < |s.table|
    ensures
      var e := s.table[s.hidden + k];
      && e.id == s.hdrs[k].id && Downloadable(e.id)
      && (IsImage(e) ==> g.region.start <= e.start && e.End() <= EndOfExtent(g.region) && e.start % BLOCK_SIZE == 0 && e.size % BLOCK_SIZE == 0)
      && (e.id == FS1_IMG_ID ==> e.Extent() == g.fs2)
  {
    hide Layout, HiddenTable, Find, SlotAt, Ordered, Frame, FsCopied, GeometryOk, HoldsTable, Stored, ConfigCount,
      TotalImagesByte, Select, ConfigChecked, SblDisk;
    assert Done(env, g, s.hdrs[k], s.table[s.hidden + k], s.payloads[k], s.cursor, s.flash);
    assert SaneHeader(env, s.hdrs[k]);
    if IsImage(s.table[s.hidden + k]) {
      EntryBlocks(s.flash, s.trial, s.table, s.hidden + k);
    }
  }

  /** All entries of the new slot fit. */
  lemma NewEntriesFit(p: Plan, env: Env, f: seq<byte>, g: Geometry, s: State, k: nat)
    requires Layout(p, env.mode, f, env.active) && Targets(env, f, g) && Installed(env, g, s) && k < |s.table|
    ensures EntryFits(p, Area(p, env.mode, g.trial), s.table[k])
    ensures k < |HiddenTable(env, f)| ==> s.table[k] == HiddenTable(env, f)[k]
    ensures k >= |HiddenTable(env, f)| ==> Downloadable(s.table[k].id) && (s.table[k].id == FS1_IMG_ID ==> s.table[k].Extent() == g.fs2)
    ensures Find(f, env.active, FS1_IMG_ID).Some? && s.hidden == |HiddenTable(env, f)| <= |s.table| && s.table[..s.hidden] == HiddenTable(env, f)
  {
    hide Find, SlotFits, TableOf, ImageSetEnd, Precedes, Area, PlanOk, HiddenTable, Ordered, AllDone, FsCopied, SlotAt, HoldsTable, SaneHeaders,
      ConfigCount, TotalImagesByte, Reserved, GeometryOk, Frame, Downloadable, Select;
    ReservedFound(p, env.mode, f, env.active);
    if k < s.hidden {
      HiddenEntriesFit(p, env, f, Area(p, env.mode, g.trial), k);
      assert s.table[k] == s.table[..s.hidden][k];
    } else {
      DownloadedEntryFits(p, env, f, g, s, k - s.hidden);
      RegionInArea(p, env.mode, f, env.active);
      NotReserved(s.table[k].id);
    }
  }

  lemma NotReserved(id: uint32)
    requires Downloadable(id)
    ensures id != FS2_IMG_ID && id != RAMDUMP_IMG_ID && id != USERDATA_IMG_ID
  {
  }

  /** The first entry of the new slot is its second file system, where the running slot has its first. */
  lemma HiddenStart(env: Env, f: seq<byte>)
    requires Find(f, env.active, FS1_IMG_ID).Some?
    ensures
      var h := HiddenTable(env, f);
      && h != [] && h[0].id == FS2_IMG_ID && h[0].Extent() == Find(f, env.active, FS1_IMG_ID).value.Extent()
      && (forall k :: 0 <= k < |h| ==> h[k].id != FS1_IMG_ID)
      && ((exists k :: 0 <= k < |h| && h[k].id == RAMDUMP_IMG_ID) <==> Find(f, env.active, RAMDUMP_IMG_ID).Some?)
      && ((exists k :: 0 <= k < |h| && h[k].id == USERDATA_IMG_ID) <==> Find(f, env.active, USERDATA_IMG_ID).Some?)
  {
    hide Find;
    FoundId(f, env.active, RAMDUMP_IMG_ID);
    FoundId(f, env.active, USERDATA_IMG_ID);
    var h, rd, ud := HiddenTable(env, f), Find(f, env.active, RAMDUMP_IMG_ID), Find(f, env.active, USERDATA_IMG_ID);
    if rd.Some? {
      assert h[1].id == RAMDUMP_IMG_ID;
    }
    if ud.Some? {
      assert h[|h| - 1].id == USERDATA_IMG_ID;
    }
  }

  lemma ListsExactly(table: seq<Entry>, id: uint32)
    ensures Lists(table, id) <==> exists k :: 0 <= k < |table| && table[k].id == id
  {
    if Lists(table, id) {
      assert table[IndexIn(table, id)].id == id;
    }
  }

  lemma NewTableFits(p: Plan, env: Env, f: seq<byte>, g: Geometry, s: State)
    requires Layout(p, env.mode, f, env.active) && Targets(env, f, g) && Installed(env, g, s)
    ensures TableFits(p, Area(p, env.mode, g.trial), s.table)
    ensures s.table != [] && s.table[0].id == FS2_IMG_ID && s.table[0].Extent() == g.fs1
    ensures Lists(s.table, FS1_IMG_ID) ==> s.table[IndexIn(s.table, FS1_IMG_ID)].Extent() == g.fs2
  {
    hide Find, SlotFits, TableOf, ImageSetEnd, Precedes, Area, PlanOk, HiddenTable, Installed, IndexIn, Layout, EntryFits, Select;
    ActiveInRange(p, env.mode, f, env.active);
    ActiveFits(p, env.mode, f, env.active);
    ReservedFound(p, env.mode, f, env.active);
    InstalledTableNotEmpty(env, g, s);
    forall k | 0 <= k < |s.table|
      ensures EntryFits(p, Area(p, env.mode, g.trial), s.table[k])
    {
      NewEntriesFit(p, env, f, g, s, k);
    }
    NewEntriesFit(p, env, f, g, s, 0);
    HiddenStart(env, f);
    assert s.table[0] == s.table[..s.hidden][0];
    ReservedListed(p, env, f, g, s);
    ListsExactly(s.table, FS2_IMG_ID);
    assert IndexIn(s.table, FS2_IMG_ID) == 0 by { FirstIndex(s.table, FS2_IMG_ID); }
    if Lists(s.table, FS1_IMG_ID) {
      NewEntriesFit(p, env, f, g, s, IndexIn(s.table, FS1_IMG_ID));
    }
  }

  lemma FirstIndex(table: seq<Entry>, id: uint32)
    requires table != [] && table[0].id == id
    ensures IndexIn(table, id) == 0
  {
  }

  lemma ActiveFits(p: Plan, mode: Mode, f: seq<byte>, active: nat)
    requires Layout(p, mode, f, active)
    ensures SlotFits(p, mode, f, active)
  {
    hide SlotFits, PlanOk, Precedes, TableOf, ImageSetEnd;
    assert Matters(f, active, active);
  }

  lemma InstalledTableNotEmpty(env: Env, g: Geometry, s: State)
    requires Installed(env, g, s) && Located(env, g)
    ensures s.table != [] && HoldsTable(s.flash, s.trial, s.table) && s.trial == g.trial && Frame(g, s.flash)
    ensures SlotAt(s.flash, s.trial).status == STATUS_VALID && Find(g.base, env.active, FS1_IMG_ID).Some?
  {
    hide Find, HoldsTable, Ordered, AllDone, FsCopied, SaneHeaders, ConfigCount, TotalImagesByte, GeometryOk, Frame, HiddenTable;
    HiddenStart(env, g.base);
    assert |s.table[..s.hidden]| == s.hidden;
  }

  /** The other reserved partitions are listed in the new slot exactly when they are in the running one. */
  lemma ReservedListed(p: Plan, env: Env, f: seq<byte>, g: Geometry, s: State)
    requires Layout(p, env.mode, f, env.active) && Targets(env, f, g) && Installed(env, g, s) && s.table != []
    ensures Lists(s.table, RAMDUMP_IMG_ID) <==> Find(f, env.active, RAMDUMP_IMG_ID).Some?
    ensures Lists(s.table, USERDATA_IMG_ID) <==> Find(f, env.active, USERDATA_IMG_ID).Some?
  {
    hide Find, HiddenTable, Installed, IndexIn, Layout, EntryFits, Select, Lists, Area;
    NewEntriesFit(p, env, f, g, s, 0);
    HiddenStart(env, f);
    ListsExactly(s.table, RAMDUMP_IMG_ID);
    ListsExactly(s.table, USERDATA_IMG_ID);
    var h := HiddenTable(env, f);
    forall k | 0 <= k < |s.table|
      ensures if k < |h| then s.table[k] == h[k] else s.table[k].id != RAMDUMP_IMG_ID && s.table[k].id != USERDATA_IMG_ID
    {
      NewEntriesFit(p, env, f, g, s, k);
    }
    assert |h| <= |s.table|;
    assert forall k :: 0 <= k < |h| ==> s.table[k] == h[k];
  }

  /** With two slots, the images of slot 0 lie before those of slot 1, whichever is new. */
  lemma NewTablePrecedes(p: Plan, env: Env, f: seq<byte>, g: Geometry, s: State)
    requires Layout(p, env.mode, f, env.active) && Targets(env, f, g) && Installed(env, g, s) && env.mode == TwoSlots
    ensures g.trial == 0 ==> Precedes(s.table, TableOf(f, 1))
    ensures g.trial == 1 ==> Precedes(TableOf(f, 0), s.table)
    ensures g.trial == 0 ==> ShortWithoutFs(p, s.table)
  {
    hide Find, SlotFits, TableOf, ImageSetEnd, PlanOk, HiddenTable, Installed, IndexIn, Layout, Select, Half, Reserved;
    ActiveInRange(p, env.mode, f, env.active);
    ActiveFits(p, env.mode, f, env.active);
    InstalledTableNotEmpty(env, g, s);
    TargetInRange(env.mode, f, env.active);
    ReservedEndPlaced(p, env.mode, f, env.active);
    TwoSlotRegion(p, f, env.active);
    SizeOk(p, env.mode);
    HalfFits(p.size, ReservedEnd(f, env.active));
    TablesFit(p, env.mode, f, env.active);
    forall k | 0 <= k < |s.table| && IsImage(s.table[k])
      ensures g.region.start <= s.table[k].start && s.table[k].End() <= EndOfExtent(g.region)
    {
      NewEntriesFit(p, env, f, g, s, k);
      NewImageInRegion(p, env, f, g, s, k);
    }
  }

  lemma NewImageInRegion(p: Plan, env: Env, f: seq<byte>, g: Geometry, s: State, k: nat)
    requires Layout(p, env.mode, f, env.active) && Targets(env, f, g) && Installed(env, g, s)
    requires k < |s.table| && IsImage(s.table[k])
    ensures g.region.start <= s.table[k].start && s.table[k].End() <= EndOfExtent(g.region)
  {
    hide Find, SlotFits, TableOf, Layout, Ordered, AllDone, FsCopied, SlotAt, HoldsTable, SaneHeaders, ConfigCount, TotalImagesByte,
      GeometryOk, Frame, Downloadable, Select, HiddenTable, ConfigChecked, SblDisk;
    NewEntriesFit(p, env, f, g, s, k);
    if k < s.hidden {
      HiddenNotImages(env, f, k);
    } else {
      DownloadedEntryFits(p, env, f, g, s, k - s.hidden);
    }
  }

  lemma HiddenNotImages(env: Env, f: seq<byte>, k: nat)
    requires k < |HiddenTable(env, f)|
    ensures !IsImage(HiddenTable(env, f)[k])
  {
    hide Find;
    FoundId(f, env.active, RAMDUMP_IMG_ID);
    FoundId(f, env.active, USERDATA_IMG_ID);
  }

  lemma TablesFit(p: Plan, mode: Mode, f: seq<byte>, active: nat)
    requires Layout(p, mode, f, active)
    ensures forall k :: 0 <= k < |TableOf(f, active)| ==> EntryFits(p, Area(p, mode, active), TableOf(f, active)[k])
  {
    hide PlanOk, Precedes, TableOf, ImageSetEnd, EntryFits, HoldsTable;
    ActiveFits(p, mode, f, active);
  }

  /** A completed upgrade keeps the layout. */
  lemma CompletedKeeps(p: Plan, env: Env, f: seq<byte>, s: State)
    requires Layout(p, env.mode, f, env.active) && Completed(env, f, s)
    ensures Layout(p, env.mode, s.flash, env.active)
  {
    hide SlotFits, Find, ImageSetEnd, Select, PlanOk, Precedes, Installed, TableFits, HoldsTable, TableOf, Layout, SameEntries, SlotAt,
      ShortWithoutFs;
    var g: Geometry :| Targets(env, f, g) && Installed(env, g, s);
    ActiveInRange(p, env.mode, f, env.active);
    InstalledTableNotEmpty(env, g, s);
    OtherDescriptorsUntouched(p, env, f, g, s.flash, env.active);
    forall i | 0 <= i < SlotCount(env.mode) && i != g.trial
      ensures SameEntries(f, s.flash, i) && SlotAt(s.flash, i) == SlotAt(f, i)
    {
      OtherDescriptorsUntouched(p, env, f, g, s.flash, i);
    }
    NewTableFits(p, env, f, g, s);
    TableOfHeld(s.flash, g.trial, s.table);
    assert SlotFits(p, env.mode, s.flash, g.trial) by { FitsByTable(p, env.mode, s.flash, g.trial); }
    if env.mode == TwoSlots {
      NewTablePrecedes(p, env, f, g, s);
    }
    NewSlotKeeps(p, env.mode, f, env.active, s.flash, g.trial);
  }

  lemma FitsByTable(p: Plan, mode: Mode, f: seq<byte>, slot: nat)
    requires HoldsTable(f, slot, TableOf(f, slot)) && TableFits(p, Area(p, mode, slot), TableOf(f, slot))
    ensures SlotFits(p, mode, f, slot)
  {
  }

  /** Replacing one slot by another that fits keeps the layout. */
  lemma NewSlotKeeps(p: Plan, mode: Mode, f: seq<byte>, active: nat, f': seq<byte>, slot: nat)
    requires Layout(p, mode, f, active) && |f'| == |f| && slot != active && slot < SlotCount(mode) && SlotFits(p, mode, f', slot)
    requires forall i :: 0 <= i < SlotCount(mode) && i != slot ==> SameEntries(f, f', i) && SlotAt(f', i) == SlotAt(f, i)
    requires mode == GoldenPlusTwo ==> slot != 0
    requires mode == TwoSlots && slot == 0 ==> Precedes(TableOf(f', 0), TableOf(f, 1))
    requires mode == TwoSlots && slot == 1 ==> Precedes(TableOf(f, 0), TableOf(f', 1))
    requires mode == TwoSlots && slot == 0 ==> ShortWithoutFs(p, TableOf(f', 0))
    ensures Layout(p, mode, f', active)
  {
    hide SlotFits, SlotAt, TableOf, ImageSetEnd, PlanOk, SameEntries, Precedes, ShortWithoutFs;
    forall i | 0 <= i < SlotCount(mode) && i != slot && Matters(f', active, i)
      ensures SlotFits(p, mode, f', i) && TableOf(f', i) == TableOf(f, i)
    {
      SlotStillFits(p, mode, f, f', i);
    }
    if mode == GoldenPlusTwo {
      SlotStillFits(p, mode, f, f', 0);
      ImageSetEndSame(f, f', 0);
    }
  }

  // Acceptance, rejection, reboot

  /** Writing rank or status bytes, without making a slot valid, keeps the layout. */
  lemma HeaderWriteKeeps(p: Plan, mode: Mode, f: seq<byte>, active: nat, f': seq<byte>, slot: nat, a: nat, n: nat)
    requires Layout(p, mode, f, active) && SameOutside(f, f', a, n)
    requires InfoAddr(slot, Rank) <= a && a + n <= InfoAddr(slot, TotalImages)
    requires Cell(f', InfoAddr(slot, Status)) == STATUS_VALID ==> Cell(f, InfoAddr(slot, Status)) == STATUS_VALID
    ensures Layout(p, mode, f', active)
  {
    hide SlotFits, TableOf, ImageSetEnd, PlanOk, Precedes, Word, Layout;
    ActiveInRange(p, mode, f, active);
    forall i | 0 <= i < SlotCount(mode)
      ensures SameEntries(f, f', i) && SlotAt(f', i).magic == SlotAt(f, i).magic && SlotAt(f', i).total == SlotAt(f, i).total
      ensures SlotAt(f', i).status == STATUS_VALID ==> SlotAt(f, i).status == STATUS_VALID
    {
      SameWord(f, f', InfoAddr(i, Magic));
    }
    LayoutKept(p, mode, f, active, f', active);
  }

  /** Any part of a rank keeps the layout. */
  lemma RankWriteKeeps(p: Plan, mode: Mode, f: seq<byte>, active: nat, f': seq<byte>, slot: nat, rank: uint32)
    requires Layout(p, mode, f, active) && PartlyWritten(f, f', InfoAddr(slot, Rank), Le32(rank))
    ensures Layout(p, mode, f', active)
  {
    hide Le32, And, Layout;
    HeaderWriteKeeps(p, mode, f, active, f', slot, InfoAddr(slot, Rank), 4);
  }

  lemma PromotedKeeps(p: Plan, mode: Mode, f: seq<byte>, active: nat)
    requires Layout(p, mode, f, active)
    ensures Layout(p, mode, Promoted(mode, f), active)
  {
    hide ScanSlots, Le32, Layout, PartlyWritten, Programmed;
    var r := ScanSlots(mode, Slots(f));
    WholeOrNothing(f, InfoAddr(r.trial, Rank), Le32(U32(r.rank + 1)));
    RankWriteKeeps(p, mode, f, active, Promoted(mode, f), r.trial, U32(r.rank + 1));
  }

  /** Clearing a status byte keeps the layout. */
  lemma RetiredKeeps(p: Plan, mode: Mode, f: seq<byte>, active: nat, slot: nat)
    requires Layout(p, mode, f, active)
    ensures Layout(p, mode, Programmed(f, InfoAddr(slot, Status), [STATUS_INVALID]), active)
  {
    hide Layout, And;
    AnythingTakesZero(Cell(f, InfoAddr(slot, Status)));
    HeaderWriteKeeps(p, mode, f, active, Programmed(f, InfoAddr(slot, Status), [STATUS_INVALID]), slot, InfoAddr(slot, Status), 1);
  }

  lemma AcceptedKeeps(p: Plan, mode: Mode, f: seq<byte>, active: nat, f': seq<byte>)
    requires Layout(p, mode, f, active) && AcceptLeaves(mode, f, f')
    ensures Layout(p, mode, f', active)
  {
    hide ScanSlots, Le32, Layout, PartlyWritten, Programmed, Promoted;
    var r := ScanSlots(mode, Slots(f));
    if PartlyWritten(f, f', InfoAddr(r.trial, Rank), Le32(U32(r.rank + 1))) {
      RankWriteKeeps(p, mode, f, active, f', r.trial, U32(r.rank + 1));
    } else {
      PromotedKeeps(p, mode, f, active);
      RetiredKeeps(p, mode, Promoted(mode, f), active, r.current);
    }
  }

  lemma RejectedKeeps(p: Plan, mode: Mode, f: seq<byte>, active: nat, f': seq<byte>)
    requires Layout(p, mode, f, active) && RejectLeaves(mode, f, f')
    ensures Layout(p, mode, f', active)
  {
    hide ScanSlots, Le32, Layout, PartlyWritten, Programmed;
    if f' != f {
      RetiredKeeps(p, mode, f, active, ScanSlots(mode, Slots(f)).trial);
      RankWriteKeeps(p, mode, Dismissed(mode, f), active, f', ScanSlots(mode, Slots(f)).trial, 1);
    }
  }

  /** Booting a bootable slot keeps the layout. */
  lemma RebootKeeps(p: Plan, mode: Mode, f: seq<byte>, active: nat, active': nat)
    requires Layout(p, mode, f, active) && active' < SlotCount(mode) && SlotAt(f, active').Bootable()
    ensures Layout(p, mode, f, active')
  {
    hide SlotFits, SlotAt, TableOf, ImageSetEnd, PlanOk, Precedes;
  }

  lemma DataWriteKeeps(p: Plan, mode: Mode, f: seq<byte>, active: nat, f': seq<byte>)
    requires Layout(p, mode, f, active) && SameCells(f, f', 0, MAX_FWD * BLOCK_SIZE) && |f'| == |f|
    ensures Layout(p, mode, f', active)
  {
    hide Layout, FindFrom, SlotAt, EntryAt;
    ActiveInRange(p, mode, f, active);
    forall i | 0 <= i < MAX_FWD
      ensures SameEntries(f, f', i) && SlotAt(f', i) == SlotAt(f, i)
    {
      SameFind(f, f', i, 0);
    }
    LayoutKept(p, mode, f, active, f', active);
  }

  // Histories

  lemma EventKeepsLayout(p: Plan, mode: Mode, d: Device, d': Device)
    requires Layout(p, mode, d.f, d.active) && Happens(mode, d, d')
    ensures Layout(p, mode, d'.f, d'.active)
  {
    hide Layout, CutOff, Completed, AcceptLeaves, RejectLeaves, CanReject, SlotAt;
    if SessionIsCutOff(mode, d, d') {
      var env: Env :| env.mode == mode && env.active == d.active && CutOff(env, d.f, d'.f);
      CutOffKeeps(p, env, d.f, d'.f);
    } else if env: Env, s: State :| SessionCompletes(mode, d, d', env, s) {
      CompletedKeeps(p, env, d.f, s);
    } else if IsAccepted(mode, d, d') {
      AcceptedKeeps(p, mode, d.f, d.active, d'.f);
    } else if IsRejected(mode, d, d') {
      RejectedKeeps(p, mode, d.f, d.active, d'.f);
    } else if Reboots(mode, d, d') {
      RebootKeeps(p, mode, d.f, d.active, d'.active);
    } else {
      DataWriteKeeps(p, mode, d.f, d.active, d'.f);
    }
  }

  ghost predicate History(mode: Mode, h: seq<Device>) {
    h != [] && forall k :: 0 <= k < |h| - 1 ==> Happens(mode, h[k], h[k + 1])
  }

  lemma EventCostsOneHandle(mode: Mode, d: Device, d': Device)
    requires Happens(mode, d, d')
    ensures d'.free + 1 >= d.free || d'.free == MAX_HANDLES
  {
    hide CutOff, Completed, AcceptLeaves, RejectLeaves, CanReject, CanAccept, SlotAt;
  }

  /** From a full pool on, eight events leave the two handles the next session needs. */
  lemma {:induction false} HandlesLast(mode: Mode, h: seq<Device>)
    requires History(mode, h) && h[0].free == MAX_HANDLES
    ensures h[|h| - 1].free + |h| - 1 >= MAX_HANDLES
    decreases |h|
  {
    hide Happens;
    if |h| > 1 {
      HandlesLast(mode, h[..|h| - 1]);
      EventCostsOneHandle(mode, h[|h| - 2], h[|h| - 1]);
    }
  }

  /** Over any history the layout holds, so the next session, whatever it is, starts from a usable geometry. */
  lemma {:induction false} LayoutForever(p: Plan, mode: Mode, h: seq<Device>)
    requires History(mode, h) && Layout(p, mode, h[0].f, h[0].active)
    ensures
      var d := h[|h| - 1];
      && Layout(p, mode, d.f, d.active)
      && forall env: Env :: env.mode == mode && env.active == d.active ==> Ready(env, d.f)
    decreases |h|
  {
    hide Layout, Happens, Ready;
    var d := h[|h| - 1];
    if |h| > 1 {
      var before := h[..|h| - 1];
      LayoutForever(p, mode, before);
      EventKeepsLayout(p, mode, h[|h| - 2], d);
    }
    forall env: Env | env.mode == mode && env.active == d.active
      ensures Ready(env, d.f)
    {
      LayoutReady(p, env, d.f);
    }
  }
}
