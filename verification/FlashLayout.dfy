/**
 Where things lie on the flash, over any history of upgrades: the reserved partitions stay in place (the two
 file systems swap roles), each slot's images keep to the slot's own area, and the region handed to the next
 upgrade never overlaps anything that is still needed.
 */
module FlashLayout {
  import opened Bytes
  import opened NorFlash
  import opened Descriptor
  import opened SlotSelection
  import opened UpgradeSpec
  import opened SessionInvariant

  /** What a device is provisioned with: two file system areas, the other reserved partitions, the size of the
      flash and, with a golden slot, where its images end. */
  datatype Plan = Plan(fsA: Extent, fsB: Extent, ramdump: Option<Extent>, userdata: Option<Extent>, size: nat, goldenEnd: nat)

  function EndOfExtent(e: Extent): nat {
    e.start + e.size
  }

  function Max(a: nat, b: nat): nat {
    if a < b then b else a
  }

  function EndOfOption(e: Option<Extent>): nat {
    if e.Some? then EndOfExtent(e.value) else 0
  }

  /** Where the images may start. */
  function Reserved(p: Plan): nat {
    Max(MAX_FWD * BLOCK_SIZE, Max(Max(EndOfExtent(p.fsA), EndOfExtent(p.fsB)), Max(EndOfOption(p.ramdump), EndOfOption(p.userdata))))
  }

  /** Half of the whole blocks from `start` on, in bytes. */
  function Half(size: nat, start: nat): nat {
    if start <= size then (size - start) / BLOCK_SIZE / 2 * BLOCK_SIZE else 0
  }

  predicate Placed(e: Extent) {
    e.start % BLOCK_SIZE == 0 && e.size % BLOCK_SIZE == 0 && 0 < e.size && MAX_FWD * BLOCK_SIZE <= e.start
  }

  predicate DisjointOption(a: Extent, b: Option<Extent>) {
    b.Some? ==> Disjoint(a, b.value)
  }

  predicate PlanOk(p: Plan, mode: Mode) {
    && Placed(p.fsA) && Placed(p.fsB) && (p.ramdump.Some? ==> Placed(p.ramdump.value)) && (p.userdata.Some? ==> Placed(p.userdata.value))
    && Disjoint(p.fsA, p.fsB) && DisjointOption(p.fsA, p.ramdump) && DisjointOption(p.fsB, p.ramdump)
    && DisjointOption(p.fsA, p.userdata) && DisjointOption(p.fsB, p.userdata)
    && (p.ramdump.Some? ==> DisjointOption(p.ramdump.value, p.userdata))
    && p.size % BLOCK_SIZE == 0 && p.size < TWO_TO_THE_32 && Reserved(p) + 2 * BLOCK_SIZE <= p.size
    && (mode == GoldenPlusTwo ==> Reserved(p) <= p.goldenEnd <= p.size && p.goldenEnd % BLOCK_SIZE == 0)
  }

  /** A stretch of flash between two addresses. */
  datatype Bounds = Bounds(from: int, to: int) {
    predicate Holds(e: Extent) {
      from <= e.start && EndOfExtent(e) <= to
    }
  }

  /** The area a slot's images keep to.  With two slots the images slot 0 was provisioned with may reach
      beyond its half, but not beyond the other one: an odd last block stays unused. */
  function Area(p: Plan, mode: Mode, slot: nat): Bounds {
    match mode
    case TwoSlots =>
      var half := Half(p.size, Reserved(p));
      if slot == 0 then Bounds(Reserved(p), Reserved(p) + 2 * half) else Bounds(Reserved(p) + half, p.size)
    case GoldenPlusTwo =>
      if slot == 0 then Bounds(Reserved(p), p.goldenEnd)
      else
        var half := Half(p.size, p.goldenEnd);
        Bounds(p.goldenEnd + (slot - 1) * half, p.goldenEnd + slot * half)
  }

  predicate IsReservedId(id: uint32) {
    id == FS1_IMG_ID || id == FS2_IMG_ID || id == RAMDUMP_IMG_ID || id == USERDATA_IMG_ID
  }

  /** Entries for images in the slot's area. */
  predicate IsImage(e: Entry) {
    !IsReservedId(e.id) && e.id != SBL_IMG_ID
  }

  predicate EntryFits(p: Plan, area: Bounds, e: Entry) {
    && ((e.id == FS1_IMG_ID || e.id == FS2_IMG_ID) ==> e.Extent() == p.fsA || e.Extent() == p.fsB)
    && (e.id == RAMDUMP_IMG_ID ==> p.ramdump == Some(e.Extent()))
    && (e.id == USERDATA_IMG_ID ==> p.userdata == Some(e.Extent()))
    && (IsImage(e) ==> e.start % BLOCK_SIZE == 0 && e.size % BLOCK_SIZE == 0 && area.Holds(e.Extent()))
  }

  predicate Lists(table: seq<Entry>, id: uint32) {
    IndexIn(table, id) < |table|
  }

  /** A complete table: a second file system, at most one first one in the other area, the reserved partitions,
      and images in the slot's area. */
  ghost predicate TableFits(p: Plan, area: Bounds, table: seq<Entry>) {
    && (forall k :: 0 <= k < |table| ==> EntryFits(p, area, table[k]))
    && Lists(table, FS2_IMG_ID)
    && (Lists(table, FS1_IMG_ID) ==> table[IndexIn(table, FS1_IMG_ID)].Extent() != table[IndexIn(table, FS2_IMG_ID)].Extent())
    && (Lists(table, RAMDUMP_IMG_ID) <==> p.ramdump.Some?) && (Lists(table, USERDATA_IMG_ID) <==> p.userdata.Some?)
  }

  /** The used entries of a slot. */
  function TableOf(f: seq<byte>, fwd: nat): seq<Entry> {
    seq(FindIndex(f, fwd, IMAGE_UNUSED), k requires 0 <= k => EntryAt(f, fwd, k))
  }

  lemma TableOfHeld(f: seq<byte>, fwd: nat, table: seq<Entry>)
    requires HoldsTable(f, fwd, table)
    ensures TableOf(f, fwd) == table
  {
    hide EntryAt, FindIndex;
    FirstUnused(f, fwd, table);
  }

  ghost predicate SlotFits(p: Plan, mode: Mode, f: seq<byte>, slot: nat) {
    HoldsTable(f, slot, TableOf(f, slot)) && TableFits(p, Area(p, mode, slot), TableOf(f, slot))
  }

  function SlotCount(mode: Mode): nat {
    if mode == TwoSlots then 2 else 3
  }

  /** A slot that runs, or that may be booted. */
  predicate Matters(f: seq<byte>, active: nat, slot: nat) {
    slot == active || SlotAt(f, slot).status == STATUS_VALID
  }

  /** All images of the first table lie before those of the second. */
  ghost predicate Precedes(a: seq<Entry>, b: seq<Entry>) {
    forall j, k :: 0 <= j < |a| && 0 <= k < |b| && IsImage(a[j]) && IsImage(b[k]) ==> a[j].End() <= b[k].start
  }

  /** A slot without a first file system, from which no upgrade will start, leaves the last block alone. */
  ghost predicate ShortWithoutFs(p: Plan, table: seq<Entry>) {
    Lists(table, FS1_IMG_ID) || forall k :: 0 <= k < |table| && IsImage(table[k]) ==> table[k].End() <= p.size - BLOCK_SIZE
  }

  ghost predicate Layout(p: Plan, mode: Mode, f: seq<byte>, active: nat) {
    && PlanOk(p, mode) && |f| == p.size && active < SlotCount(mode)
    && (forall i :: 0 <= i < SlotCount(mode) && Matters(f, active, i) ==> SlotFits(p, mode, f, i))
    && (mode == TwoSlots && Matters(f, active, 0) && Matters(f, active, 1) ==> Precedes(TableOf(f, 0), TableOf(f, 1)))
    && (mode == TwoSlots && Matters(f, active, 0) ==> ShortWithoutFs(p, TableOf(f, 0)))
    && (mode == GoldenPlusTwo ==> SlotFits(p, mode, f, 0) && ImageSetEnd(f, 0) == Some(p.goldenEnd))
  }

  // What the selection makes of a fitting slot

  lemma ReservedPlaced(p: Plan, mode: Mode)
    requires PlanOk(p, mode)
    ensures Reserved(p) % BLOCK_SIZE == 0 && MAX_FWD * BLOCK_SIZE <= Reserved(p)
    ensures EndOfExtent(p.fsA) <= Reserved(p) && EndOfExtent(p.fsB) <= Reserved(p)
    ensures EndOfOption(p.ramdump) <= Reserved(p) && EndOfOption(p.userdata) <= Reserved(p)
  {
    hide Disjoint;
    EndsAligned(p, mode);
    assert MAX_FWD * BLOCK_SIZE % BLOCK_SIZE == 0;
  }

  lemma EndsAligned(p: Plan, mode: Mode)
    requires PlanOk(p, mode)
    ensures EndOfExtent(p.fsA) % BLOCK_SIZE == 0 && EndOfExtent(p.fsB) % BLOCK_SIZE == 0
    ensures EndOfOption(p.ramdump) % BLOCK_SIZE == 0 && EndOfOption(p.userdata) % BLOCK_SIZE == 0
  {
    hide Disjoint, Reserved;
    SumAligned(p.fsA);
    SumAligned(p.fsB);
    if p.ramdump.Some? { SumAligned(p.ramdump.value); }
    if p.userdata.Some? { SumAligned(p.userdata.value); }
  }

  lemma SumAligned(e: Extent)
    requires Placed(e)
    ensures EndOfExtent(e) % BLOCK_SIZE == 0
  {
  }

  /** The running maximum over the ends of the reserved partitions, `x1` and `x2` being those of the file systems. */
  lemma MaxOfEnds(p: Plan, mode: Mode, x1: nat, x2: nat)
    requires PlanOk(p, mode)
    requires x1 == 0 || x1 == EndOfExtent(p.fsA) || x1 == EndOfExtent(p.fsB)
    requires x2 == EndOfExtent(p.fsA) || x2 == EndOfExtent(p.fsB)
    ensures
      var r := Max(MAX_FWD * BLOCK_SIZE, Max(Max(Max(Max(0, x1), x2), EndOfOption(p.ramdump)), EndOfOption(p.userdata)));
      && MAX_FWD * BLOCK_SIZE <= r <= Reserved(p) && r % BLOCK_SIZE == 0
      && x1 <= r && x2 <= r && EndOfOption(p.ramdump) <= r && EndOfOption(p.userdata) <= r
      && (x1 != 0 && (x1 == x2 ==> EndOfExtent(p.fsA) == EndOfExtent(p.fsB)) ==> r == Reserved(p))
  {
    EndsAligned(p, mode);
    hide PlanOk, EndOfExtent, EndOfOption;
    assert MAX_FWD * BLOCK_SIZE % BLOCK_SIZE == 0;
  }

  /** The reserved partitions of a fitting slot, as the code finds them. */
  lemma ReservedFound(p: Plan, mode: Mode, f: seq<byte>, slot: nat)
    requires PlanOk(p, mode) && slot < MAX_FWD && SlotFits(p, mode, f, slot)
    ensures
      var fs1, fs2 := Find(f, slot, FS1_IMG_ID), Find(f, slot, FS2_IMG_ID);
      && fs2.Some? && (fs2.value.Extent() == p.fsA || fs2.value.Extent() == p.fsB)
      && (fs1.Some? ==> fs1.value.Extent() != fs2.value.Extent() && (fs1.value.Extent() == p.fsA || fs1.value.Extent() == p.fsB))
    ensures ExtentOption(Find(f, slot, RAMDUMP_IMG_ID)) == p.ramdump && ExtentOption(Find(f, slot, USERDATA_IMG_ID)) == p.userdata
  {
    hide EntryAt, FindFrom, IndexIn, Area, PlanOk, HoldsTable;
    var t := TableOf(f, slot);
    FindInTable(f, slot, t, FS1_IMG_ID);
    FindInTable(f, slot, t, FS2_IMG_ID);
    FindInTable(f, slot, t, RAMDUMP_IMG_ID);
    FindInTable(f, slot, t, USERDATA_IMG_ID);
    assert EntryFits(p, Area(p, mode, slot), t[IndexIn(t, FS2_IMG_ID)]);
  }

  function ExtentOption(e: Option<Entry>): Option<Extent> {
    if e.Some? then Some(e.value.Extent()) else None
  }

  lemma EndOfFound(f: seq<byte>, slot: nat, id: uint32, atLeast: uint32, limit: nat)
    requires limit < TWO_TO_THE_32 && EndOfOption(ExtentOption(Find(f, slot, id))) <= limit
    ensures EndOf(f, slot, id, atLeast) == Max(atLeast, EndOfOption(ExtentOption(Find(f, slot, id))))
  {
    hide Find;
  }

  /** The reserved area ends where the plan says, unless the first file system is missing. */
  lemma ReservedEndPlaced(p: Plan, mode: Mode, f: seq<byte>, slot: nat)
    requires PlanOk(p, mode) && slot < MAX_FWD && SlotFits(p, mode, f, slot)
    ensures
      var r := ReservedEnd(f, slot);
      && MAX_FWD * BLOCK_SIZE <= r <= Reserved(p) && r % BLOCK_SIZE == 0
      && EndOfOption(ExtentOption(Find(f, slot, FS2_IMG_ID))) <= r && EndOfOption(ExtentOption(Find(f, slot, FS1_IMG_ID))) <= r
      && EndOfOption(p.ramdump) <= r && EndOfOption(p.userdata) <= r
      && (Find(f, slot, FS1_IMG_ID).Some? ==> r == Reserved(p))
  {
    hide Find, SlotFits, EndOf, Max, Reserved, PlanOk;
    ReservedFound(p, mode, f, slot);
    ReservedPlaced(p, mode);
    var x1, x2 := EndOfOption(ExtentOption(Find(f, slot, FS1_IMG_ID))), EndOfOption(ExtentOption(Find(f, slot, FS2_IMG_ID)));
    var e1 := EndOf(f, slot, FS1_IMG_ID, 0);
    BelowLimit(p, mode);
    EndOfFound(f, slot, FS1_IMG_ID, 0, Reserved(p));
    var e2 := EndOf(f, slot, FS2_IMG_ID, e1);
    EndOfFound(f, slot, FS2_IMG_ID, e1, Reserved(p));
    var e3 := EndOf(f, slot, RAMDUMP_IMG_ID, e2);
    EndOfFound(f, slot, RAMDUMP_IMG_ID, e2, Reserved(p));
    EndOfFound(f, slot, USERDATA_IMG_ID, e3, Reserved(p));
    MaxOfEnds(p, mode, x1, x2);
    MaxIs(MAX_FWD * BLOCK_SIZE, EndOf(f, slot, USERDATA_IMG_ID, e3));
    DifferentAreas(p, mode);
  }

  lemma MaxIs(a: nat, b: nat)
    ensures Max(a, b) == if a > b then a else b
  {
  }

  lemma BelowLimit(p: Plan, mode: Mode)
    requires PlanOk(p, mode)
    ensures Reserved(p) < TWO_TO_THE_32 && 0 < EndOfExtent(p.fsA) && 0 < EndOfExtent(p.fsB)
  {
    hide Reserved, Disjoint;
  }

  lemma DifferentAreas(p: Plan, mode: Mode)
    requires PlanOk(p, mode)
    ensures EndOfExtent(p.fsA) != EndOfExtent(p.fsB)
  {
    hide Reserved;
  }

  lemma HalfFits(size: nat, start: nat)
    requires start % BLOCK_SIZE == 0 && size % BLOCK_SIZE == 0 && start <= size < TWO_TO_THE_32
    ensures HalfRegion(size, start) == Half(size, start) && Half(size, start) % BLOCK_SIZE == 0
    ensures size - BLOCK_SIZE <= start + 2 * Half(size, start) <= size
    ensures start + 2 * BLOCK_SIZE <= size ==> BLOCK_SIZE <= Half(size, start) && start + Half(size, start) <= size - BLOCK_SIZE
  {
    var q := (size - start) / BLOCK_SIZE;
    assert size - start == q * BLOCK_SIZE;
  }

  /** The lower half of what is left ends no later if it starts earlier. */
  lemma LowerHalfEndsLower(size: nat, r: nat, q: nat)
    requires r % BLOCK_SIZE == 0 && q % BLOCK_SIZE == 0 && size % BLOCK_SIZE == 0 && r <= q <= size
    ensures r + Half(size, r) <= q + Half(size, q)
  {
    var a, b := (size - r) / BLOCK_SIZE, (size - q) / BLOCK_SIZE;
    assert size - r == a * BLOCK_SIZE && size - q == b * BLOCK_SIZE;
    assert b - b / 2 <= a - a / 2;
  }

  lemma WholeBlocks(a: int, b: int)
    requires a % BLOCK_SIZE == 0 && b % BLOCK_SIZE == 0
    ensures (a + b) % BLOCK_SIZE == 0 && (a - b) % BLOCK_SIZE == 0
  {
  }

  /** The areas are inside the flash, whole blocks, after the reserved partitions. */
  lemma AreaPlaced(p: Plan, mode: Mode, slot: nat)
    requires PlanOk(p, mode) && slot < SlotCount(mode)
    ensures
      var a := Area(p, mode, slot);
      Reserved(p) <= a.from <= a.to <= p.size && a.from % BLOCK_SIZE == 0 && a.to % BLOCK_SIZE == 0
  {
    hide PlanOk, Reserved, Half, HalfRegion;
    ReservedPlaced(p, mode);
    SizeOk(p, mode);
    if mode == TwoSlots {
      HalfFits(p.size, Reserved(p));
      WholeBlocks(Reserved(p), Half(p.size, Reserved(p)));
      WholeBlocks(Reserved(p) + Half(p.size, Reserved(p)), Half(p.size, Reserved(p)));
    } else if slot != 0 {
      var half := Half(p.size, p.goldenEnd);
      HalfFits(p.size, p.goldenEnd);
      WholeBlocks(p.goldenEnd, half);
      WholeBlocks(p.goldenEnd + half, half);
      assert slot == 1 || slot == 2;
      assert (slot - 1) * half == if slot == 1 then 0 else half;
      assert slot * half == if slot == 1 then half else half + half;
    }
  }

  lemma SizeOk(p: Plan, mode: Mode)
    requires PlanOk(p, mode)
    ensures p.size % BLOCK_SIZE == 0 && p.size < TWO_TO_THE_32 && Reserved(p) + 2 * BLOCK_SIZE <= p.size
    ensures mode == GoldenPlusTwo ==> Reserved(p) <= p.goldenEnd <= p.size && p.goldenEnd % BLOCK_SIZE == 0
  {
    hide Reserved, Disjoint;
  }

  lemma EntryEnd(p: Plan, mode: Mode, slot: nat, e: Entry)
    requires PlanOk(p, mode) && slot < SlotCount(mode) && EntryFits(p, Area(p, mode, slot), e) && e.id != SBL_IMG_ID
    ensures e.End() % BLOCK_SIZE == 0 && e.End() < TWO_TO_THE_32
    ensures e.End() <= if IsImage(e) then Area(p, mode, slot).to else Reserved(p)
  {
    hide PlanOk, Reserved, Area, Half;
    ReservedPlaced(p, mode);
    EndsAligned(p, mode);
    SizeOk(p, mode);
    AreaPlaced(p, mode, slot);
    if IsImage(e) {
      WholeBlocks(e.start, e.size);
    }
  }

  /** The image set of a fitting slot 0 ends on a block boundary inside its area or the reserved partitions. */
  lemma ImageSetEndFits(p: Plan, mode: Mode, f: seq<byte>)
    requires PlanOk(p, mode) && SlotFits(p, mode, f, 0) && ImageSetEnd(f, 0).Some?
    ensures
      var end, table := ImageSetEnd(f, 0).value, TableOf(f, 0);
      && end % BLOCK_SIZE == 0 && (end <= Reserved(p) || end <= Area(p, mode, 0).to)
      && forall k :: 0 <= k < |table| && IsImage(table[k]) ==> table[k].End() <= end
  {
    hide HoldsTable, TableOf, WalkEnd, ImageSetEnd, IndexIn, Area, PlanOk, Reserved, EntryFits;
    var table := TableOf(f, 0);
    ImageSetEndIsMaximum(f, 0, table);
    forall k | 0 <= k < |table| && table[k].id != SBL_IMG_ID
      ensures table[k].End() % BLOCK_SIZE == 0 && table[k].End() < TWO_TO_THE_32
      ensures table[k].End() <= if IsImage(table[k]) then Area(p, mode, 0).to else Reserved(p)
    {
      EntryEnd(p, mode, 0, table[k]);
    }
  }

  /** Without a first file system, the image set of slot 0 ends before the last block. */
  lemma ImageSetEndShort(p: Plan, f: seq<byte>)
    requires PlanOk(p, TwoSlots) && SlotFits(p, TwoSlots, f, 0) && ImageSetEnd(f, 0).Some?
    requires ShortWithoutFs(p, TableOf(f, 0)) && Find(f, 0, FS1_IMG_ID) == None
    ensures ImageSetEnd(f, 0).value <= p.size - BLOCK_SIZE
  {
    hide HoldsTable, TableOf, WalkEnd, ImageSetEnd, IndexIn, Area, PlanOk, Reserved, EntryFits, Find;
    var table := TableOf(f, 0);
    FindInTable(f, 0, table, FS1_IMG_ID);
    ImageSetEndIsMaximum(f, 0, table);
    SizeOk(p, TwoSlots);
    forall k | 0 <= k < |table| && table[k].id != SBL_IMG_ID
      ensures table[k].End() <= p.size - BLOCK_SIZE && table[k].End() < TWO_TO_THE_32
    {
      EntryEnd(p, TwoSlots, 0, table[k]);
    }
  }

  // The region for the next upgrade

  /** The region of two-slot mode: the slot's half, or what is left of it behind the images of slot 0. */
  lemma TwoSlotRegion(p: Plan, f: seq<byte>, active: nat)
    requires Layout(p, TwoSlots, f, active) && Select(TwoSlots, f, active).Some?
    requires Select(TwoSlots, f, active).value.fwd != active
    ensures
      var sel, r := Select(TwoSlots, f, active).value, ReservedEnd(f, active);
      && sel.fwd < 2 && r <= sel.region.start && sel.region.start % BLOCK_SIZE == 0 && sel.region.size % BLOCK_SIZE == 0
      && EndOfExtent(sel.region) <= r + (if sel.fwd == 0 then Half(p.size, r) else 2 * Half(p.size, r)) <= p.size
      && (sel.fwd == 1 ==>
            && r + Half(p.size, r) <= sel.region.start
            && forall k :: 0 <= k < |TableOf(f, 0)| && IsImage(TableOf(f, 0)[k]) ==> TableOf(f, 0)[k].End() <= sel.region.start)
  {
    hide SlotFits, ImageSetEnd, ReservedEnd, Select, TableOf, Reserved, Half, HalfRegion, Precedes, PlanOk, PushBack, IsImage,
      ShortWithoutFs, Find;
    ReservedEndPlaced(p, TwoSlots, f, active);
    SizeOk(p, TwoSlots);
    var r := ReservedEnd(f, active);
    var half := Half(p.size, r);
    HalfFits(p.size, r);
    SelectedHalf(f, active);
    if Select(TwoSlots, f, active).value.fwd == 1 {
      assert active == 0 && SlotFits(p, TwoSlots, f, 0) && ShortWithoutFs(p, TableOf(f, 0));
      ImageSetEndFits(p, TwoSlots, f);
      if Find(f, 0, FS1_IMG_ID) == None {
        ImageSetEndShort(p, f);
      }
      PushedBack(r, half, ImageSetEnd(f, 0).value, p.size);
    }
  }

  /** Two-slot selection without wrap-around. */
  lemma SelectedHalf(f: seq<byte>, active: nat)
    requires Select(TwoSlots, f, active).Some? && ReservedEnd(f, active) + 2 * HalfRegion(|f|, ReservedEnd(f, active)) < TWO_TO_THE_32
    ensures
      var sel, r := Select(TwoSlots, f, active).value, ReservedEnd(f, active);
      var half := HalfRegion(|f|, r);
      && sel.fwd < 2
      && (sel.fwd == 0 ==> sel.region == Extent(r, half))
      && (sel.fwd == 1 ==> ImageSetEnd(f, 0).Some? && sel.region == PushBack(Extent(r + half, half), ImageSetEnd(f, 0).value))
  {
    hide ImageSetEnd, ReservedEnd, ScanSlots, HalfRegion, PushBack;
  }

  lemma PushedBack(r: uint32, half: nat, end: uint32, size: nat)
    requires r % BLOCK_SIZE == 0 && half % BLOCK_SIZE == 0 && end % BLOCK_SIZE == 0
    requires end <= r + 2 * half <= size < TWO_TO_THE_32
    ensures
      var e := PushBack(Extent(r + half, half), end);
      && e.start % BLOCK_SIZE == 0 && e.size % BLOCK_SIZE == 0 && r + half <= e.start && end <= e.start
      && EndOfExtent(e) == r + 2 * half
  {
    WholeBlocks(r, half);
    WholeBlocks(r + half, half);
    WholeBlocks(r + half + half, end);
  }

  /** Whatever is on the flash, the region selected for slot 1 lies inside it exactly when the images of slot 0 end within the
      two halves; otherwise its size has wrapped around. */
  lemma RegionInsideExactlyWhen(f: seq<byte>, active: nat)
    requires Select(TwoSlots, f, active).Some? && Select(TwoSlots, f, active).value.fwd == 1
    requires |f| < TWO_TO_THE_32 && ReservedEnd(f, active) <= |f|
    ensures
      var region, r := Select(TwoSlots, f, active).value.region, ReservedEnd(f, active);
      var end, limit := ImageSetEnd(f, 0).value, r + 2 * HalfRegion(|f|, r);
      && ImageSetEnd(f, 0).Some? && limit <= |f|
      && (EndOfExtent(region) <= |f| <==> end <= limit)
      && (end > limit ==> region.start == end && region.size == TWO_TO_THE_32 - (end - limit))
  {
    hide ImageSetEnd, ReservedEnd, ScanSlots, HalfRegion, Select;
    var r: uint32 := ReservedEnd(f, active);
    HalvesInside(|f|, r);
    SelectedHalf(f, active);
    assert ImageSetEnd(f, 0).Some?;
    var half: nat, end: uint32 := HalfRegion(|f|, r), ImageSetEnd(f, 0).value;
    WrappedRemainder(r + half, half, end);
  }

  lemma HalvesInside(size: nat, start: uint32)
    requires start <= size < TWO_TO_THE_32
    ensures start + 2 * HalfRegion(size, start) <= size
  {
    var q := (size - start) / BLOCK_SIZE;
    assert q * BLOCK_SIZE <= size - start;
    assert 2 * (q / 2) <= q;
  }

  lemma WrappedRemainder(start: nat, half: nat, end: uint32)
    requires start + half < TWO_TO_THE_32
    ensures
      var e := PushBack(Extent(start, half), end);
      && (end <= start + half ==> EndOfExtent(e) == start + half)
      && (end > start + half ==> e.start == end && e.size == TWO_TO_THE_32 - (end - start - half))
  {
  }

  lemma GoldenRegion(p: Plan, f: seq<byte>, active: nat)
    requires Layout(p, GoldenPlusTwo, f, active) && Select(GoldenPlusTwo, f, active).Some?
    ensures
      var sel := Select(GoldenPlusTwo, f, active).value;
      && 1 <= sel.fwd < 3
      && sel.region.start == Area(p, GoldenPlusTwo, sel.fwd).from && EndOfExtent(sel.region) == Area(p, GoldenPlusTwo, sel.fwd).to
      && sel.region.start % BLOCK_SIZE == 0 && sel.region.size % BLOCK_SIZE == 0 && p.goldenEnd <= sel.region.start
  {
    hide SlotFits, ImageSetEnd, ReservedEnd, ScanSlots, Slots, TableOf, Reserved, Half, HalfRegion, PlanOk, Precedes,
      ShortWithoutFs, PushBack;
    SizeOk(p, GoldenPlusTwo);
    HalfFits(p.size, p.goldenEnd);
    var half, fwd := Half(p.size, p.goldenEnd), Select(GoldenPlusTwo, f, active).value.fwd;
    WholeBlocks(p.goldenEnd, half);
    assert (fwd - 1) * half == if fwd == 1 then 0 else half;
    assert fwd * half == if fwd == 1 then half else half + half;
  }

  // Every session starts from a usable geometry

  /** The selected region, whatever the mode. */
  lemma RegionPlaced(p: Plan, mode: Mode, f: seq<byte>, active: nat)
    requires Layout(p, mode, f, active) && Select(mode, f, active).Some? && Select(mode, f, active).value.fwd != active
    ensures
      var sel := Select(mode, f, active).value;
      && sel.fwd < SlotCount(mode) && sel.region.start % BLOCK_SIZE == 0 && sel.region.size % BLOCK_SIZE == 0
      && ReservedEnd(f, active) <= sel.region.start && EndOfExtent(sel.region) <= p.size
  {
    hide SlotFits, ReservedEnd, Select, TableOf, Reserved, Precedes, PlanOk, IsImage, Half;
    ReservedEndPlaced(p, mode, f, active);
    if mode == TwoSlots {
      TwoSlotRegion(p, f, active);
    } else {
      GoldenRegion(p, f, active);
      AreaPlaced(p, mode, Select(mode, f, active).value.fwd);
      SizeOk(p, mode);
    }
  }

  /** Disjointness of the reserved partitions of a fitting slot. */
  lemma ReservedDisjoint(p: Plan, mode: Mode, f: seq<byte>, slot: nat)
    requires PlanOk(p, mode) && slot < MAX_FWD && SlotFits(p, mode, f, slot)
    ensures
      var fs1, fs2 := ExtentOf(Find(f, slot, FS1_IMG_ID)), ExtentOf(Find(f, slot, FS2_IMG_ID));
      var rd, ud := ExtentOf(Find(f, slot, RAMDUMP_IMG_ID)), ExtentOf(Find(f, slot, USERDATA_IMG_ID));
      && Disjoint(fs1, fs2) && Disjoint(fs1, rd) && Disjoint(fs2, rd) && Disjoint(ud, fs2) && Disjoint(ud, rd)
      && OnBlocks(fs1) && OnBlocks(fs2) && OnBlocks(rd) && OnBlocks(ud)
  {
    hide Find, SlotFits, Reserved;
    ReservedFound(p, mode, f, slot);
  }

  predicate OnBlocks(e: Extent) {
    e.start % BLOCK_SIZE == 0 && e.size % BLOCK_SIZE == 0 && (e.size == 0 || MAX_FWD * BLOCK_SIZE <= e.start)
  }

  lemma EndOfExtentOf(e: Option<Entry>)
    ensures ExtentOf(e).start + ExtentOf(e).size == EndOfOption(ExtentOption(e))
  {
  }

  /** Whatever slot is selected, the session's areas are where they should be. */
  lemma LayoutReady(p: Plan, env: Env, f: seq<byte>)
    requires Layout(p, env.mode, f, env.active)
    ensures Ready(env, f)
  {
    hide Find, SlotFits, ReservedEnd, Select, TableOf, Reserved, Precedes, PlanOk, Disjoint;
    SizeOk(p, env.mode);
    ReservedPlaced(p, env.mode);
    if Select(env.mode, f, env.active).Some? && Select(env.mode, f, env.active).value.fwd != env.active {
      RegionPlaced(p, env.mode, f, env.active);
      ReservedFound(p, env.mode, f, env.active);
      ReservedEndPlaced(p, env.mode, f, env.active);
      ReservedDisjoint(p, env.mode, f, env.active);
      EndOfExtentOf(Find(f, env.active, FS1_IMG_ID));
      EndOfExtentOf(Find(f, env.active, FS2_IMG_ID));
      EndOfExtentOf(Find(f, env.active, RAMDUMP_IMG_ID));
      EndOfExtentOf(Find(f, env.active, USERDATA_IMG_ID));
    }
  }

  /**
   The region for the next upgrade overlaps no image of any other slot that runs or may be booted, no reserved
   partition of the running slot, and no descriptor; if that slot has a first file system, no reserved partition at all.
   */
  lemma RegionOverlapsNothing(p: Plan, mode: Mode, f: seq<byte>, active: nat, other: nat, k: nat)
    requires Layout(p, mode, f, active) && Select(mode, f, active).Some?
    requires Select(mode, f, active).value.fwd != active
    ensures
      var sel := Select(mode, f, active).value;
      && ReservedEnd(f, active) <= sel.region.start && (Find(f, active, FS1_IMG_ID).Some? ==> Reserved(p) <= sel.region.start)
      && MAX_FWD * BLOCK_SIZE <= sel.region.start && EndOfExtent(sel.region) <= |f|
      && (other < SlotCount(mode) && other != sel.fwd && Matters(f, active, other) && k < |TableOf(f, other)|
          && IsImage(TableOf(f, other)[k]) ==>
            Disjoint(sel.region, TableOf(f, other)[k].Extent()))
  {
    hide Find, ReservedEnd, Select, TableOf, Reserved, Precedes, PlanOk, Half, HoldsTable;
    RegionPlaced(p, mode, f, active);
    ReservedEndPlaced(p, mode, f, active);
    ReservedPlaced(p, mode);
    SizeOk(p, mode);
    LowerHalfEndsLower(p.size, ReservedEnd(f, active), Reserved(p));
    var sel := Select(mode, f, active).value;
    if other < SlotCount(mode) && other != sel.fwd && Matters(f, active, other) && k < |TableOf(f, other)| {
      assert EntryFits(p, Area(p, mode, other), TableOf(f, other)[k]);
      if mode == TwoSlots {
        TwoSlotRegion(p, f, active);
      } else {
        GoldenRegion(p, f, active);
        GoldenAreasApart(p, sel.fwd, other);
      }
    }
  }

  lemma GoldenAreasApart(p: Plan, a: nat, b: nat)
    requires 1 <= a < 3 && b < 3 && a != b
    ensures
      var x, y := Area(p, GoldenPlusTwo, a), Area(p, GoldenPlusTwo, b);
      y.to <= x.from || x.to <= y.from
  {
    hide Reserved, Half;
    var half: int := Half(p.size, p.goldenEnd);
    assert a * half == if a == 1 then half else half + half;
    assert b * half == if b == 0 then 0 else if b == 1 then half else half + half;
    assert (a - 1) * half == if a == 1 then 0 else half;
    assert (b - 1) * half == if b == 0 then -half else if b == 1 then 0 else half;
  }

  /** The region lies in the target slot's own area. */
  lemma RegionInArea(p: Plan, mode: Mode, f: seq<byte>, active: nat)
    requires Layout(p, mode, f, active) && Select(mode, f, active).Some? && Find(f, active, FS1_IMG_ID).Some?
    requires Select(mode, f, active).value.fwd != active
    ensures
      var sel := Select(mode, f, active).value;
      sel.fwd < SlotCount(mode) && Area(p, mode, sel.fwd).Holds(sel.region)
  {
    hide Find, ReservedEnd, Select, TableOf, Reserved, Precedes, PlanOk, Half, SlotFits, HalfRegion;
    RegionPlaced(p, mode, f, active);
    ReservedEndPlaced(p, mode, f, active);
    SizeOk(p, mode);
    ReservedPlaced(p, mode);
    if mode == TwoSlots {
      TwoSlotRegion(p, f, active);
      HalfFits(p.size, Reserved(p));
    } else {
      GoldenRegion(p, f, active);
    }
  }
}
