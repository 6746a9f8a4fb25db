/**
 Which slot is current, which is on trial, and which flash region the next upgrade may use.
 All address arithmetic is 32-bit.
 */
module SlotSelection {
  import opened Bytes
  import opened NorFlash
  import opened Descriptor

  const TRIAL_UNUSED: nat := 0xFF

  /** Two equal slots, or a golden slot 0 and two upgradable ones. */
  datatype Mode = TwoSlots | GoldenPlusTwo

  function U32(x: int): uint32 {
    x % TWO_TO_THE_32
  }

  datatype Scan = Scan(trial: nat, current: nat, rank: uint32)

  /** One step of the scan: what slot `i` with header `s` does to the result so far. */
  function ScanSlot(s: Slot, i: nat, acc: Scan): Scan {
    if !s.Bootable() then acc
    else if s.rank == RANK_TRIAL then acc.(trial := i)
    else if s.rank > acc.rank then acc.(rank := s.rank, current := i)
    else acc
  }

  function ScanStart(mode: Mode): nat {
    if mode.TwoSlots? then 0 else 1
  }

  function ScanInit(mode: Mode, slots: seq<Slot>): Scan
    requires |slots| == MAX_FWD
  {
    Scan(TRIAL_UNUSED, 0, if mode.TwoSlots? then 0 else slots[0].rank)
  }

  /** The trial slot (or TRIAL_UNUSED), the current slot (0 when there is none) and the top rank. */
  function ScanSlots(mode: Mode, slots: seq<Slot>): Scan
    requires |slots| == MAX_FWD
  {
    var i := ScanStart(mode);
    ScanSlot(slots[i + 1], i + 1, ScanSlot(slots[i], i, ScanInit(mode, slots)))
  }

  function Slots(f: seq<byte>): (r: seq<Slot>)
    ensures |r| == MAX_FWD && forall i :: 0 <= i < MAX_FWD ==> r[i] == SlotAt(f, i)
  {
    [SlotAt(f, 0), SlotAt(f, 1), SlotAt(f, 2)]
  }

  /** End of the last reserved partition of the running slot, and past the descriptors. */
  function ReservedEnd(f: seq<byte>, active: nat): uint32 {
    var e := EndOf(f, active, FS1_IMG_ID, 0);
    var e := EndOf(f, active, FS2_IMG_ID, e);
    var e := EndOf(f, active, RAMDUMP_IMG_ID, e);
    var e := EndOf(f, active, USERDATA_IMG_ID, e);
    if MAX_FWD * BLOCK_SIZE > e then MAX_FWD * BLOCK_SIZE else e
  }

  function EndOf(f: seq<byte>, fwd: nat, id: uint32, atLeast: uint32): uint32 {
    match Find(f, fwd, id)
    case None => atLeast
    case Some(e) => if U32(e.End()) > atLeast then U32(e.End()) else atLeast
  }

  /** The larger of `acc` and the end of the entry; the SBL lies outside the flash. */
  function EndWith(e: Entry, acc: uint32): uint32 {
    if e.id != SBL_IMG_ID && U32(e.End()) > acc then U32(e.End()) else acc
  }

  /** Largest end among the used entries from `k` on and `acc`. */
  function WalkEnd(f: seq<byte>, fwd: nat, k: nat, acc: uint32): uint32
    decreases MAX_IMAGE_ENTRIES - k
  {
    if k >= MAX_IMAGE_ENTRIES || EntryId(f, fwd, k) == IMAGE_UNUSED then acc
    else WalkEnd(f, fwd, k + 1, EndWith(EntryAt(f, fwd, k), acc))
  }

  /** Where the image set of a slot ends; the walk takes entry 0 as used whenever the header says so. */
  function ImageSetEnd(f: seq<byte>, fwd: nat): Option<uint32> {
    if SlotAt(f, fwd).magic == MAGIC_V1 && SlotAt(f, fwd).total != 0
    then Some(WalkEnd(f, fwd, 1, EndWith(EntryAt(f, fwd, 0), 0)))
    else None
  }

  /** The slot an upgrade writes, and the flash region for its images. */
  datatype Selection = Selection(fwd: nat, region: Extent)

  /** Half of the whole blocks in [start, memSize), in bytes. */
  function HalfRegion(memSize: nat, start: uint32): uint32 {
    U32(U32(memSize - start) / BLOCK_SIZE / 2 * BLOCK_SIZE)
  }

  /** The slot an upgrade goes to. */
  function UpgradeTarget(mode: Mode, current: nat): nat {
    match mode
    case TwoSlots => if current == 0 then 1 else 0
    case GoldenPlusTwo => if current == 1 then 2 else 1
  }

  /** The region for slot `fwd`, from the end of the reserved partitions and that of slot 0's images. */
  function RegionFor(mode: Mode, memSize: nat, fwd: nat, start: uint32, imageEnd: Option<uint32>): Option<Selection> {
    match mode
    case TwoSlots =>
      var size := HalfRegion(memSize, start);
      if fwd == 0 then Some(Selection(0, Extent(start, size)))
      else (
        match imageEnd
        case None => None
        case Some(end) => Some(Selection(1, PushBack(Extent(U32(start + size), size), end)))
      )
    case GoldenPlusTwo =>
      match imageEnd
      case None => None
      case Some(end) =>
        var size := HalfRegion(memSize, end);
        Some(Selection(fwd, Extent(U32(end + (fwd - 1) * size), size)))
  }

  function Select(mode: Mode, f: seq<byte>, active: nat): Option<Selection> {
    var fwd := UpgradeTarget(mode, ScanSlots(mode, Slots(f)).current);
    RegionFor(mode, |f|, fwd, ReservedEnd(f, active), ImageSetEnd(f, 0))
  }

  // What the code makes of it when partition handles run out

  /** Without a handle no reserved partition is found. */
  function ReservedEndWith(f: seq<byte>, active: nat, free: nat): uint32 {
    if free == 0 then MAX_FWD * BLOCK_SIZE else ReservedEnd(f, active)
  }

  /** The walk needs a second handle to get past the first entry, and one to start at all. */
  function ImageSetEndWith(f: seq<byte>, fwd: nat, free: nat): Option<uint32> {
    if free == 0 then None
    else if free == 1 && ImageSetEnd(f, fwd).Some? then Some(EndWith(EntryAt(f, fwd, 0), 0))
    else ImageSetEnd(f, fwd)
  }

  /** The selection as made with `free` free handles. */
  function SelectWith(mode: Mode, f: seq<byte>, active: nat, free: nat): Option<Selection> {
    var fwd := UpgradeTarget(mode, ScanSlots(mode, Slots(f)).current);
    RegionFor(mode, |f|, fwd, ReservedEndWith(f, active, free), ImageSetEndWith(f, 0, free))
  }

  /** The part of `region` from `end` on, when slot 0 reaches into it. */
  function PushBack(region: Extent, end: uint32): Extent {
    if region.start < end then Extent(end, U32(region.size - (end - region.start))) else region
  }

  // Properties

  /** With two handles the selection is the intended one. */
  lemma TwoHandlesSelect(mode: Mode, f: seq<byte>, active: nat, free: nat)
    requires free >= 2
    ensures SelectWith(mode, f, active, free) == Select(mode, f, active)
  {
  }

  /** With a single handle it is so exactly when slot 0's images are not looked at, their end is that of the first entry, or,
      with two slots, neither of the two ends reaches into the upper half. */
  lemma OneHandleSelectsExactlyWhen(mode: Mode, f: seq<byte>, active: nat)
    ensures
      var fwd, start := UpgradeTarget(mode, ScanSlots(mode, Slots(f)).current), ReservedEnd(f, active);
      var first, end := EndWith(EntryAt(f, 0, 0), 0), ImageSetEnd(f, 0);
      var half := U32(start + HalfRegion(|f|, start));
      SelectWith(mode, f, active, 1) == Select(mode, f, active) <==>
        || end == None || end == Some(first)
        || (mode == TwoSlots && (fwd == 0 || (first <= half && end.value <= half)))
  {
    hide ScanSlots, Slots, ReservedEnd, ImageSetEnd, EndWith, EntryAt, HalfRegion;
    if ImageSetEnd(f, 0).Some? && mode == GoldenPlusTwo {
      var first, end := EndWith(EntryAt(f, 0, 0), 0), ImageSetEnd(f, 0).value;
      OtherEndOtherRegion(first, HalfRegion(|f|, first), end, HalfRegion(|f|, end));
    }
  }

  /** The place and the size of a slot's half tell where the golden images end. */
  lemma OtherEndOtherRegion(a: uint32, n: uint32, b: uint32, m: uint32)
    ensures n == m && U32(a + n) == U32(b + m) ==> a == b
  {
  }

  /** Without a handle, no slot is selected in front of which other images would have to be looked up. */
  lemma NoHandleSelects(mode: Mode, f: seq<byte>, active: nat)
    ensures
      SelectWith(mode, f, active, 0).Some? <==> mode == TwoSlots && UpgradeTarget(mode, ScanSlots(mode, Slots(f)).current) == 0
  {
    hide ScanSlots, Slots;
  }

  /** The current slot found by the scan is the first bootable non-trial slot of highest rank, the trial slot the last one there is. */
  lemma CurrentHasHighestRank(mode: Mode, slots: seq<Slot>)
    requires |slots| == MAX_FWD
    ensures
      var r, from, least := ScanSlots(mode, slots), if mode == TwoSlots then 0 else 1, if mode == TwoSlots then 0 else slots[0].rank;
      && (forall i :: from <= i < from + 2 && slots[i].Bootable() && slots[i].rank != RANK_TRIAL ==> slots[i].rank <= r.rank)
      && r.rank >= least
      && (r.rank != least ==>
            from <= r.current < from + 2 && slots[r.current].Bootable() && slots[r.current].rank == r.rank != RANK_TRIAL)
      && (r.rank == least ==> r.current == 0)
      && (r.trial == TRIAL_UNUSED <==> forall i :: from <= i < from + 2 ==> !(slots[i].Bootable() && slots[i].rank == RANK_TRIAL))
      && (r.trial != TRIAL_UNUSED ==>
            from <= r.trial < from + 2 && slots[r.trial].Bootable() && slots[r.trial].rank == RANK_TRIAL)
      && (forall i :: from <= i < from + 2 && r.trial < i ==> !(slots[i].Bootable() && slots[i].rank == RANK_TRIAL))
      && (forall i :: from <= i < r.current && slots[i].Bootable() && slots[i].rank != RANK_TRIAL ==> slots[i].rank < r.rank)
  {
  }

  /** The slot has a partition with that id, and it ends at `end`, in thirty-two bits. */
  predicate EndsAt(f: seq<byte>, fwd: nat, id: uint32, end: nat) {
    Find(f, fwd, id).Some? && (Find(f, fwd, id).value.start + Find(f, fwd, id).value.size) % 0x1_0000_0000 == end
  }

  predicate EndsBy(f: seq<byte>, fwd: nat, id: uint32, end: nat) {
    Find(f, fwd, id).Some? ==> (Find(f, fwd, id).value.start + Find(f, fwd, id).value.size) % 0x1_0000_0000 <= end
  }

  lemma EndOfIsMaximum(f: seq<byte>, fwd: nat, id: uint32, least: uint32)
    ensures
      var r := EndOf(f, fwd, id, least);
      && least <= r && (r == least || EndsAt(f, fwd, id, r))
      && forall end :: end >= r ==> EndsBy(f, fwd, id, end)
  {
    hide Find;
  }

  /** The space for images begins behind every reserved partition of the running slot and behind the descriptors, and right
      behind one of them. */
  lemma ReservedEndIsMaximum(f: seq<byte>, active: nat)
    ensures
      var r := ReservedEnd(f, active);
      && r >= 3 * 4096 && EndsBy(f, active, 5, r) && EndsBy(f, active, 128, r) && EndsBy(f, active, 99, r) && EndsBy(f, active, 101, r)
      && (r == 3 * 4096 || EndsAt(f, active, 5, r) || EndsAt(f, active, 128, r) || EndsAt(f, active, 99, r) || EndsAt(f, active, 101, r))
  {
    hide Find, EndOf, EndsAt, EndsBy;
    EndOfIsMaximum(f, active, FS1_IMG_ID, 0);
    var e1 := EndOf(f, active, FS1_IMG_ID, 0);
    EndOfIsMaximum(f, active, FS2_IMG_ID, e1);
    var e2 := EndOf(f, active, FS2_IMG_ID, e1);
    EndOfIsMaximum(f, active, RAMDUMP_IMG_ID, e2);
    var e3 := EndOf(f, active, RAMDUMP_IMG_ID, e2);
    EndOfIsMaximum(f, active, USERDATA_IMG_ID, e3);
  }

  /** The walk visits exactly the used entries: its result bounds all their ends, and is one of them or 0. */
  lemma {:induction false} WalkEndOverTable(f: seq<byte>, fwd: nat, table: seq<Entry>, k: nat, acc: uint32)
    requires HoldsTable(f, fwd, table) && k <= |table|
    ensures
      var end := WalkEnd(f, fwd, k, acc);
      && acc <= end
      && (forall j :: k <= j < |table| && table[j].id != SBL_IMG_ID ==> U32(table[j].End()) <= end)
      && (end == acc || exists j :: k <= j < |table| && table[j].id != SBL_IMG_ID && U32(table[j].End()) == end)
    decreases |table| - k
  {
    if k < |table| {
      assert EntryAt(f, fwd, k) == table[k];
      WalkEndOverTable(f, fwd, table, k + 1, EndWith(table[k], acc));
    } else if k < MAX_IMAGE_ENTRIES {
      UnusedEntry(f, fwd, table, k);
    }
  }

  lemma ImageSetEndIsMaximum(f: seq<byte>, fwd: nat, table: seq<Entry>)
    requires HoldsTable(f, fwd, table) && table != [] && ImageSetEnd(f, fwd).Some?
    ensures
      var end := ImageSetEnd(f, fwd).value;
      && (forall j :: 0 <= j < |table| && table[j].id != SBL_IMG_ID ==> U32(table[j].End()) <= end)
      && (end == 0 || exists j :: 0 <= j < |table| && table[j].id != SBL_IMG_ID && U32(table[j].End()) == end)
  {
    assert EntryAt(f, fwd, 0) == table[0];
    WalkEndOverTable(f, fwd, table, 1, EndWith(table[0], 0));
  }
}
