/**
 The firmware descriptor (FWD) of a slot: a header and up to 30 image entries at the start of
 flash block `slot`.
 */
module Descriptor {
  import opened Bytes
  import opened NorFlash

  const MAX_FWD: nat := 3
  const MAX_IMAGE_ENTRIES: nat := 30
  const IMAGE_UNUSED: uint32 := 0xFFFF_FFFF
  const MAGIC_V1: uint32 := 0x5444_5746
  const RANK_TRIAL: uint32 := 0xFFFF_FFFF
  const RANK_GOLDEN: uint32 := 0

  const SBL_IMG_ID: uint32 := 1
  const FS1_IMG_ID: uint32 := 5
  const APP_IMG_ID: uint32 := 10
  const RAMDUMP_IMG_ID: uint32 := 99
  const USERDATA_IMG_ID: uint32 := 101
  const FS2_IMG_ID: uint32 := 128

  datatype Info = Magic | Version | Rank | Status | TotalImages

  function InfoOffset(info: Info): nat {
    match info
    case Magic => 0
    case Version => 4
    case Rank => 8
    case Status => 12
    case TotalImages => 13
  }

  function InfoSize(info: Info): nat {
    if info.Status? || info.TotalImages? then 1 else 4
  }

  function InfoAddr(fwd: nat, info: Info): nat {
    fwd * BLOCK_SIZE + InfoOffset(info)
  }

  /** The header fields that decide whether and how a slot boots. */
  datatype Slot = Slot(magic: uint32, rank: uint32, status: byte, total: byte) {
    predicate Bootable() {
      magic == MAGIC_V1 && status == STATUS_VALID && 0 < total && total != 0xFF
    }
  }

  function SlotAt(f: seq<byte>, fwd: nat): Slot {
    Slot(
      Word(f, InfoAddr(fwd, Magic)), Word(f, InfoAddr(fwd, Rank)),
      Cell(f, InfoAddr(fwd, Status)), Cell(f, InfoAddr(fwd, TotalImages)))
  }

  /** An image entry in bytes; SBL entries are stored unscaled, all others in blocks. */
  datatype Entry = Entry(id: uint32, start: uint32, size: uint32, version: uint32) {
    function Extent(): Extent {
      NorFlash.Extent(start, size)
    }

    function End(): nat {
      start + size
    }
  }

  function EntryAddr(fwd: nat, k: nat): nat {
    fwd * BLOCK_SIZE + 32 + 16 * k
  }

  function EntryId(f: seq<byte>, fwd: nat, k: nat): uint32 {
    Word(f, EntryAddr(fwd, k))
  }

  /** Blocks to bytes, in 32-bit arithmetic. */
  function Scaled(id: uint32, w: uint32): uint32 {
    if id == SBL_IMG_ID then w else w * BLOCK_SIZE % TWO_TO_THE_32
  }

  function Unscaled(id: uint32, w: uint32): uint32 {
    if id == SBL_IMG_ID then w else w / BLOCK_SIZE
  }

  function EntryAt(f: seq<byte>, fwd: nat, k: nat): Entry {
    var id := EntryId(f, fwd, k);
    var a := EntryAddr(fwd, k);
    Entry(id, Scaled(id, Word(f, a + 4)), Scaled(id, Word(f, a + 8)), Word(f, a + 12))
  }

  /** The sixteen bytes of an entry as stored. */
  function EntryBytes(e: Entry): (s: seq<byte>)
    ensures |s| == 16
  {
    Le32(e.id) + Le32(Unscaled(e.id, e.start)) + Le32(Unscaled(e.id, e.size)) + Le32(e.version)
  }

  /** Entries other than SBL must start and end on block boundaries. */
  predicate Aligned(e: Entry) {
    e.id == SBL_IMG_ID || (e.start % BLOCK_SIZE == 0 && e.size % BLOCK_SIZE == 0)
  }

  /** Index of the first entry from `k` on with the given id, or MAX_IMAGE_ENTRIES. */
  function FindFrom(f: seq<byte>, fwd: nat, id: uint32, k: nat): (r: nat)
    requires k <= MAX_IMAGE_ENTRIES
    ensures k <= r <= MAX_IMAGE_ENTRIES
    ensures forall j :: k <= j < r ==> EntryId(f, fwd, j) != id
    ensures r < MAX_IMAGE_ENTRIES ==> EntryId(f, fwd, r) == id
    decreases MAX_IMAGE_ENTRIES - k
  {
    if k == MAX_IMAGE_ENTRIES || EntryId(f, fwd, k) == id then k else FindFrom(f, fwd, id, k + 1)
  }

  function FindIndex(f: seq<byte>, fwd: nat, id: uint32): nat {
    FindFrom(f, fwd, id, 0)
  }

  /** The first entry of the slot with the given id; invalid slot numbers have none. */
  function Find(f: seq<byte>, fwd: nat, id: uint32): Option<Entry> {
    var k := FindIndex(f, fwd, id);
    if fwd < MAX_FWD && k < MAX_IMAGE_ENTRIES then Some(EntryAt(f, fwd, k)) else None
  }

  /** `f` and `g` agree on the descriptor of slot `fwd`. */
  ghost predicate SameDescriptor(f: seq<byte>, g: seq<byte>, fwd: nat) {
    SameCells(f, g, fwd * BLOCK_SIZE, 512)
  }

  lemma SameEntry(f: seq<byte>, g: seq<byte>, fwd: nat, k: nat)
    requires SameCells(f, g, EntryAddr(fwd, k), 16)
    ensures EntryAt(f, fwd, k) == EntryAt(g, fwd, k)
  {
    var a := EntryAddr(fwd, k);
    SameWord(f, g, a);
    SameWord(f, g, a + 4);
    SameWord(f, g, a + 8);
    SameWord(f, g, a + 12);
  }

  /** `f` and `g` agree on the entries of slot `fwd`. */
  ghost predicate SameEntries(f: seq<byte>, g: seq<byte>, fwd: nat) {
    SameCells(f, g, EntryAddr(fwd, 0), 16 * MAX_IMAGE_ENTRIES)
  }

  lemma {:induction false} SameFindFrom(f: seq<byte>, g: seq<byte>, fwd: nat, id: uint32, k: nat)
    requires SameEntries(f, g, fwd) && k <= MAX_IMAGE_ENTRIES
    ensures FindFrom(f, fwd, id, k) == FindFrom(g, fwd, id, k)
    decreases MAX_IMAGE_ENTRIES - k
  {
    if k < MAX_IMAGE_ENTRIES {
      SameEntry(f, g, fwd, k);
      SameFindFrom(f, g, fwd, id, k + 1);
    }
  }

  /** A lookup depends on the slot's entries only. */
  lemma SameLookup(f: seq<byte>, g: seq<byte>, fwd: nat, id: uint32)
    requires SameEntries(f, g, fwd)
    ensures Find(f, fwd, id) == Find(g, fwd, id)
  {
    SameFindFrom(f, g, fwd, id, 0);
    if FindIndex(f, fwd, id) < MAX_IMAGE_ENTRIES {
      SameEntry(f, g, fwd, FindIndex(f, fwd, id));
    }
  }

  /** Everything read from a descriptor depends on its own 512 bytes only. */
  lemma SameFind(f: seq<byte>, g: seq<byte>, fwd: nat, id: uint32)
    requires SameDescriptor(f, g, fwd)
    ensures Find(f, fwd, id) == Find(g, fwd, id)
    ensures SlotAt(f, fwd) == SlotAt(g, fwd)
  {
    SameLookup(f, g, fwd, id);
    SameWord(f, g, InfoAddr(fwd, Magic));
    SameWord(f, g, InfoAddr(fwd, Rank));
  }

  /** Slots whose descriptor is outside the touched range keep their header. */
  lemma OtherSlotsSame(f: seq<byte>, g: seq<byte>, a: nat, n: nat, fwd: nat, other: nat)
    requires SameOutside(f, g, a, n) && fwd != other
    requires fwd * BLOCK_SIZE <= a && a + n <= fwd * BLOCK_SIZE + BLOCK_SIZE
    ensures SlotAt(g, other) == SlotAt(f, other) && SameDescriptor(f, g, other)
  {
    hide Word, FindFrom, EntryAt;
    assert SameCells(f, g, other * BLOCK_SIZE, 512);
    SameFind(f, g, other, 0);
  }

  lemma RankProgrammed(f: seq<byte>, fwd: nat, w: uint32)
    requires Blank(f, InfoAddr(fwd, Rank), 4) && fwd * BLOCK_SIZE + BLOCK_SIZE <= |f|
    ensures SlotAt(Programmed(f, InfoAddr(fwd, Rank), Le32(w)), fwd) == SlotAt(f, fwd).(rank := w)
  {
    hide Word, Le32, And;
    var a := InfoAddr(fwd, Rank);
    var g := Programmed(f, a, Le32(w));
    BlankOnlyClears(f, a, Le32(w));
    ProgrammedIsSpliced(f, a, Le32(w));
    WordOfLe32(g, a, w);
    SameWord(f, g, InfoAddr(fwd, Magic));
  }

  /** A rank whose programming is cut off. */
  lemma RankPartlyProgrammed(f: seq<byte>, g: seq<byte>, fwd: nat, w: uint32)
    requires Blank(f, InfoAddr(fwd, Rank), 4) && PartlyWritten(f, g, InfoAddr(fwd, Rank), Le32(w)) && fwd * BLOCK_SIZE + BLOCK_SIZE <= |f|
    ensures SlotAt(g, fwd) == SlotAt(f, fwd).(rank := SlotAt(g, fwd).rank) && TornWord(SlotAt(g, fwd).rank, w)
  {
    hide Word, Le32, And, TornWord;
    WordPartlyWritten(f, g, InfoAddr(fwd, Rank), w);
    SameWord(f, g, InfoAddr(fwd, Magic));
  }

  lemma StatusProgrammed(f: seq<byte>, fwd: nat, v: byte)
    requires And(SlotAt(f, fwd).status, v) == v && fwd * BLOCK_SIZE + BLOCK_SIZE <= |f|
    ensures SlotAt(Programmed(f, InfoAddr(fwd, Status), [v]), fwd) == SlotAt(f, fwd).(status := v)
  {
    hide Word, And;
    var g := Programmed(f, InfoAddr(fwd, Status), [v]);
    SameWord(f, g, InfoAddr(fwd, Magic));
    SameWord(f, g, InfoAddr(fwd, Rank));
  }

  /** The used entries of the slot are exactly `table`, in order, and the rest is erased. */
  ghost predicate HoldsTable(f: seq<byte>, fwd: nat, table: seq<Entry>) {
    && |table| <= MAX_IMAGE_ENTRIES
    && (forall k :: 0 <= k < |table| ==> EntryAt(f, fwd, k) == table[k] && table[k].id != IMAGE_UNUSED)
    && Blank(f, EntryAddr(fwd, |table|), 16 * (MAX_IMAGE_ENTRIES - |table|))
  }

  lemma EntryOfEntryBytes(f: seq<byte>, fwd: nat, k: nat, e: Entry)
    requires Aligned(e)
    requires forall i :: EntryAddr(fwd, k) <= i < EntryAddr(fwd, k) + 16 ==>
               Cell(f, i) == EntryBytes(e)[i - EntryAddr(fwd, k)]
    ensures EntryAt(f, fwd, k) == e
  {
    var a := EntryAddr(fwd, k);
    EntryWords(f, a, e);
    assert Scaled(e.id, Unscaled(e.id, e.start)) == e.start;
    assert Scaled(e.id, Unscaled(e.id, e.size)) == e.size;
  }

  lemma EntryWords(f: seq<byte>, a: nat, e: Entry)
    requires forall i :: a <= i < a + 16 ==> Cell(f, i) == EntryBytes(e)[i - a]
    ensures Word(f, a) == e.id && Word(f, a + 12) == e.version
    ensures Word(f, a + 4) == Unscaled(e.id, e.start) && Word(f, a + 8) == Unscaled(e.id, e.size)
  {
    WordOfLe32(f, a, e.id);
    WordOfLe32(f, a + 4, Unscaled(e.id, e.start));
    WordOfLe32(f, a + 8, Unscaled(e.id, e.size));
    WordOfLe32(f, a + 12, e.version);
  }

  /** The first unused entry of a table of `n` entries is number `n`. */
  lemma FirstUnused(f: seq<byte>, fwd: nat, table: seq<Entry>)
    requires HoldsTable(f, fwd, table)
    ensures FindIndex(f, fwd, IMAGE_UNUSED) == |table|
  {
    var k := FindIndex(f, fwd, IMAGE_UNUSED);
    forall j | 0 <= j < |table|
      ensures EntryId(f, fwd, j) != IMAGE_UNUSED
    {
      assert EntryAt(f, fwd, j) == table[j];
    }
    if |table| < MAX_IMAGE_ENTRIES {
      UnusedEntry(f, fwd, table, |table|);
    }
  }

  /** Entries past the table read as unused. */
  lemma UnusedEntry(f: seq<byte>, fwd: nat, table: seq<Entry>, k: nat)
    requires HoldsTable(f, fwd, table) && |table| <= k < MAX_IMAGE_ENTRIES
    ensures EntryId(f, fwd, k) == IMAGE_UNUSED
  {
    assert Le32(IMAGE_UNUSED) == [0xFF, 0xFF, 0xFF, 0xFF];
    WordOfLe32(f, EntryAddr(fwd, k), IMAGE_UNUSED);
  }

  /** Programming an entry into the first unused place appends it, exactly, to the table. */
  lemma AppendEntry(f: seq<byte>, g: seq<byte>, fwd: nat, table: seq<Entry>, e: Entry)
    requires HoldsTable(f, fwd, table) && |table| < MAX_IMAGE_ENTRIES
    requires Aligned(e) && e.id != IMAGE_UNUSED
    requires g == Programmed(f, EntryAddr(fwd, |table|), EntryBytes(e))
    requires fwd * BLOCK_SIZE + 512 <= |f|
    ensures HoldsTable(g, fwd, table + [e])
    ensures OnlyClears(f, EntryAddr(fwd, |table|), EntryBytes(e))
  {
    var a := EntryAddr(fwd, |table|);
    BlankOnlyClears(f, a, EntryBytes(e));
    ProgrammedIsSpliced(f, a, EntryBytes(e));
    StoredExactly(f, a, EntryBytes(e));
    EntryOfEntryBytes(g, fwd, |table|, e);
    TableGrows(f, g, fwd, table, e);
  }

  lemma StoredExactly(f: seq<byte>, a: nat, d: seq<byte>)
    requires a + |d| <= |f|
    ensures forall i :: a <= i < a + |d| ==> Cell(Splice(f, a, d), i) == d[i - a]
  {
  }

  lemma TableGrows(f: seq<byte>, g: seq<byte>, fwd: nat, table: seq<Entry>, e: Entry)
    requires HoldsTable(f, fwd, table) && |table| < MAX_IMAGE_ENTRIES
    requires SameOutside(f, g, EntryAddr(fwd, |table|), 16)
    requires EntryAt(g, fwd, |table|) == e && e.id != IMAGE_UNUSED
    ensures HoldsTable(g, fwd, table + [e])
  {
    var grown := table + [e];
    forall k | 0 <= k < |grown|
      ensures EntryAt(g, fwd, k) == grown[k] && grown[k].id != IMAGE_UNUSED
    {
      if k < |table| {
        SameEntry(f, g, fwd, k);
      }
    }
    forall i | EntryAddr(fwd, |grown|) <= i < EntryAddr(fwd, MAX_IMAGE_ENTRIES)
      ensures Cell(g, i) == 0xFF
    {
      assert Cell(f, i) == 0xFF;
    }
  }

  /** Index in `table` of the first entry with the given id, or its length. */
  function IndexIn(table: seq<Entry>, id: uint32): (r: nat)
    ensures r <= |table|
    ensures r < |table| ==> table[r].id == id
    ensures forall j :: 0 <= j < r ==> table[j].id != id
  {
    if table == [] || table[0].id == id then 0 else 1 + IndexIn(table[1..], id)
  }

  /** Lookup in a slot is lookup in its table. */
  lemma FindInTable(f: seq<byte>, fwd: nat, table: seq<Entry>, id: uint32)
    requires HoldsTable(f, fwd, table) && fwd < MAX_FWD && id != IMAGE_UNUSED
    ensures
      var k := IndexIn(table, id);
      Find(f, fwd, id) == if k < |table| then Some(table[k]) else None
  {
    hide Word, Scaled;
    var k, r := IndexIn(table, id), FindIndex(f, fwd, id);
    if r < |table| {
      assert EntryAt(f, fwd, r) == table[r];
    } else if r < MAX_IMAGE_ENTRIES {
      UnusedEntry(f, fwd, table, r);
    }
    assert k < |table| ==> EntryAt(f, fwd, k) == table[k];
  }
}
