/** Where the slots of a descriptor ring lie in slave memory, and how counters map to them. */
module RingLayout {
  import opened Bytes
  import opened Qcspi

  const MAX_RINGS: nat := 8
  const DESC_SIZE: nat := 8
  const FLAG_VALID: nat := 1

  datatype Errno = EAGAIN | EINVAL | EMSGSIZE | ENODEV | ETRANSPORT

  datatype Outcome = Done(value: nat) | Err(errno: Errno)

  /** One ring: descriptor array, buffer pool and the two shared index words. */
  datatype Ring = Ring(descBase: nat, count: nat, bufBase: nat, bufSize: nat, wrAddr: nat, rdAddr: nat) {
    function DescAddr(j: nat): nat {
      descBase + DESC_SIZE * j
    }

    function BufAddr(j: nat): nat {
      bufBase + j * bufSize
    }
  }

  predicate Apart(a: nat, n: nat, b: nat, m: nat) {
    a + n <= b || b + m <= a
  }

  /** The areas of the ring are inside the memory, word-aligned where the code needs it, and do not overlap. */
  predicate RingOk(r: Ring, size: nat) {
    && 2 <= r.count && 0 < r.bufSize && size % 4 == 0 && size < TWO_TO_THE_32
    && r.descBase % 4 == 0 && r.wrAddr % 4 == 0 && r.rdAddr % 4 == 0
    && r.descBase + DESC_SIZE * r.count <= size && r.bufBase + r.count * r.bufSize <= size
    && r.wrAddr + 4 <= size && r.rdAddr + 4 <= size
    && Apart(r.wrAddr, 4, r.rdAddr, 4)
    && Apart(r.descBase, DESC_SIZE * r.count, r.bufBase, r.count * r.bufSize)
    && Apart(r.wrAddr, 4, r.descBase, DESC_SIZE * r.count) && Apart(r.wrAddr, 4, r.bufBase, r.count * r.bufSize)
    && Apart(r.rdAddr, 4, r.descBase, DESC_SIZE * r.count) && Apart(r.rdAddr, 4, r.bufBase, r.count * r.bufSize)
  }

  /** The second word of a descriptor: length in the low half, flags in the high half. */
  function LengthAndFlags(length: nat, flags: nat): uint32 {
    length % 0x1_0000 + 0x1_0000 * (flags % 0x1_0000)
  }

  function LengthOf(w: uint32): nat {
    w % 0x1_0000
  }

  predicate MarkedValid(w: uint32) {
    w / 0x1_0000 % 2 == FLAG_VALID
  }

  /** Whether slot `j` is marked valid. */
  predicate SlotValid(m: seq<byte>, r: Ring, j: nat) {
    MarkedValid(Word(m, r.DescAddr(j) + 4))
  }

  /** Slot `j` holds packet `p`, marked valid; other flags may be set as well. */
  ghost predicate Holds(m: seq<byte>, r: Ring, j: nat, p: seq<byte>) {
    && |p| < 0x1_0000 && |p| <= r.bufSize
    && Word(m, r.DescAddr(j)) == r.BufAddr(j)
    && LengthOf(Word(m, r.DescAddr(j) + 4)) == |p| && SlotValid(m, r, j)
    && forall i :: 0 <= i < |p| ==> Cell(m, r.BufAddr(j) + i) == p[i]
  }

  /** The packet a reader of slot `j` sees. */
  function PacketIn(m: seq<byte>, r: Ring, j: nat): seq<byte> {
    var n := LengthOf(Word(m, r.DescAddr(j) + 4));
    var a := Word(m, r.DescAddr(j));
    if a + n <= |m| then m[a..a + n] else []
  }

  lemma PacketOfHeld(m: seq<byte>, r: Ring, j: nat, p: seq<byte>)
    requires Holds(m, r, j, p) && RingOk(r, |m|) && j < r.count
    ensures PacketIn(m, r, j) == p && SlotValid(m, r, j)
  {
    hide Word, RingOk, Ring.DescAddr, Ring.BufAddr, LengthOf, MarkedValid;
    SlotInside(r, |m|, j);
    BytesAt(m, r.BufAddr(j), p);
  }

  lemma BytesAt(m: seq<byte>, a: nat, p: seq<byte>)
    requires a + |p| <= |m|
    ensures m[a..a + |p|] == p <==> forall i :: 0 <= i < |p| ==> Cell(m, a + i) == p[i]
  {
    if forall i :: 0 <= i < |p| ==> Cell(m, a + i) == p[i] {
      forall i | 0 <= i < |p|
        ensures m[a..a + |p|][i] == p[i]
      {
        assert Cell(m, a + i) == p[i];
      }
    } else {
      var i :| 0 <= i < |p| && Cell(m, a + i) != p[i];
      assert m[a..a + |p|][i] != p[i];
    }
  }

  lemma LengthAndFlagsRead(n: nat)
    requires n < 0x1_0000
    ensures LengthOf(LengthAndFlags(n, FLAG_VALID)) == n && MarkedValid(LengthAndFlags(n, FLAG_VALID))
    ensures LengthOf(LengthAndFlags(n, 0)) == n && !MarkedValid(LengthAndFlags(n, 0))
  {
    assert n % 0x1_0000 == n;
    assert LengthAndFlags(n, FLAG_VALID) == n + 0x1_0000;
    assert LengthAndFlags(n, 0) == n;
    assert (n + 0x1_0000) / 0x1_0000 == 1;
  }

  // The stored form

  /** A descriptor: address, length and flags, least significant byte first. */
  datatype StoredDescriptor = StoredDescriptor(addr: uint32, length: nat, flags: nat) {
    function Bytes(): (s: seq<byte>)
      ensures |s| == 8
    {
      Le32(addr) + [length % 0x100, length / 0x100 % 0x100, flags % 0x100, flags / 0x100 % 0x100]
    }
  }

  function DescriptorsBytes(ds: seq<StoredDescriptor>): (s: seq<byte>)
    ensures |s| == 8 * |ds|
  {
    if ds == [] then [] else ds[0].Bytes() + DescriptorsBytes(ds[1..])
  }

  function BuffersBytes(bs: seq<seq<byte>>): seq<byte> {
    if bs == [] then [] else bs[0] + BuffersBytes(bs[1..])
  }

  /** The second word of a descriptor is the length, then the flags. */
  lemma LengthThenFlags(length: nat, flags: nat)
    ensures
      Le32(LengthAndFlags(length, flags)) == [length % 0x100, length / 0x100 % 0x100, flags % 0x100, flags / 0x100 % 0x100]
  {
    var low, high := length % 0x1_0000, flags % 0x1_0000;
    LowHalf(length, low);
    LowHalf(flags, high);
    var w := low + 0x1_0000 * high;
    assert w == low % 0x100 + 0x100 * (low / 0x100 + 0x100 * high);
    assert w % 0x100 == low % 0x100 && w / 0x100 == low / 0x100 + 0x100 * high;
    assert w / 0x1_0000 == high && w / 0x100_0000 == high / 0x100;
  }

  lemma LowHalf(n: nat, low: nat)
    requires low == n % 0x1_0000
    ensures low % 0x100 == n % 0x100 && low / 0x100 == n / 0x100 % 0x100
  {
    var q, p, r := n / 0x1_0000, low / 0x100, low % 0x100;
    assert n == 0x100 * (0x100 * q + p) + r && low == 0x100 * p + r && p < 0x100;
    assert n / 0x100 == 0x100 * q + p;
  }

  lemma DescriptorStored(m: seq<byte>, a: nat, d: StoredDescriptor)
    requires Stored(m, a, d.Bytes())
    ensures
      var w := Word(m, a + 4);
      Word(m, a) == d.addr && LengthOf(w) == d.length % 0x1_0000 && (MarkedValid(w) <==> d.flags % 2 == 1)
  {
    hide Word, Le32, FromLe32, Stored;
    LengthThenFlags(d.length, d.flags);
    var w := LengthAndFlags(d.length, d.flags);
    WordStored(m, a, d.addr, Le32(w));
    assert Le32(w) + [] == Le32(w);
    WordStored(m, a + 4, w, []);
    HalvesRead(d.length, d.flags);
  }

  lemma HalvesRead(length: nat, flags: nat)
    ensures
      var w := LengthAndFlags(length, flags);
      LengthOf(w) == length % 0x1_0000 && (MarkedValid(w) <==> flags % 2 == 1)
  {
    var low, high := length % 0x1_0000, flags % 0x1_0000;
    var w := low + 0x1_0000 * high;
    assert w % 0x1_0000 == low && w / 0x1_0000 == high;
    assert high % 2 == flags % 2 by { assert flags == 2 * (0x8000 * (flags / 0x1_0000)) + high; }
  }

  lemma {:induction false} DescriptorOf(m: seq<byte>, a: nat, ds: seq<StoredDescriptor>, j: nat)
    requires j < |ds| && Stored(m, a, DescriptorsBytes(ds))
    ensures Stored(m, a + 8 * j, ds[j].Bytes())
    decreases j
  {
    hide Stored, StoredDescriptor.Bytes;
    TwoStored(m, a, ds[0].Bytes(), DescriptorsBytes(ds[1..]));
    if j > 0 {
      DescriptorOf(m, a + 8, ds[1..], j - 1);
    }
  }

  lemma {:induction false} BufferOf(m: seq<byte>, a: nat, bs: seq<seq<byte>>, size: nat, j: nat)
    requires j < |bs| && Stored(m, a, BuffersBytes(bs)) && forall k :: 0 <= k < |bs| ==> |bs[k]| == size
    ensures Stored(m, a + j * size, bs[j])
    decreases j
  {
    hide Stored;
    TwoStored(m, a, bs[0], BuffersBytes(bs[1..]));
    if j > 0 {
      BufferOf(m, a + size, bs[1..], size, j - 1);
      assert a + size + (j - 1) * size == a + j * size;
    }
  }

  /** Descriptors and buffers are read from where the two arrays have them. */
  lemma RingReadsBack(m: seq<byte>, r: Ring, ds: seq<StoredDescriptor>, bs: seq<seq<byte>>, j: nat)
    requires j < |ds| == |bs| && forall k :: 0 <= k < |bs| ==> |bs[k]| == r.bufSize
    requires Stored(m, r.descBase, DescriptorsBytes(ds)) && Stored(m, r.bufBase, BuffersBytes(bs))
    ensures
      var w := Word(m, r.DescAddr(j) + 4);
      && Word(m, r.DescAddr(j)) == ds[j].addr && LengthOf(w) == ds[j].length % 0x1_0000 && (MarkedValid(w) <==> ds[j].flags % 2 == 1)
      && (SlotValid(m, r, j) <==> ds[j].flags % 2 == 1)
      && Stored(m, r.BufAddr(j), bs[j])
  {
    hide Word, Stored, StoredDescriptor.Bytes;
    DescriptorOf(m, r.descBase, ds, j);
    DescriptorStored(m, r.descBase + 8 * j, ds[j]);
    BufferOf(m, r.bufBase, bs, r.bufSize, j);
  }

  // Addresses

  lemma SlotInside(r: Ring, size: nat, j: nat)
    requires RingOk(r, size) && j < r.count
    ensures r.descBase <= r.DescAddr(j) && r.DescAddr(j) + DESC_SIZE <= r.descBase + DESC_SIZE * r.count <= size
    ensures r.bufBase <= r.BufAddr(j) && r.BufAddr(j) + r.bufSize <= r.bufBase + r.count * r.bufSize <= size
    ensures r.DescAddr(j) % 4 == 0
  {
    Multiples(r.bufSize, j, r.count);
  }

  lemma {:induction false} Multiples(b: nat, i: nat, j: nat)
    requires i < j
    ensures i * b + b <= j * b
    decreases j
  {
    OneMore(b, j - 1);
    if i < j - 1 {
      Multiples(b, i, j - 1);
    }
  }

  lemma OneMore(b: nat, i: nat)
    ensures (i + 1) * b == i * b + b
  {
  }

  /** Different slots share no byte. */
  lemma SlotsApart(r: Ring, size: nat, i: nat, j: nat)
    requires RingOk(r, size) && i < r.count && j < r.count && i != j
    ensures Apart(r.DescAddr(i), DESC_SIZE, r.DescAddr(j), DESC_SIZE) && Apart(r.BufAddr(i), r.bufSize, r.BufAddr(j), r.bufSize)
    ensures Apart(r.DescAddr(i), DESC_SIZE, r.BufAddr(j), r.bufSize) && Apart(r.BufAddr(i), r.bufSize, r.DescAddr(j), DESC_SIZE)
  {
    SlotInside(r, size, i);
    SlotInside(r, size, j);
    if i < j {
      Multiples(r.bufSize, i, j);
    } else {
      Multiples(r.bufSize, j, i);
    }
  }

  /** The index words share no byte with a slot, nor a descriptor with its buffer. */
  lemma IndexesApart(r: Ring, size: nat, j: nat)
    requires RingOk(r, size) && j < r.count
    ensures Apart(r.wrAddr, 4, r.DescAddr(j), DESC_SIZE) && Apart(r.wrAddr, 4, r.BufAddr(j), r.bufSize)
    ensures Apart(r.rdAddr, 4, r.DescAddr(j), DESC_SIZE) && Apart(r.rdAddr, 4, r.BufAddr(j), r.bufSize)
    ensures Apart(r.DescAddr(j), DESC_SIZE, r.BufAddr(j), r.bufSize)
  {
    SlotInside(r, size, j);
  }

  /** The bytes of slot `j` are the same in both memories. */
  predicate SameSlot(m: seq<byte>, m': seq<byte>, r: Ring, j: nat) {
    && (forall i :: r.DescAddr(j) <= i < r.DescAddr(j) + DESC_SIZE ==> Cell(m, i) == Cell(m', i))
    && (forall i :: r.BufAddr(j) <= i < r.BufAddr(j) + r.bufSize ==> Cell(m, i) == Cell(m', i))
  }

  lemma StillHeld(m: seq<byte>, m': seq<byte>, r: Ring, j: nat, p: seq<byte>)
    requires Holds(m, r, j, p) && SameSlot(m, m', r, j)
    ensures Holds(m', r, j, p)
  {
    SameWord(m, m', r.DescAddr(j));
    SameWord(m, m', r.DescAddr(j) + 4);
  }

  lemma SameValidity(m: seq<byte>, m': seq<byte>, r: Ring, j: nat)
    requires SameSlot(m, m', r, j)
    ensures SlotValid(m', r, j) == SlotValid(m, r, j)
  {
    SameWord(m, m', r.DescAddr(j) + 4);
  }

  /** A change confined to [a, a + n) leaves everything apart from it alone. */
  lemma SlotUntouched(m: seq<byte>, m': seq<byte>, r: Ring, j: nat, a: nat, n: nat)
    requires SameOutside(m, m', a, n)
    requires Apart(a, n, r.DescAddr(j), DESC_SIZE) && Apart(a, n, r.BufAddr(j), r.bufSize)
    ensures SameSlot(m, m', r, j)
  {
  }

  lemma WordUntouched(m: seq<byte>, m': seq<byte>, w: nat, a: nat, n: nat)
    requires SameOutside(m, m', a, n) && Apart(a, n, w, 4)
    ensures Word(m', w) == Word(m, w)
  {
    hide Word;
    SameWord(m, m', w);
  }

  lemma CountPositive(r: Ring, size: nat)
    requires RingOk(r, size)
    ensures 2 <= r.count
  {
  }

  lemma MemoryWords(r: Ring, size: nat)
    requires RingOk(r, size)
    ensures size % 4 == 0 && size < TWO_TO_THE_32 && r.wrAddr % 4 == 0 && r.rdAddr % 4 == 0
    ensures r.wrAddr + 4 <= size && r.rdAddr + 4 <= size && 0 < r.bufSize && 2 <= r.count < TWO_TO_THE_32
  {
  }

  lemma IndexWordsApart(r: Ring, size: nat)
    requires RingOk(r, size)
    ensures Apart(r.wrAddr, 4, r.rdAddr, 4)
  {
  }

  // Single accesses

  lemma NothingMoves(m: seq<byte>, r: Ring)
    ensures forall j: nat :: SameSlot(m, m, r, j)
  {
  }

  /** Bytes read are the word there. */
  lemma WordRead(m: seq<byte>, a: nat, d: seq<byte>)
    requires a + 4 <= |m| && d == m[a..a + 4]
    ensures FromLe32(d) == Word(m, a)
  {
    assert [Cell(m, a), Cell(m, a + 1), Cell(m, a + 2), Cell(m, a + 3)] == d;
  }

  lemma TornIsConfined(m: seq<byte>, m': seq<byte>, a: nat, d: seq<byte>)
    requires Torn(m, m', a, d)
    ensures SameOutside(m, m', a, |d|)
  {
  }

  lemma WordOfTorn(m: seq<byte>, m': seq<byte>, a: nat, d: seq<byte>, k: nat)
    requires |d| % 4 == 0 && TornByWord(m, m', a, d) && k < |d| / 4
    ensures a + 4 * k + 4 <= |m| == |m'| && 4 * k + 4 <= |d|
    ensures m'[a + 4 * k..a + 4 * k + 4] == m[a + 4 * k..a + 4 * k + 4] || m'[a + 4 * k..a + 4 * k + 4] == d[4 * k..4 * k + 4]
  {
  }

  /** A failing write of one aligned word has landed entirely or not at all. */
  lemma WordTorn(m: seq<byte>, m': seq<byte>, a: nat, d: seq<byte>)
    requires |d| == 4 && TornByWord(m, m', a, d)
    ensures m' == m || m' == Splice(m, a, d)
    ensures SameOutside(m, m', a, 4)
  {
    assert m'[a + 4 * 0..a + 4 * 0 + 4] == m[a..a + 4] || m'[a..a + 4] == d[4 * 0..4 * 0 + 4];
    if m'[a..a + 4] == m[a..a + 4] {
      assert m' == m;
    } else {
      assert m' == Splice(m, a, d);
    }
  }

  /** Reads a shared index word. */
  method ReadWord(driver: Driver, a: nat) returns (ok: bool, w: uint32)
    requires a % 4 == 0 && |driver.mem| % 4 == 0 && a + 4 <= |driver.mem|
    ensures ok ==> w == Word(driver.mem, a)
    ensures driver.reliable ==> ok
  {
    hide Word;
    var word := new byte[4];
    var rc := driver.ReadAddrAlign(4, a, word);
    ok, w := rc == Success, FromLe32(word[..4]);
    if ok {
      WordRead(driver.mem, a, word[..4]);
    }
  }

  /** Writes a shared index word, which lands as a whole if at all. */
  method WriteWord(driver: Driver, a: nat, w: uint32) returns (ok: bool)
    requires a % 4 == 0 && |driver.mem| % 4 == 0 && a + 4 <= |driver.mem|
    modifies driver`mem
    ensures driver.mem == old(driver.mem) || driver.mem == Splice(old(driver.mem), a, Le32(w))
    ensures ok ==> driver.mem == Splice(old(driver.mem), a, Le32(w))
    ensures driver.reliable ==> ok
  {
    hide Le32, TornByWord, Torn;
    var word := new byte[4];
    var bytes := Le32(w);
    forall i | 0 <= i < 4 {
      word[i] := bytes[i];
    }
    assert word[..4] == bytes;
    ghost var m := driver.mem;
    var rc := driver.WriteAddrAlign(4, a, word);
    ok := rc == Success;
    WordTorn(m, driver.mem, a, bytes);
  }

  // Counters

  /** The slot a running counter falls on: the counter modulo the number of slots. */
  function SlotOf(n: nat, k: nat): (j: nat)
    requires 0 < n
    ensures j < n
  {
    if k < n then k else SlotOf(n, k - n)
  }

  /** The number of entries between two counters, from their slots. */
  function Distance(n: nat, from: nat, to: nat): int {
    if to >= from then to - from else n - (from - to)
  }

  lemma {:induction false} DistanceOfCounters(n: nat, k: nat, m: nat)
    requires 0 < n && k <= m < k + n
    ensures Distance(n, SlotOf(n, k), SlotOf(n, m)) == m - k
    decreases k
  {
    if k >= n {
      DistanceOfCounters(n, k - n, m - n);
    }
  }

  /** Counters less than a full turn apart fall on different slots. */
  lemma DifferentSlots(n: nat, k: nat, m: nat)
    requires 0 < n && k < m < k + n
    ensures SlotOf(n, k) != SlotOf(n, m)
  {
    DistanceOfCounters(n, k, m);
  }

  /** Counters a full turn apart fall on the same slot. */
  lemma SameSlotNextTurn(n: nat, k: nat)
    requires 0 < n
    ensures SlotOf(n, k + n) == SlotOf(n, k)
  {
  }

  /** Advancing an index with wrap-around is advancing the counter. */
  lemma {:induction false} NextSlot(n: nat, k: nat)
    requires 0 < n
    ensures (SlotOf(n, k) + 1) % n == SlotOf(n, k + 1)
    decreases k
  {
    if k >= n {
      NextSlot(n, k - n);
    } else {
      SmallModulo(k + 1, n);
    }
  }

  lemma SmallModulo(x: nat, n: nat)
    requires 0 < n && x <= n
    ensures x % n == if x == n then 0 else x
  {
  }
}
