/**
 NOR flash: erasing sets the cells of whole blocks, programming can only clear bits.
 Operations may fail, leaving any part of their range changed.
 */
module NorFlash {
  import opened Bytes

  const BLOCK_SIZE: nat := 4096
  const STATUS_VALID: byte := 0x01
  const STATUS_INVALID: byte := 0x00

  /** Bitwise conjunction of the `n` low bits. */
  function AndBits(a: nat, b: nat, n: nat): (r: nat)
    ensures r <= b
  {
    if n == 0 then 0 else 2 * AndBits(a / 2, b / 2, n - 1) + if a % 2 == 1 && b % 2 == 1 then 1 else 0
  }

  function And(a: byte, b: byte): byte {
    AndBits(a, b, 8)
  }

  function Pow2(n: nat): nat {
    if n == 0 then 1 else 2 * Pow2(n - 1)
  }

  lemma {:induction false} AndWithOnes(b: nat, n: nat)
    requires b < Pow2(n)
    ensures AndBits(Pow2(n) - 1, b, n) == b
  {
    if n != 0 {
      var ones := Pow2(n) - 1;
      assert ones == 2 * (Pow2(n - 1) - 1) + 1 && ones / 2 == Pow2(n - 1) - 1 && ones % 2 == 1;
      AndWithOnes(b / 2, n - 1);
      assert b == 2 * (b / 2) + b % 2;
    }
  }

  /** An erased cell takes any value. */
  lemma ErasedTakesAnything(b: byte)
    ensures And(0xFF, b) == b
  {
    EightBits();
    AndWithOnes(b, 8);
  }

  lemma {:induction false} AndWithZero(a: nat, n: nat)
    ensures AndBits(a, 0, n) == 0
  {
    if n != 0 {
      AndWithZero(a / 2, n - 1);
    }
  }

  /** Any cell can be cleared completely. */
  lemma AnythingTakesZero(a: byte)
    ensures And(a, 0) == 0
  {
    AndWithZero(a, 8);
  }

  /** Bit `k` is the last one once the number has been halved `k` times. */
  predicate Bit(a: nat, k: nat) {
    if k == 0 then a % 2 == 1 else Bit(a / 2, k - 1)
  }

  lemma {:induction false} AndBitsAt(a: nat, b: nat, n: nat, k: nat)
    ensures Bit(AndBits(a, b, n), k) <==> k < n && Bit(a, k) && Bit(b, k)
    decreases n + k
  {
    var r := AndBits(a, b, n);
    if n == 0 {
      if k > 0 {
        AndBitsAt(a, b, 0, k - 1);
      }
    } else if k > 0 {
      assert r / 2 == AndBits(a / 2, b / 2, n - 1);
      AndBitsAt(a / 2, b / 2, n - 1, k - 1);
    }
  }

  /** A byte is the bits it has set. */
  lemma {:induction false} SameBits(a: nat, b: nat, n: nat)
    requires a < Pow2(n) && b < Pow2(n) && forall k :: 0 <= k < n ==> (Bit(a, k) <==> Bit(b, k))
    ensures a == b
  {
    if n > 0 {
      forall k | 0 <= k < n - 1
        ensures Bit(a / 2, k) <==> Bit(b / 2, k)
      {
        assert Bit(a, k + 1) <==> Bit(b, k + 1);
      }
      SameBits(a / 2, b / 2, n - 1);
      assert Bit(a, 0) <==> Bit(b, 0);
    }
  }

  lemma EightBits()
    ensures Pow2(8) == 0x100
  {
    assert Pow2(4) == 16;
  }

  /** Programming keeps a bit exactly if it was set and is to be. */
  lemma AndIsBitwise(a: byte, b: byte, k: nat)
    ensures Bit(And(a, b), k) <==> k < 8 && Bit(a, k) && Bit(b, k)
  {
    AndBitsAt(a, b, 8, k);
  }

  /** `d` sets no bit that is clear in `a`. */
  predicate SetsNoBit(a: byte, d: byte) {
    forall k :: 0 <= k < 8 && Bit(d, k) ==> Bit(a, k)
  }

  /** A byte can be programmed onto another exactly if it sets no bit that is clear there. */
  lemma StoredExactlyWhen(a: byte, d: byte)
    ensures And(a, d) == d <==> SetsNoBit(a, d)
  {
    hide And;
    var r := And(a, d);
    if r == d {
      forall k | 0 <= k < 8 && Bit(d, k)
        ensures Bit(a, k)
      {
        AndIsBitwise(a, d, k);
      }
    }
    if SetsNoBit(a, d) {
      forall k | 0 <= k < 8
        ensures Bit(r, k) <==> Bit(d, k)
      {
        AndIsBitwise(a, d, k);
      }
      EightBits();
      SameBits(r, d, 8);
    }
  }

  /** `f` after programming `d` at `a`; cells past the end do not exist. */
  function Programmed(f: seq<byte>, a: nat, d: seq<byte>): (r: seq<byte>)
    ensures |r| == |f|
    ensures forall i :: 0 <= i < |f| ==> r[i] == if a <= i < a + |d| then And(f[i], d[i - a]) else f[i]
  {
    seq(|f|, i requires 0 <= i < |f| => if a <= i < a + |d| then And(f[i], d[i - a]) else f[i])
  }

  /** `f` after erasing the `n` cells from `a` on. */
  function Erased(f: seq<byte>, a: nat, n: nat): (r: seq<byte>)
    ensures |r| == |f|
    ensures forall i :: 0 <= i < |f| ==> r[i] == if a <= i < a + n then 0xFF else f[i]
  {
    seq(|f|, i requires 0 <= i < |f| => if a <= i < a + n then 0xFF else f[i])
  }

  /** `f` after an interrupted programming of `d` at `a`, of which the chosen cells took effect. */
  function PartlyProgrammed(f: seq<byte>, a: nat, d: seq<byte>, landed: nat -> bool): (r: seq<byte>)
    ensures |r| == |f|
    ensures forall i :: 0 <= i < |f| ==>
              r[i] == if a <= i < a + |d| && landed(i) then And(f[i], d[i - a]) else f[i]
  {
    var done := Programmed(f, a, d);
    seq(|f|, i requires 0 <= i < |f| => if landed(i) then done[i] else f[i])
  }

  /** An interrupted erase: every cell of the range is as before or erased, and nothing else has changed. */
  ghost predicate PartlyErased(f: seq<byte>, g: seq<byte>, a: nat, n: nat) {
    |f| == |g| && forall i :: 0 <= i < |f| ==> g[i] == f[i] || (a <= i < a + n && g[i] == 0xFF)
  }

  /** An interrupted programming: every cell of the range is as before or programmed, and nothing else has changed. */
  ghost predicate PartlyWritten(f: seq<byte>, g: seq<byte>, a: nat, d: seq<byte>) {
    |f| == |g| && forall i :: 0 <= i < |f| ==> g[i] == f[i] || (a <= i < a + |d| && g[i] == And(f[i], d[i - a]))
  }

  lemma WholeOrNothing(f: seq<byte>, a: nat, d: seq<byte>)
    ensures PartlyWritten(f, f, a, d) && PartlyWritten(f, Programmed(f, a, d), a, d)
  {
  }

  /** A single byte is written or not. */
  lemma OneByteWritten(f: seq<byte>, g: seq<byte>, a: nat, b: byte)
    requires PartlyWritten(f, g, a, [b])
    ensures g == f || g == Programmed(f, a, [b])
  {
  }

  /** What programming the word `v` onto erased cells may have left when it was cut off: of each byte everything or nothing. */
  predicate TornWord(w: uint32, v: uint32) {
    forall i :: 0 <= i < 4 ==> Le32(w)[i] == 0xFF || Le32(w)[i] == Le32(v)[i]
  }

  /** Erased bytes only make the word larger. */
  lemma TornWordIsLarger(w: uint32, v: uint32)
    requires TornWord(w, v)
    ensures v <= w
  {
    FromLe32OfLe32(v);
    FromLe32OfLe32(w);
  }

  lemma WordPartlyWritten(f: seq<byte>, g: seq<byte>, a: nat, v: uint32)
    requires Blank(f, a, 4) && PartlyWritten(f, g, a, Le32(v)) && a + 4 <= |f|
    ensures TornWord(Word(g, a), v)
  {
    hide And, Le32, FromLe32;
    var bytes := [Cell(g, a), Cell(g, a + 1), Cell(g, a + 2), Cell(g, a + 3)];
    Le32OfFromLe32(bytes);
    forall i | 0 <= i < 4
      ensures bytes[i] == 0xFF || bytes[i] == Le32(v)[i]
    {
      ErasedTakesAnything(Le32(v)[i]);
      assert bytes[i] == g[a + i] && Cell(f, a + i) == 0xFF;
    }
  }

  ghost predicate Blank(f: seq<byte>, a: nat, n: nat) {
    forall i :: a <= i < a + n ==> Cell(f, i) == 0xFF
  }

  /** Programming `d` at `a` needs no bit set: the cells will hold exactly `d`. */
  ghost predicate OnlyClears(f: seq<byte>, a: nat, d: seq<byte>) {
    forall i :: a <= i < a + |d| ==> And(Cell(f, i), d[i - a]) == d[i - a]
  }

  lemma BlankOnlyClears(f: seq<byte>, a: nat, d: seq<byte>)
    requires Blank(f, a, |d|)
    ensures OnlyClears(f, a, d)
  {
    forall i | a <= i < a + |d|
      ensures And(Cell(f, i), d[i - a]) == d[i - a]
    {
      ErasedTakesAnything(d[i - a]);
    }
  }

  /** NOR-compatible programming stores exactly the data. */
  lemma ProgrammedIsSpliced(f: seq<byte>, a: nat, d: seq<byte>)
    requires OnlyClears(f, a, d) && a + |d| <= |f|
    ensures Programmed(f, a, d) == Splice(f, a, d)
  {
    forall i | 0 <= i < |f|
      ensures Programmed(f, a, d)[i] == Splice(f, a, d)[i]
    {
      assert Cell(f, i) == f[i];
    }
  }

  datatype Extent = Extent(start: nat, size: nat)

  predicate InExtent(e: Extent, i: int) {
    e.start <= i < e.start + e.size
  }

  /**
   What a session may do to the flash, for crash safety.  Only the trial descriptor block and the three
   scratch extents may change.  Once `armed`, whenever the trial slot's status byte reads VALID
   the contents satisfy `commit`.
   */
  datatype Guard = Guard(
    base: seq<byte>, trial: nat, armed: bool,
    fs2: Extent, ramdump: Extent, region: Extent,
    commit: seq<byte> -> bool)
  {
    function StatusAddr(): nat {
      trial * BLOCK_SIZE + 12
    }

    predicate Writable(i: int) {
      || trial * BLOCK_SIZE <= i < trial * BLOCK_SIZE + BLOCK_SIZE
      || InExtent(fs2, i)
      || InExtent(ramdump, i)
      || InExtent(region, i)
    }

    ghost predicate CrashSafe(f: seq<byte>) {
      && |f| == |base|
      && (forall i :: 0 <= i < |f| && !Writable(i) ==> f[i] == base[i])
      && (armed && Cell(f, StatusAddr()) == STATUS_VALID ==> commit(f))
    }
  }

  datatype Option<T> = None | Some(value: T)

  class Flash {
    var cells: seq<byte>
    /** Whether no operation ever fails. */
    const reliable: bool
    ghost var faulted: bool
    ghost var guard: Option<Guard>
    /** The contents after each operation since the guard was set. */
    ghost var history: seq<seq<byte>>

    constructor (cells: seq<byte>, reliable: bool)
      ensures this.cells == cells && this.reliable == reliable
      ensures !faulted && guard == None && history == []
    {
      this.cells := cells;
      this.reliable := reliable;
      faulted := false;
      guard := None;
      history := [];
    }

    /** After every operation so far a power cut would have found a safe flash. */
    ghost predicate Valid()
      reads this
    {
      && (reliable ==> !faulted)
      && (guard.Some? ==>
            && guard.value.CrashSafe(cells)
            && forall k :: 0 <= k < |history| ==> guard.value.CrashSafe(history[k]))
    }

    /** The guard lets a data operation touch the `n` cells from `a` on: writable, and not the status byte. */
    ghost predicate MayTouch(a: nat, n: nat)
      reads this
    {
      guard.Some? ==>
        && (forall i :: a <= i < a + n && i < |cells| ==> guard.value.Writable(i))
        && (guard.value.armed ==>
              && !(a <= guard.value.StatusAddr() < a + n)
              && Cell(cells, guard.value.StatusAddr()) != STATUS_VALID)
    }

    /** An erase may also take the status byte along: it can only be lost by that. */
    ghost predicate MayErase(a: nat, n: nat)
      reads this
    {
      guard.Some? ==>
        && (forall i :: a <= i < a + n && i < |cells| ==> guard.value.Writable(i))
        && (guard.value.armed ==> Cell(cells, guard.value.StatusAddr()) != STATUS_VALID)
    }

    /** Writing the status byte is allowed only as the commit. */
    ghost predicate MayCommit(a: nat, d: seq<byte>)
      reads this
    {
      guard.Some? ==>
        && a == guard.value.StatusAddr() && |d| == 1
        && guard.value.commit(Programmed(cells, a, d))
    }

    method Erase(block: nat, blocks: nat) returns (ok: bool)
      requires Valid() && MayErase(block * BLOCK_SIZE, blocks * BLOCK_SIZE)
      modifies this`cells, this`faulted, this`history
      ensures Valid() && history == old(history) + [cells]
      ensures ok ==> cells == Erased(old(cells), block * BLOCK_SIZE, blocks * BLOCK_SIZE) && faulted == old(faulted)
      ensures !ok && (block + blocks) * BLOCK_SIZE <= |cells| ==> faulted && !reliable
      ensures !ok && (block + blocks) * BLOCK_SIZE > |cells| ==> cells == old(cells) && faulted == old(faulted)
      ensures PartlyErased(old(cells), cells, block * BLOCK_SIZE, blocks * BLOCK_SIZE)
      ensures SameOutside(old(cells), cells, block * BLOCK_SIZE, blocks * BLOCK_SIZE)
    {
      if (block + blocks) * BLOCK_SIZE > |cells| {
        ok := false;
      } else {
        ok := *;
        ok := ok || reliable;
        if ok {
          cells := Erased(cells, block * BLOCK_SIZE, blocks * BLOCK_SIZE);
        } else {
          var landed: nat -> bool := *;
          var from, to := block * BLOCK_SIZE, (block + blocks) * BLOCK_SIZE;
          var was := cells;
          cells := seq(|was|, i requires 0 <= i < |was| => if from <= i < to && landed(i) then 0xFF else was[i]);
          faulted := true;
        }
      }
      history := history + [cells];
    }

    method Write(addr: nat, data: seq<byte>) returns (ok: bool)
      requires Valid() && OnlyClears(cells, addr, data)
      requires MayTouch(addr, |data|) || MayCommit(addr, data)
      modifies this`cells, this`faulted, this`history
      ensures Valid() && history == old(history) + [cells]
      ensures ok ==> cells == Programmed(old(cells), addr, data) && faulted == old(faulted)
      ensures !ok && addr + |data| <= |cells| ==> faulted && !reliable
      ensures !ok && addr + |data| > |cells| ==> cells == old(cells) && faulted == old(faulted)
      ensures PartlyWritten(old(cells), cells, addr, data)
      ensures SameOutside(old(cells), cells, addr, |data|)
    {
      if addr + |data| > |cells| {
        ok := false;
      } else {
        ok := *;
        ok := ok || reliable;
        if ok {
          cells := Programmed(cells, addr, data);
        } else {
          var landed: nat -> bool := *;
          cells := PartlyProgrammed(cells, addr, data, landed);
          faulted := true;
          assert |data| == 1 ==> cells == old(cells) || cells == Programmed(old(cells), addr, data);
        }
      }
      history := history + [cells];
    }
  }
}
