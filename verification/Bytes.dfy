/** Bytes, little-endian words and byte-sequence surgery shared by the flash and the SPI models. */
module Bytes {

  type byte = b: int | 0 <= b < 0x100

  const TWO_TO_THE_32: nat := 0x1_0000_0000

  type uint32 = w: int | 0 <= w < 0x1_0000_0000

  /** The four bytes of `w`, least significant first. */
  function Le32(w: uint32): (s: seq<byte>)
    ensures |s| == 4
  {
    [w % 0x100, w / 0x100 % 0x100, w / 0x1_0000 % 0x100, w / 0x100_0000]
  }

  /** The word stored at four consecutive bytes. */
  function FromLe32(s: seq<byte>): uint32
    requires |s| == 4
  {
    (s[0] as int) + 0x100 * (s[1] as int) + 0x1_0000 * (s[2] as int) + 0x100_0000 * (s[3] as int)
  }

  lemma FromLe32OfLe32(w: uint32)
    ensures FromLe32(Le32(w)) == w
  {
    var high := w / 0x100;
    var higher := high / 0x100;
    assert high / 0x100 == w / 0x1_0000;
    assert higher / 0x100 == w / 0x100_0000;
    assert w / 0x100_0000 < 0x100;
  }

  /** A word's bytes determine it, and the other way round. */
  lemma Le32OfFromLe32(s: seq<byte>)
    requires |s| == 4
    ensures Le32(FromLe32(s)) == s
  {
    var b0: int, b1: int, b2: int, b3: int := s[0], s[1], s[2], s[3];
    var w := FromLe32(s);
    assert w == b0 + 0x100 * (b1 + 0x100 * (b2 + 0x100 * b3));
    assert w % 0x100 == b0 && w / 0x100 == b1 + 0x100 * (b2 + 0x100 * b3);
    assert w / 0x1_0000 == b2 + 0x100 * b3 && w / 0x100_0000 == b3;
  }

  /** A byte of a memory; cells past its end read as erased. */
  function Cell(m: seq<byte>, i: nat): byte {
    if i < |m| then m[i] else 0xFF
  }

  /** The little-endian word at address `a`. */
  function Word(m: seq<byte>, a: nat): uint32 {
    FromLe32([Cell(m, a), Cell(m, a + 1), Cell(m, a + 2), Cell(m, a + 3)])
  }

  /** `m` and `r` read the same in [a, a + n). */
  ghost predicate SameCells(m: seq<byte>, r: seq<byte>, a: nat, n: nat) {
    forall i :: a <= i < a + n ==> Cell(m, i) == Cell(r, i)
  }

  lemma SameWord(m: seq<byte>, r: seq<byte>, a: nat)
    requires SameCells(m, r, a, 4)
    ensures Word(m, a) == Word(r, a)
  {
    assert Cell(m, a) == Cell(r, a) && Cell(m, a + 1) == Cell(r, a + 1);
    assert Cell(m, a + 2) == Cell(r, a + 2) && Cell(m, a + 3) == Cell(r, a + 3);
  }

  lemma WordOfLe32(m: seq<byte>, a: nat, w: uint32)
    requires forall i :: a <= i < a + 4 ==> Cell(m, i) == Le32(w)[i - a]
    ensures Word(m, a) == w
  {
    assert [Cell(m, a), Cell(m, a + 1), Cell(m, a + 2), Cell(m, a + 3)] == Le32(w);
    FromLe32OfLe32(w);
  }

  /** `m` with the bytes from `a` on replaced by `d`. */
  function Splice(m: seq<byte>, a: nat, d: seq<byte>): (r: seq<byte>)
    requires a + |d| <= |m|
    ensures |r| == |m|
    ensures forall i :: 0 <= i < |m| ==> r[i] == if a <= i < a + |d| then d[i - a] else m[i]
  {
    m[..a] + d + m[a + |d|..]
  }

  lemma WordOfSplice(m: seq<byte>, a: nat, w: uint32)
    requires a + 4 <= |m|
    ensures Word(Splice(m, a, Le32(w)), a) == w
  {
    var r := Splice(m, a, Le32(w));
    assert [Cell(r, a), Cell(r, a + 1), Cell(r, a + 2), Cell(r, a + 3)] == Le32(w);
    FromLe32OfLe32(w);
  }

  /** `m` and `r` hold the same bytes everywhere except in [a, a + n). */
  ghost predicate SameOutside(m: seq<byte>, r: seq<byte>, a: int, n: int) {
    && |m| == |r|
    && forall i :: 0 <= i < |m| && !(a <= i < a + n) ==> r[i] == m[i]
  }

  // Fields one after the other

  /** The bytes `d` are in `m` from `a` on. */
  ghost predicate Stored(m: seq<byte>, a: nat, d: seq<byte>) {
    forall i :: a <= i < a + |d| ==> Cell(m, i) == d[i - a]
  }

  lemma TwoStored(m: seq<byte>, a: nat, x: seq<byte>, y: seq<byte>)
    requires Stored(m, a, x + y)
    ensures Stored(m, a, x) && Stored(m, a + |x|, y)
  {
    forall i | a <= i < a + |x|
      ensures Cell(m, i) == x[i - a]
    {
      assert (x + y)[i - a] == x[i - a];
    }
    forall i | a + |x| <= i < a + |x| + |y|
      ensures Cell(m, i) == y[i - a - |x|]
    {
      assert (x + y)[i - a] == y[i - a - |x|];
    }
  }

  lemma WordStored(m: seq<byte>, a: nat, w: uint32, rest: seq<byte>)
    requires Stored(m, a, Le32(w) + rest)
    ensures Word(m, a) == w && Stored(m, a + 4, rest)
  {
    hide Word, Le32;
    TwoStored(m, a, Le32(w), rest);
    WordOfLe32(m, a, w);
  }

  lemma ByteStored(m: seq<byte>, a: nat, b: byte, rest: seq<byte>)
    requires Stored(m, a, [b] + rest)
    ensures Cell(m, a) == b && Stored(m, a + 1, rest)
  {
    TwoStored(m, a, [b], rest);
    assert [b][a - a] == b;
  }
}
