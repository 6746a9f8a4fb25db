/**
 The QCSPI driver: byte-granular access to a slave memory whose bus moves only whole,
 4-aligned words.  Bus failures are nondeterministic; a failed write may have landed on
 any of the words it addressed.
 */
module Qcspi {
  import opened Bytes

  const MAX_INIT_TRY_TIMES: nat := 50
  const MAX_TRANSFER_SIZE: nat := 1500

  datatype Rc = Success | Invalid | TimedOut | BusError

  /** Bytes of the first (partly addressed) word that belong to the transfer. */
  function HeadSize(addr: nat, n: nat): nat {
    if 4 - addr % 4 > n then n else 4 - addr % 4
  }

  /** The longest single bus transfer an access of `n` bytes at `addr` is split into. */
  function LongestTransfer(addr: nat, n: nat): nat {
    if addr % 4 == 0 && n % 4 == 0 then n
    else
      var middle := (n - HeadSize(addr, n)) / 4 * 4;
      if middle > 4 then middle else 4
  }

  /** How an unaligned access splits: the first word lies in memory, and the rest starts on a word. */
  lemma UnalignedSplit(addr: nat, n: nat, size: nat)
    requires addr % 4 != 0 || n % 4 != 0
    requires size % 4 == 0 && addr < size
    ensures (addr - addr % 4) % 4 == 0 && addr - addr % 4 + 4 <= size
    ensures
      var head := HeadSize(addr, n);
      && head <= n && addr % 4 + head <= 4
      && (head < n ==> (addr + head) % 4 == 0)
      && LongestTransfer(addr, n) == if (n - head) / 4 * 4 > 4 then (n - head) / 4 * 4 else 4
  {
  }

  /** Every byte of `r` is the one of `m` or, inside the written range, the new one. */
  ghost predicate Torn(m: seq<byte>, r: seq<byte>, a: nat, d: seq<byte>) {
    && |r| == |m|
    && a + |d| <= |m|
    && forall i :: 0 <= i < |m| ==> r[i] == m[i] || (a <= i < a + |d| && r[i] == d[i - a])
  }

  /** Like `Torn`, but each aligned word of the range has either landed or not. */
  ghost predicate TornByWord(m: seq<byte>, r: seq<byte>, a: nat, d: seq<byte>)
    requires |d| % 4 == 0
  {
    && Torn(m, r, a, d)
    && forall k :: 0 <= k < |d| / 4 ==>
         var at := a + 4 * k;
         r[at..at + 4] == m[at..at + 4] || r[at..at + 4] == d[4 * k..4 * k + 4]
  }

  /** The memory after a write of which only the words chosen by `landed` arrived. */
  function Landed(m: seq<byte>, a: nat, d: seq<byte>, landed: nat -> bool): (r: seq<byte>)
    requires a + |d| <= |m|
    ensures |r| == |m|
    ensures forall i :: 0 <= i < |m| ==> r[i] == if a <= i < a + |d| && landed((i - a) / 4) then d[i - a] else m[i]
  {
    seq(|m|, i requires 0 <= i < |m| => if a <= i < a + |d| && landed((i - a) / 4) then d[i - a] else m[i])
  }

  lemma LandedIsTornByWord(m: seq<byte>, a: nat, d: seq<byte>, landed: nat -> bool)
    requires a + |d| <= |m| && |d| % 4 == 0
    ensures TornByWord(m, Landed(m, a, d, landed), a, d)
  {
    var r := Landed(m, a, d, landed);
    forall k | 0 <= k < |d| / 4
      ensures
        var at := a + 4 * k;
        r[at..at + 4] == m[at..at + 4] || r[at..at + 4] == d[4 * k..4 * k + 4]
    {
      var at := a + 4 * k;
      forall i | at <= i < at + 4
        ensures r[i] == if landed(k) then d[i - a] else m[i]
      {
        assert (i - a) / 4 == k;
      }
      if landed(k) {
        assert r[at..at + 4] == d[4 * k..4 * k + 4];
      } else {
        assert r[at..at + 4] == m[at..at + 4];
      }
    }
  }

  lemma SpliceIsTornByWord(m: seq<byte>, a: nat, d: seq<byte>)
    requires a + |d| <= |m| && |d| % 4 == 0
    ensures TornByWord(m, Splice(m, a, d), a, d)
  {
    var r := Splice(m, a, d);
    forall k | 0 <= k < |d| / 4
      ensures r[a + 4 * k..a + 4 * k + 4] == d[4 * k..4 * k + 4]
    {
    }
  }

  /** Patching a word that was read first changes only the patched bytes. */
  lemma PatchedWord(m: seq<byte>, r: seq<byte>, aligned: nat, word: seq<byte>, offset: nat, d: seq<byte>)
    requires |word| == 4 && offset + |d| <= 4 && aligned + 4 <= |m|
    requires forall i :: aligned <= i < aligned + 4 ==>
               word[i - aligned] == if offset <= i - aligned < offset + |d| then d[i - aligned - offset] else m[i]
    requires Torn(m, r, aligned, word)
    ensures Torn(m, r, aligned + offset, d)
    ensures r == Splice(m, aligned, word) ==> r == Splice(m, aligned + offset, d)
  {
  }

  /** The first `upto` bytes of `d` have been written at `a`, and nothing else has changed. */
  ghost predicate WrittenUpTo(m: seq<byte>, r: seq<byte>, a: nat, d: seq<byte>, upto: nat) {
    && |r| == |m|
    && upto <= |d| && a + |d| <= |m|
    && forall i :: 0 <= i < |m| ==> r[i] == if a <= i < a + upto then d[i - a] else m[i]
  }

  /** Writing bytes [from, to) of `d` after bytes [0, from) have been written. */
  lemma WriteContinues(m: seq<byte>, mid: seq<byte>, r: seq<byte>, a: nat, d: seq<byte>, from: nat, to: nat)
    requires from <= to <= |d| && WrittenUpTo(m, mid, a, d, from)
    requires Torn(mid, r, a + from, d[from..to])
    ensures Torn(m, r, a, d)
    ensures r == Splice(mid, a + from, d[from..to]) ==> WrittenUpTo(m, r, a, d, to)
  {
  }

  /**
   The completion poll shared by reads and writes.  `idle(k)` says whether the k-th status
   read succeeded and showed the busy bit clear.  The transfer is reported complete exactly when one of
   the first MAX_INIT_TRY_TIMES - 1 status reads did.
   */
  method PollUntilIdle(idle: nat -> bool) returns (rc: Rc, polls: nat)
    ensures rc == Success <==> exists k :: 0 <= k < 49 && idle(k)
    ensures rc != Success ==> rc == TimedOut && polls == MAX_INIT_TRY_TIMES - 1
    ensures rc == Success ==> 0 < polls < MAX_INIT_TRY_TIMES && idle(polls - 1) && forall k :: 0 <= k < polls - 1 ==> !idle(k)
  {
    var retry := 0;
    polls := 0;
    while retry < MAX_INIT_TRY_TIMES
      invariant polls == retry < MAX_INIT_TRY_TIMES - 1
      invariant forall k :: 0 <= k < retry ==> !idle(k)
      decreases MAX_INIT_TRY_TIMES - retry
    {
      retry := retry + 1;
      polls := polls + 1;
      if idle(polls - 1) {
        return Success, polls;
      }
      if retry == MAX_INIT_TRY_TIMES - 1 {
        return TimedOut, polls;
      }
    }
    assert false;
    rc := Success;
  }

  class Driver {
    /** Slave memory, as reachable over the bus. */
    var mem: seq<byte>
    /** Whether every bus transfer goes through. */
    const reliable: bool

    constructor (mem: seq<byte>, reliable: bool)
      ensures this.mem == mem && this.reliable == reliable
    {
      this.mem := mem;
      this.reliable := reliable;
    }

    /** Reads whole words at an aligned address into `buf` from index `at` on. */
    method Read(size: nat, addr: nat, buf: array<byte>, at: nat) returns (rc: Rc)
      requires addr % 4 == 0 && size % 4 == 0
      requires addr + size <= |mem| && at + size <= buf.Length
      modifies buf
      ensures forall i :: 0 <= i < buf.Length && !(at <= i < at + size) ==> buf[i] == old(buf[i])
      ensures rc == Success ==> size <= MAX_TRANSFER_SIZE && (forall i :: at <= i < at + size ==> buf[i] == mem[addr + i - at])
      ensures reliable && size <= MAX_TRANSFER_SIZE ==> rc == Success
      ensures size > MAX_TRANSFER_SIZE ==> rc == Invalid && buf[..] == old(buf[..])
    {
      if size > MAX_TRANSFER_SIZE {
        return Invalid;
      }
      var headerSent: bool := *;
      if !headerSent && !reliable {
        return BusError;
      }
      var received: bool := *;
      if !received && !reliable {
        var noise: nat -> byte := *;
        forall i | at <= i < at + size {
          buf[i] := noise(i);
        }
        return BusError;
      }
      forall i | at <= i < at + size {
        buf[i] := mem[addr + i - at];
      }
      var status: nat -> bool := *;
      var surely := reliable;
      var idle: nat -> bool := (k: nat) => surely || status(k);
      var polls;
      rc, polls := PollUntilIdle(idle);
      assert reliable ==> idle(0);
    }

    /** Writes whole words from `buf`, index `at` on, to an aligned address. */
    method Write(size: nat, addr: nat, buf: array<byte>, at: nat) returns (rc: Rc)
      requires addr % 4 == 0 && size % 4 == 0
      requires addr + size <= |mem| && at + size <= buf.Length
      modifies this`mem
      ensures rc == Success ==> size <= MAX_TRANSFER_SIZE && mem == Splice(old(mem), addr, buf[at..at + size])
      ensures TornByWord(old(mem), mem, addr, buf[at..at + size])
      ensures reliable && size <= MAX_TRANSFER_SIZE ==> rc == Success
      ensures size > MAX_TRANSFER_SIZE ==> rc == Invalid && mem == old(mem)
    {
      ghost var data := buf[at..at + size];
      assert TornByWord(mem, mem, addr, data);
      if size > MAX_TRANSFER_SIZE {
        return Invalid;
      }
      var headerSent: bool := *;
      if !headerSent && !reliable {
        return BusError;
      }
      var sent: bool := *;
      if !sent && !reliable {
        var landed: nat -> bool := *;
        LandedIsTornByWord(mem, addr, data, landed);
        mem := Landed(mem, addr, buf[at..at + size], landed);
        return BusError;
      }
      SpliceIsTornByWord(mem, addr, data);
      mem := Splice(mem, addr, buf[at..at + size]);
      var status: nat -> bool := *;
      var surely := reliable;
      var idle: nat -> bool := (k: nat) => surely || status(k);
      var polls;
      rc, polls := PollUntilIdle(idle);
      assert reliable ==> idle(0);
    }

    /** Reads `n` bytes at any address. */
    method ReadAddrAlign(n: nat, addr: nat, buf: array<byte>) returns (rc: Rc)
      requires n <= buf.Length && n < 0x1_0000
      requires |mem| % 4 == 0 && addr + n <= |mem| && addr < |mem|
      modifies buf
      ensures forall i :: n <= i < buf.Length ==> buf[i] == old(buf[i])
      ensures rc == Success ==> buf[..n] == mem[addr..addr + n]
      ensures reliable ==> (rc == Success <==> LongestTransfer(addr, n) <= MAX_TRANSFER_SIZE)
      ensures rc == Success ==> LongestTransfer(addr, n) <= MAX_TRANSFER_SIZE
    {
      if addr % 4 == 0 && n % 4 == 0 {
        rc := Read(n, addr, buf, 0);
        return;
      }
      UnalignedSplit(addr, n, |mem|);
      var word := new byte[4];
      var aligned := addr - addr % 4;
      rc := Read(4, aligned, word, 0);
      if rc != Success {
        return;
      }
      var size := HeadSize(addr, n);
      CopyBytes(word, addr % 4, buf, 0, size);
      if size >= n {
        return Success;
      }
      rc := ReadFromWord(n, addr, buf, size);
    }

    /** The middle words and the last, partly addressed word of `ReadAddrAlign`. */
    method ReadFromWord(n: nat, addr: nat, buf: array<byte>, head: nat) returns (rc: Rc)
      requires head < n <= buf.Length
      requires (addr + head) % 4 == 0 && |mem| % 4 == 0 && addr + n <= |mem|
      requires forall i :: 0 <= i < head ==> buf[i] == mem[addr + i]
      modifies buf
      ensures forall i :: n <= i < buf.Length ==> buf[i] == old(buf[i])
      ensures rc == Success ==> forall i :: 0 <= i < n ==> buf[i] == mem[addr + i]
      ensures rc == Success ==> (n - head) / 4 * 4 <= MAX_TRANSFER_SIZE
      ensures reliable && (n - head) / 4 * 4 <= MAX_TRANSFER_SIZE ==> rc == Success
    {
      var total := head;
      if n >= total + 4 {
        var size := (n - total) / 4 * 4;
        rc := Read(size, addr + total, buf, total);
        if rc != Success {
          return;
        }
        total := total + size;
        if total >= n {
          return Success;
        }
      }
      rc := ReadTail(n, addr, buf, total);
    }

    /** The last, partly addressed word of `ReadAddrAlign`. */
    method ReadTail(n: nat, addr: nat, buf: array<byte>, total: nat) returns (rc: Rc)
      requires total < n <= buf.Length && n < total + 4
      requires (addr + total) % 4 == 0 && |mem| % 4 == 0 && addr + n <= |mem|
      requires forall i :: 0 <= i < total ==> buf[i] == mem[addr + i]
      modifies buf
      ensures forall i :: n <= i < buf.Length ==> buf[i] == old(buf[i])
      ensures rc == Success ==> forall i :: 0 <= i < n ==> buf[i] == mem[addr + i]
      ensures reliable ==> rc == Success
    {
      var word := new byte[4];
      rc := Read(4, addr + total, word, 0);
      if rc != Success {
        return;
      }
      CopyBytes(word, 0, buf, total, n - total);
    }

    /** memcpy of `n` bytes between two different buffers. */
    static method CopyBytes(src: array<byte>, from: nat, dst: array<byte>, to: nat, n: nat)
      requires src != dst && from + n <= src.Length && to + n <= dst.Length
      modifies dst
      ensures forall i :: 0 <= i < dst.Length ==>
                dst[i] == if to <= i < to + n then src[from + i - to] else old(dst[i])
    {
      forall i | to <= i < to + n {
        dst[i] := src[from + i - to];
      }
    }


    /** Writes the first `n` bytes of `buf` to any address. */
    method WriteAddrAlign(n: nat, addr: nat, buf: array<byte>) returns (rc: Rc)
      requires n <= buf.Length && n < 0x1_0000
      requires |mem| % 4 == 0 && addr + n <= |mem| && addr < |mem|
      modifies this`mem
      ensures rc == Success ==> mem == Splice(old(mem), addr, buf[..n])
      ensures Torn(old(mem), mem, addr, buf[..n])
      ensures addr % 4 == 0 && n % 4 == 0 ==> TornByWord(old(mem), mem, addr, buf[..n])
      ensures reliable ==> (rc == Success <==> LongestTransfer(addr, n) <= MAX_TRANSFER_SIZE)
      ensures rc == Success ==> LongestTransfer(addr, n) <= MAX_TRANSFER_SIZE
    {
      if addr % 4 == 0 && n % 4 == 0 {
        rc := Write(n, addr, buf, 0);
      } else {
        rc := WriteUnaligned(n, addr, buf, buf[..n]);
      }
    }

    method WriteUnaligned(n: nat, addr: nat, buf: array<byte>, ghost data: seq<byte>) returns (rc: Rc)
      requires n <= buf.Length && n < 0x1_0000 && data == buf[..n]
      requires |mem| % 4 == 0 && addr + n <= |mem| && addr < |mem|
      requires !(addr % 4 == 0 && n % 4 == 0)
      modifies this`mem
      ensures Torn(old(mem), mem, addr, data)
      ensures rc == Success ==> WrittenUpTo(old(mem), mem, addr, data, n)
      ensures reliable ==> (rc == Success <==> LongestTransfer(addr, n) <= MAX_TRANSFER_SIZE)
      ensures rc == Success ==> LongestTransfer(addr, n) <= MAX_TRANSFER_SIZE
    {
      UnalignedSplit(addr, n, |mem|);
      var offset, size := addr % 4, HeadSize(addr, n);
      rc := WriteWithin(addr - offset, offset, buf, 0, size);
      assert data[0..size] == buf[0..size];
      WriteContinues(old(mem), old(mem), mem, addr, data, 0, size);
      if rc != Success || size >= n {
        return;
      }
      rc := WriteFromWord(n, addr, buf, size, old(mem), data);
    }

    /** Read-modify-write of one word: `n` bytes of `buf` from `at` on go to `offset` inside the word. */
    method WriteWithin(aligned: nat, offset: nat, buf: array<byte>, at: nat, n: nat) returns (rc: Rc)
      requires aligned % 4 == 0 && offset + n <= 4 && at + n <= buf.Length
      requires aligned + 4 <= |mem|
      modifies this`mem
      ensures Torn(old(mem), mem, aligned + offset, buf[at..at + n])
      ensures rc == Success ==> mem == Splice(old(mem), aligned + offset, buf[at..at + n])
      ensures reliable ==> rc == Success
    {
      var word := new byte[4](_ => 0);
      rc := Read(4, aligned, word, 0);
      if rc != Success {
        return;
      }
      CopyBytes(buf, at, word, offset, n);
      ghost var patched := word[0..4];
      rc := Write(4, aligned, word, 0);
      PatchedWord(old(mem), mem, aligned, patched, offset, buf[at..at + n]);
    }

    /** The middle words and the last, partly addressed word of `WriteAddrAlign`. */
    method WriteFromWord(n: nat, addr: nat, buf: array<byte>, head: nat, ghost before: seq<byte>, ghost data: seq<byte>)
      returns (rc: Rc)
      requires head < n <= buf.Length && data == buf[..n]
      requires (addr + head) % 4 == 0 && |mem| % 4 == 0
      requires WrittenUpTo(before, mem, addr, data, head)
      modifies this`mem
      ensures Torn(before, mem, addr, data)
      ensures rc == Success ==> WrittenUpTo(before, mem, addr, data, n)
      ensures rc == Success ==> (n - head) / 4 * 4 <= MAX_TRANSFER_SIZE
      ensures reliable && (n - head) / 4 * 4 <= MAX_TRANSFER_SIZE ==> rc == Success
    {
      var total := head;
      if n >= total + 4 {
        var size := (n - total) / 4 * 4;
        rc := Write(size, addr + head, buf, total);
        assert data[total..total + size] == buf[total..total + size];
        WriteContinues(before, old(mem), mem, addr, data, total, total + size);
        if rc != Success {
          return;
        }
        total := total + size;
        if total >= n {
          return Success;
        }
      }
      rc := WriteTail(n, addr, buf, total, before, data);
    }

    /** The last, partly addressed word of `WriteAddrAlign`. */
    method WriteTail(n: nat, addr: nat, buf: array<byte>, total: nat, ghost before: seq<byte>, ghost data: seq<byte>)
      returns (rc: Rc)
      requires total < n <= buf.Length && n < total + 4 && data == buf[..n]
      requires (addr + total) % 4 == 0 && |mem| % 4 == 0
      requires WrittenUpTo(before, mem, addr, data, total)
      modifies this`mem
      ensures Torn(before, mem, addr, data)
      ensures rc == Success ==> WrittenUpTo(before, mem, addr, data, n)
      ensures reliable ==> rc == Success
    {
      assert data[total..n] == buf[total..n];
      ghost var mid := mem;
      rc := WriteWithin(addr + total, 0, buf, total, n - total);
      WriteContinues(before, mid, mem, addr, data, total, n);
    }
  }

  /** Whatever the address and the length, reading a range back after writing it gives the data, and no byte outside the
      range has changed; on a bus that works both calls go through exactly when the longest transfer fits. */
  method WriteThenRead(driver: Driver, n: nat, addr: nat, src: array<byte>, dst: array<byte>) returns (rc: Rc)
    requires n <= src.Length && n <= dst.Length && src != dst && n < 0x1_0000
    requires |driver.mem| % 4 == 0 && addr + n <= |driver.mem| && addr < |driver.mem|
    modifies driver`mem, dst
    ensures rc == Success ==> dst[..n] == src[..n]
    ensures SameOutside(old(driver.mem), driver.mem, addr, n)
    ensures driver.reliable ==> (rc == Success <==> LongestTransfer(addr, n) <= MAX_TRANSFER_SIZE)
  {
    hide LongestTransfer, TornByWord;
    rc := driver.WriteAddrAlign(n, addr, src);
    if rc == Success {
      SplicedSlice(old(driver.mem), addr, src[..n]);
      rc := driver.ReadAddrAlign(n, addr, dst);
    }
  }

  lemma SplicedSlice(m: seq<byte>, a: nat, d: seq<byte>)
    requires a + |d| <= |m|
    ensures Splice(m, a, d)[a..a + |d|] == d
  {
    var r := Splice(m, a, d);
    assert forall i :: 0 <= i < |d| ==> r[a..a + |d|][i] == d[i];
  }
}
