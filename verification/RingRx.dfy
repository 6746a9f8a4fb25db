/**
 The host's receive side of a ring.  The slave fills slots, marks them valid and publishes its write index; the host
 reads the packet, clears the descriptor, advances its cached read index and publishes it.
 */
module RingRx {
  import opened Bytes
  import opened Qcspi
  import opened RingLayout

  /** Slots from counter `from` on hold the packets of that number. */
  ghost predicate Filled(m: seq<byte>, r: Ring, from: nat, packets: seq<seq<byte>>)
    requires 0 < r.count
  {
    forall k :: from <= k < |packets| ==> Holds(m, r, SlotOf(r.count, k), packets[k])
  }

  /** Slots from counter `from` up to `to` are not marked valid. */
  ghost predicate Unmarked(m: seq<byte>, r: Ring, from: nat, to: nat)
    requires 0 < r.count
  {
    forall k :: from <= k < to ==> !SlotValid(m, r, SlotOf(r.count, k))
  }

  /** A slot as the slave leaves it when it marks it valid. */
  predicate WellFormed(m: seq<byte>, r: Ring, j: nat) {
    var w := Word(m, r.DescAddr(j) + 4);
    Word(m, r.DescAddr(j)) == r.BufAddr(j) && MarkedValid(w) && LengthOf(w) <= r.bufSize
  }

  lemma WellFormedHolds(m: seq<byte>, r: Ring, j: nat)
    requires WellFormed(m, r, j) && RingOk(r, |m|) && j < r.count
    ensures Holds(m, r, j, PacketIn(m, r, j))
  {
    hide Word, RingOk, Ring.DescAddr, Ring.BufAddr, MarkedValid;
    SlotInside(r, |m|, j);
    BytesAt(m, r.BufAddr(j), PacketIn(m, r, j));
  }

  /**
   The slave owns the write index and the slots it has not filled: it leaves the slots waiting for the host
   alone and marks a slot valid only when its packet is complete.  It may set other flags, fill several slots before it
   publishes them, and publish before it fills.
   */
  predicate SlaveMay(m: seq<byte>, m': seq<byte>, r: Ring, head: nat, filled: nat, filled': nat, written': nat)
    requires 0 < r.count
  {
    && |m'| == |m|
    && (forall i :: r.rdAddr <= i < r.rdAddr + 4 ==> Cell(m, i) == Cell(m', i))
    && Word(m', r.wrAddr) == SlotOf(r.count, written')
    && (forall k :: head <= k < filled ==> SameSlot(m, m', r, SlotOf(r.count, k)))
    && (forall k :: filled <= k < filled' ==> WellFormed(m', r, SlotOf(r.count, k)))
    && (forall k :: filled' <= k < head + r.count ==> !SlotValid(m', r, SlotOf(r.count, k)))
  }

  /** The packets the slave has just put into its slots. */
  function Produced(m: seq<byte>, r: Ring, from: nat, to: nat): (s: seq<seq<byte>>)
    requires 0 < r.count && from <= to
    ensures |s| == to - from
  {
    seq(to - from, i requires 0 <= i => PacketIn(m, r, SlotOf(r.count, from + i)))
  }

  lemma FilledAfter(m: seq<byte>, m': seq<byte>, r: Ring, head: nat, from: nat, packets: seq<seq<byte>>, filled': nat, written': nat)
    requires RingOk(r, |m|) && Filled(m, r, from, packets) && head <= from
    requires |packets| <= filled' && SlaveMay(m, m', r, head, |packets|, filled', written')
    ensures 0 < r.count && Filled(m', r, from, packets + Produced(m', r, |packets|, filled'))
    ensures Unmarked(m', r, filled', head + r.count)
    ensures |m'| == |m| && Word(m', r.rdAddr) == Word(m, r.rdAddr) && Word(m', r.wrAddr) == SlotOf(r.count, written')
    ensures forall k :: head <= k < |packets| ==> SameSlot(m, m', r, SlotOf(r.count, k))
  {
    hide Holds, SameSlot, Word, PacketIn, WellFormed, RingOk, SlotValid;
    MemoryWords(r, |m|);
    var all := packets + Produced(m', r, |packets|, filled');
    forall k | from <= k < |all|
      ensures Holds(m', r, SlotOf(r.count, k), all[k])
    {
      if k < |packets| {
        StillHeld(m, m', r, SlotOf(r.count, k), packets[k]);
      } else {
        WellFormedHolds(m', r, SlotOf(r.count, k));
      }
    }
    SameWord(m, m', r.rdAddr);
  }

  ghost predicate Increasing(log: seq<nat>, limit: nat) {
    && (forall i, j :: 0 <= i < j < |log| ==> log[i] < log[j])
    && (forall i :: 0 <= i < |log| ==> log[i] < limit)
  }

  class Receiver {
    const driver: Driver
    const ring: Ring
    const id: nat
    var initialized: bool
    var configured: bool
    /** Cached read index. */
    var rdIdx: nat
    var rxCount: nat
    var rxErrors: nat

    /** Packets the host has taken off the ring, and those the shared read index covers. */
    var taken: nat
    var acknowledged: nat
    /** Packets the slave has put into slots, and those the shared write index covers. */
    var filled: nat
    var written: nat

    /** All packets the slave has produced, and the numbers of those handed to the caller. */
    ghost var produced: seq<seq<byte>>
    ghost var log: seq<nat>
    /** The descriptor of the head packet has been cleared although the packet was not taken. */
    ghost var jammed: bool

    /** An empty ring just initialised by the slave. */
    constructor (driver: Driver, ring: Ring, id: nat, configured: bool)
      requires RingOk(ring, |driver.mem|) && Word(driver.mem, ring.wrAddr) == Word(driver.mem, ring.rdAddr) == 0
      requires Unmarked(driver.mem, ring, 0, ring.count)
      ensures Valid() && produced == [] && initialized && this.configured == configured
      ensures this.driver == driver && this.ring == ring && this.id == id
    {
      this.driver, this.ring, this.id := driver, ring, id;
      initialized, this.configured := true, configured;
      rdIdx, rxCount, rxErrors, taken, acknowledged, filled, written := 0, 0, 0, 0, 0, 0, 0;
      produced, log, jammed := [], [], false;
    }

    /** A ring in which the slave has already put packets, and published them. */
    constructor Attached(driver: Driver, ring: Ring, id: nat, ghost packets: seq<seq<byte>>, waiting: nat)
      requires RingOk(ring, |driver.mem|) && waiting == |packets| < ring.count
      requires Word(driver.mem, ring.rdAddr) == 0 && Word(driver.mem, ring.wrAddr) == waiting
      requires Filled(driver.mem, ring, 0, packets) && Unmarked(driver.mem, ring, waiting, ring.count)
      ensures Valid() && produced == packets && taken == 0 && filled == written == waiting && !jammed
      ensures initialized && configured && this.driver == driver && this.ring == ring && this.id == id
    {
      this.driver, this.ring, this.id := driver, ring, id;
      initialized, configured := true, true;
      rdIdx, rxCount, rxErrors, taken, acknowledged, filled, written := 0, 0, 0, 0, 0, waiting, waiting;
      produced, log, jammed := packets, [], false;
    }

    ghost predicate Valid()
      reads this`rdIdx, this`taken, this`acknowledged, this`filled, this`written, this`produced, this`log, this`jammed, driver
    {
      && RingOk(ring, |driver.mem|)
      && acknowledged <= taken <= filled && Within(acknowledged, filled, written)
      && rdIdx == SlotOf(ring.count, taken) && |produced| == filled
      && Word(driver.mem, ring.rdAddr) == SlotOf(ring.count, acknowledged)
      && Word(driver.mem, ring.wrAddr) == SlotOf(ring.count, written)
      && Filled(driver.mem, ring, if jammed then taken + 1 else taken, produced)
      && Unmarked(driver.mem, ring, filled, taken + ring.count)
      && (jammed ==> taken < filled && !SlotValid(driver.mem, ring, SlotOf(ring.count, taken)))
      && Increasing(log, taken)
    }

    /** The slave stays one slot behind the shared read index, both in filling and in publishing, and less than a turn behind
        itself in publishing. */
    predicate Within(acknowledged: nat, filled: nat, written: nat) {
      filled < acknowledged + ring.count && written < acknowledged + ring.count && filled < written + ring.count
    }

    /** Whatever the slave does between two transport calls: it fills free slots and publishes them, in either order. */
    method SlaveRuns()
      requires Valid()
      modifies this`filled, this`written, this`produced, driver`mem
      ensures Valid() && old(produced) <= produced && old(written) <= written && old(filled) <= filled
      ensures |driver.mem| == |old(driver.mem)|
      ensures forall k :: taken <= k < old(filled) ==> SameSlot(old(driver.mem), driver.mem, ring, SlotOf(ring.count, k))
    {
      hide Filled, Unmarked, SameSlot, Word, Produced, RingOk, SlaveMay, SlotOf, SlotValid, Increasing;
      MemoryWords(ring, |driver.mem|);
      NothingMoves(driver.mem, ring);
      var after: seq<byte> := *;
      var filled', written' := *, *;
      if filled <= filled' && written <= written' && Within(acknowledged, filled', written')
         && SlaveMay(driver.mem, after, ring, taken, filled, filled', written') {
        FilledAfter(driver.mem, after, ring, taken, if jammed then taken + 1 else taken, produced, filled', written');
        if jammed {
          SameValidity(driver.mem, after, ring, SlotOf(ring.count, taken));
        }
        produced := produced + Produced(after, ring, filled, filled');
        filled, written := filled', written';
        driver.mem := after;
      }
    }

    /** Waiting packets by the cached read index and a write index. */
    function Waiting(wrIdx: nat): int
      reads this`rdIdx
    {
      if wrIdx >= rdIdx then wrIdx - rdIdx else ring.count - (rdIdx - wrIdx)
    }

    /** The count is right unless a stale wake-up made the host run ahead of the write index: then it is off by a whole turn. */
    lemma WaitingIs()
      requires Valid()
      ensures Waiting(SlotOf(ring.count, written)) == (if taken <= written then written - taken else ring.count - (taken - written))
      ensures taken - written < ring.count && 2 <= ring.count
    {
      hide Filled, Unmarked, Word, RingOk, Increasing;
      MemoryWords(ring, |driver.mem|);
      if taken <= written {
        DistanceOfCounters(ring.count, taken, written);
      } else {
        DistanceOfCounters(ring.count, written, taken);
      }
    }

    method ReadWriteIndex() returns (ok: bool, wr: uint32)
      requires Valid()
      modifies this`filled, this`written, this`produced, driver`mem
      ensures Valid() && old(produced) <= produced && old(written) <= written && (ok ==> wr == SlotOf(ring.count, written))
      ensures driver.reliable ==> ok
    {
      hide Filled, Unmarked, SlotOf, RingOk, Increasing, SlotValid;
      SlaveRuns();
      MemoryWords(ring, |driver.mem|);
      ok, wr := ReadWord(driver, ring.wrAddr);
    }

    /** Reads the descriptor at the head. */
    method ReadDescriptor() returns (ok: bool, addr: uint32, info: uint32)
      requires Valid()
      modifies this`filled, this`written, this`produced, driver`mem
      ensures Valid() && old(produced) <= produced && old(written) <= written
      ensures ok && MarkedValid(info) ==>
                && taken < filled && !jammed
                && addr == ring.BufAddr(SlotOf(ring.count, taken)) && LengthOf(info) == |produced[taken]|
      ensures ok && !MarkedValid(info) ==> taken == filled || jammed
      ensures driver.reliable ==> ok
    {
      hide Filled, Unmarked, SlotOf, RingOk, Increasing, Word, FromLe32, MarkedValid, Ring.DescAddr, Ring.BufAddr;
      SlaveRuns();
      MemoryWords(ring, |driver.mem|);
      SlotInside(ring, |driver.mem|, rdIdx);
      var desc := new byte[8];
      var rc := driver.ReadAddrAlign(8, ring.DescAddr(rdIdx), desc);
      ok, addr, info := rc == Success, FromLe32(desc[0..4]), FromLe32(desc[4..8]);
      if ok {
        ghost var d := desc[..8];
        assert desc[0..4] == d[0..4] && desc[4..8] == d[4..8];
        SliceOfSlice(driver.mem, ring.DescAddr(rdIdx), d);
        WordRead(driver.mem, ring.DescAddr(rdIdx), desc[0..4]);
        WordRead(driver.mem, ring.DescAddr(rdIdx) + 4, desc[4..8]);
        HeadDescriptor();
      }
    }

    /** What the head slot says. */
    lemma HeadDescriptor()
      requires Valid()
      ensures
        var j := SlotOf(ring.count, taken);
        SlotValid(driver.mem, ring, j) ==>
          && taken < filled && !jammed && Holds(driver.mem, ring, j, produced[taken])
      ensures taken < filled && !jammed ==> SlotValid(driver.mem, ring, SlotOf(ring.count, taken))
    {
      hide SlotOf, RingOk, Increasing, Word, Holds;
      MemoryWords(ring, |driver.mem|);
      if taken < filled && !jammed {
        PacketOfHeld(driver.mem, ring, SlotOf(ring.count, taken), produced[taken]);
      }
    }

    /** A packet waits at the head, intact. */
    ghost predicate HeadReady()
      reads this`taken, this`filled, this`jammed
    {
      taken < filled && !jammed
    }

    /** Reads the packet at the head. */
    method ReadData(addr: uint32, n: nat, data: array<byte>) returns (ok: bool)
      requires Valid() && HeadReady() && 0 < n <= data.Length
      requires addr == ring.BufAddr(SlotOf(ring.count, taken)) && n == |produced[taken]|
      modifies this`filled, this`written, this`produced, driver`mem, data
      ensures Valid() && HeadReady() && old(produced) <= produced && old(written) <= written
      ensures ok ==> data[..n] == produced[taken]
      ensures driver.reliable ==> (ok <==> LongestTransfer(addr, n) <= MAX_TRANSFER_SIZE)
    {
      hide Filled, Unmarked, SlotOf, RingOk, Increasing, Word, Ring.DescAddr, Ring.BufAddr, Holds, SlotValid;
      SlaveRuns();
      MemoryWords(ring, |driver.mem|);
      SlotInside(ring, |driver.mem|, SlotOf(ring.count, taken));
      HeadPacket();
      var rc := driver.ReadAddrAlign(n, addr, data);
      ok := rc == Success;
    }

    lemma HeadPacket()
      requires Valid() && HeadReady()
      ensures
        var a, p := ring.BufAddr(SlotOf(ring.count, taken)), produced[taken];
        |p| < 0x1_0000 && |p| <= ring.bufSize && (a + |p| <= |driver.mem| ==> driver.mem[a..a + |p|] == p)
    {
      hide SlotOf, RingOk, Increasing, Word, Ring.DescAddr, Ring.BufAddr, SlotValid;
      MemoryWords(ring, |driver.mem|);
      var a, p := ring.BufAddr(SlotOf(ring.count, taken)), produced[taken];
      assert Holds(driver.mem, ring, SlotOf(ring.count, taken), p);
      if a + |p| <= |driver.mem| {
        forall i | 0 <= i < |p|
          ensures driver.mem[a..a + |p|][i] == p[i]
        {
          assert Cell(driver.mem, a + i) == p[i];
        }
      }
    }

    /** Clears the descriptor at the head.  Until the read index moves on, this blocks the ring. */
    method ClearDescriptor(addr: uint32) returns (ok: bool)
      requires Valid() && HeadReady() && addr == ring.BufAddr(SlotOf(ring.count, taken))
      modifies this`filled, this`written, this`produced, this`jammed, driver`mem
      ensures Valid() && old(produced) <= produced && old(written) <= written && (ok ==> jammed)
      ensures driver.reliable ==> ok
    {
      hide Filled, Unmarked, SlotOf, RingOk, Increasing, Word, Ring.DescAddr, Ring.BufAddr, Holds, SlotValid, Le32, TornByWord;
      SlaveRuns();
      ghost var m := driver.mem;
      MemoryWords(ring, |m|);
      SlotInside(ring, |m|, rdIdx);
      HeadAddress();
      ok := WriteCleared(driver, ring.DescAddr(rdIdx), addr);
      if driver.mem != m || ok {
        HeadCleared(m);
        jammed := true;
      }
    }

    lemma HeadAddress()
      requires Valid() && HeadReady()
      ensures Word(driver.mem, ring.DescAddr(SlotOf(ring.count, taken))) == ring.BufAddr(SlotOf(ring.count, taken))
    {
      hide SlotOf, RingOk, Increasing, Word, Ring.DescAddr, Ring.BufAddr, SlotValid;
      MemoryWords(ring, |driver.mem|);
      assert Holds(driver.mem, ring, SlotOf(ring.count, taken), produced[taken]);
    }

    /** With the head descriptor cleared, everything else is as before. */
    lemma HeadCleared(m: seq<byte>)
      requires RingOk(ring, |m|) && taken < filled < taken + ring.count && |produced| == filled && !jammed
      requires Filled(m, ring, taken, produced) && Unmarked(m, ring, filled, taken + ring.count)
      requires var a := ring.DescAddr(SlotOf(ring.count, taken)); a + 8 <= |m| && driver.mem == Splice(m, a + 4, Le32(0))
      ensures Filled(driver.mem, ring, taken + 1, produced) && Unmarked(driver.mem, ring, filled, taken + ring.count)
      ensures !SlotValid(driver.mem, ring, SlotOf(ring.count, taken))
      ensures |driver.mem| == |m|
      ensures Word(driver.mem, ring.wrAddr) == Word(m, ring.wrAddr) && Word(driver.mem, ring.rdAddr) == Word(m, ring.rdAddr)
    {
      hide Word, Le32, Holds, RingOk, Ring.DescAddr, Ring.BufAddr, SlotOf;
      MemoryWords(ring, |m|);
      var j := SlotOf(ring.count, taken);
      var a := ring.DescAddr(j);
      IndexesApart(ring, |m|, j);
      WordUntouched(m, driver.mem, ring.wrAddr, a + 4, 4);
      WordUntouched(m, driver.mem, ring.rdAddr, a + 4, 4);
      WordOfSplice(m, a + 4, 0);
      forall k | taken + 1 <= k < taken + ring.count
        ensures SameSlot(m, driver.mem, ring, SlotOf(ring.count, k))
      {
        DifferentSlots(ring.count, taken, k);
        SlotsApart(ring, |m|, j, SlotOf(ring.count, k));
        SlotUntouched(m, driver.mem, ring, SlotOf(ring.count, k), a + 4, 4);
      }
      OthersKept(m);
    }

    lemma OthersKept(m: seq<byte>)
      requires 0 < ring.count && |produced| == filled < taken + ring.count && taken < filled
      requires Filled(m, ring, taken, produced) && Unmarked(m, ring, filled, taken + ring.count)
      requires forall k :: taken + 1 <= k < taken + ring.count ==> SameSlot(m, driver.mem, ring, SlotOf(ring.count, k))
      ensures Filled(driver.mem, ring, taken + 1, produced) && Unmarked(driver.mem, ring, filled, taken + ring.count)
    {
      hide Holds, SlotValid, SameSlot, SlotOf;
      forall k | taken + 1 <= k < |produced|
        ensures Holds(driver.mem, ring, SlotOf(ring.count, k), produced[k])
      {
        StillHeld(m, driver.mem, ring, SlotOf(ring.count, k), produced[k]);
      }
      forall k | filled <= k < taken + ring.count
        ensures !SlotValid(driver.mem, ring, SlotOf(ring.count, k))
      {
        SameValidity(m, driver.mem, ring, SlotOf(ring.count, k));
      }
    }

    /** Takes the packet off the ring: the cached read index moves on. */
    method Advance()
      requires Valid() && jammed
      modifies this`rdIdx, this`taken, this`jammed
      ensures Valid() && taken == old(taken) + 1 && !jammed && Increasing(log, taken - 1)
    {
      hide Filled, SlotOf, RingOk, Word, SlotValid;
      MemoryWords(ring, |driver.mem|);
      NextSlot(ring.count, taken);
      SameSlotNextTurn(ring.count, taken);
      rdIdx := (rdIdx + 1) % ring.count;
      taken := taken + 1;
      jammed := false;
    }

    /** Publishes the read index. */
    method PublishRead() returns (ok: bool)
      requires Valid()
      modifies this`filled, this`written, this`produced, this`acknowledged, driver`mem
      ensures Valid() && old(produced) <= produced && old(written) <= written
      ensures if ok then acknowledged == taken else acknowledged == old(acknowledged) || acknowledged == taken
      ensures driver.reliable ==> ok
    {
      hide Filled, Unmarked, SlotOf, RingOk, Increasing, Word, Ring.DescAddr, Ring.BufAddr, SlotValid, Le32, TornByWord;
      SlaveRuns();
      var m := driver.mem;
      MemoryWords(ring, |m|);
      ok := WriteWord(driver, ring.rdAddr, rdIdx);
      IndexKeepsSlots(m);
      if ok || driver.mem != m {
        WordOfSplice(m, ring.rdAddr, rdIdx);
        acknowledged := taken;
      }
    }

    /** The buffer holds packet number `k`, of `n` bytes. */
    ghost predicate IsPacket(data: array<byte>, n: nat, k: nat)
      reads data, this`produced
    {
      n <= data.Length && k < |produced| && n == |produced[k]| && data[..n] == produced[k]
    }

    ghost predicate EmptyAt(k: nat)
      reads this`produced
    {
      k < |produced| && produced[k] == []
    }

    /** The checks made before anything is touched. */
    function Refusal(ringId: nat, maxLen: nat): Outcome
      reads this`initialized, this`configured
    {
      if !initialized then Err(ENODEV)
      else if ringId >= MAX_RINGS || !configured || maxLen == 0 then Err(EINVAL)
      else Done(0)
    }

    /**
     Waits until there seems to be a packet.  A published one ends the wait at once; after a wake-up nobody looks again
     whether there is one.
     */
    method AwaitPacket(noWait: bool) returns (rc: Outcome, ghost woken: bool)
      requires Valid()
      modifies this`filled, this`written, this`produced, driver`mem
      ensures Valid() && old(produced) <= produced && old(written) <= written
      ensures rc == Done(0) || rc == Done(1) || (rc == Err(ETRANSPORT) && !driver.reliable)
      ensures driver.reliable && old(taken < written) ==> rc == Done(1) && !woken
      ensures rc == Done(0) ==> old(written) <= taken == written && !woken
      ensures rc == Done(1) && !woken ==> taken != written
      ensures woken ==> !noWait && rc != Done(0)
    {
      hide Valid, SlotOf, Waiting;
      woken := false;
      var ok, wr := ReadWriteIndex();
      if !ok {
        return Err(ETRANSPORT), woken;
      }
      WaitingIs();
      if Waiting(wr) == 0 {
        if noWait {
          return Done(0), woken;
        }
        var signalled: bool := *;
        if !signalled {
          return Done(0), woken;
        }
        woken := true;
        ok, wr := ReadWriteIndex();
        if !ok {
          return Err(ETRANSPORT), woken;
        }
      }
      rc := Done(1);
    }

    /** Records that the caller gets the packet just taken. */
    ghost method Deliver()
      requires Valid() && 0 < taken && Increasing(log, taken - 1)
      modifies this`log
      ensures Valid() && log == old(log) + [taken - 1]
    {
      hide Filled, Unmarked, SlotOf, RingOk, Word, SlotValid;
      log := log + [taken - 1];
    }

    /** What becomes of the packet at the head on a bus that always works. */
    ghost function HeadResult(maxLen: nat): Outcome
      requires 0 < ring.count
      reads this`taken, this`produced, this`jammed
    {
      if jammed || taken >= |produced| || produced[taken] == [] then Err(EINVAL)
      else if |produced[taken]| > maxLen then Err(EMSGSIZE)
      else if LongestTransfer(ring.BufAddr(SlotOf(ring.count, taken)), |produced[taken]|) > MAX_TRANSFER_SIZE then Err(ETRANSPORT)
      else Done(|produced[taken]|)
    }

    /** Reads the packet at the head, clears its descriptor and takes it off the ring. */
    method TakePacket(addr: uint32, n: nat, data: array<byte>) returns (r: Outcome)
      requires Valid() && HeadReady() && 0 < n <= data.Length
      requires addr == ring.BufAddr(SlotOf(ring.count, taken)) && n == |produced[taken]|
      modifies this`filled, this`written, this`produced, this`jammed, this`rdIdx, this`taken, this`acknowledged, this`log
      modifies this`rxCount, driver`mem, data
      ensures Valid() && old(produced) <= produced && old(written) <= written
      ensures r.Done? ==>
                && r.value == n && taken == old(taken) + 1 == acknowledged && log == old(log) + [old(taken)] && !jammed
                && IsPacket(data, n, old(taken)) && rxCount == old(rxCount) + 1
      ensures r.Err? ==>
                && r.errno == ETRANSPORT && log == old(log) && rxCount == old(rxCount)
                && (taken == old(taken) || (taken == old(taken) + 1 && !driver.reliable))
                && (taken == old(taken) && jammed ==> !driver.reliable)
      ensures driver.reliable ==> (r.Done? <==> LongestTransfer(addr, n) <= MAX_TRANSFER_SIZE)
    {
      hide Valid, SlotOf, LongestTransfer, Ring.BufAddr;
      Counters();
      ghost var packet := produced[taken];
      var ok := ReadData(addr, n, data);
      if !ok {
        return Err(ETRANSPORT);
      }
      ok := ClearDescriptor(addr);
      if !ok {
        return Err(ETRANSPORT);
      }
      Advance();
      ok := PublishRead();
      if !ok {
        return Err(ETRANSPORT);
      }
      rxCount := rxCount + 1;
      Deliver();
      r := Done(n);
    }

    /** Takes the packet at the head, if its slot is marked valid. */
    method TakeHead(data: array<byte>, maxLen: nat) returns (r: Outcome)
      requires Valid() && 0 < maxLen <= data.Length
      modifies this`filled, this`written, this`produced, this`jammed, this`rdIdx, this`taken, this`acknowledged, this`log
      modifies this`rxCount, this`rxErrors, driver`mem, data
      ensures Valid() && old(produced) <= produced && old(written) <= written
      ensures r.Done? ==>
                && taken == old(taken) + 1 == acknowledged && log == old(log) + [old(taken)] && !old(jammed) && !jammed
                && 0 < r.value <= maxLen && IsPacket(data, r.value, old(taken))
                && rxCount == old(rxCount) + 1
      ensures r.Err? ==>
                && log == old(log) && rxCount == old(rxCount)
                && (taken == old(taken) || (taken == old(taken) + 1 && r.errno == ETRANSPORT && !driver.reliable && !old(jammed)))
      ensures r.Err? && taken == old(taken) ==> (old(jammed) ==> jammed) && (jammed && !old(jammed) ==> r.errno == ETRANSPORT && !driver.reliable)
      ensures old(EmptyAt(taken)) ==> r.Err? && taken == old(taken)
      ensures driver.reliable && (old(taken < filled) || old(jammed)) ==> 0 < ring.count && r == old(HeadResult(maxLen))
      ensures r == Err(EMSGSIZE) ==> taken == old(taken) && HeadReady() && taken < |produced| && |produced[taken]| > maxLen
      ensures r == Err(EINVAL) ==> taken == old(taken) && (taken == filled || jammed || EmptyAt(taken))
      ensures r.Done? || r.errno == EMSGSIZE || r.errno == EINVAL || r.errno == ETRANSPORT
      ensures rxErrors == old(rxErrors) + if r == Err(EMSGSIZE) || (r == Err(EINVAL) && !HeadReady()) then 1 else 0
    {
      hide Valid, SlotOf, Le32, FromLe32, LongestTransfer, Ring.BufAddr;
      Counters();
      var ok, addr, info := ReadDescriptor();
      Counters();
      if !ok {
        return Err(ETRANSPORT);
      }
      if !MarkedValid(info) {
        rxErrors := rxErrors + 1;
        return Err(EINVAL);
      }
      PacketLength();
      var n := LengthOf(info);
      if n > maxLen {
        rxErrors := rxErrors + 1;
        return Err(EMSGSIZE);
      }
      if n == 0 {
        return Err(EINVAL);
      }
      r := TakePacket(addr, n, data);
    }

    lemma Counters()
      requires Valid()
      ensures 2 <= ring.count && |produced| == filled && taken <= filled && (jammed ==> taken < filled)
    {
      hide Filled, Unmarked, Word, RingOk, Increasing, SlotOf, SlotValid;
      MemoryWords(ring, |driver.mem|);
    }

    lemma PacketLength()
      requires Valid() && HeadReady()
      ensures taken < |produced| && |produced[taken]| < 0x1_0000
    {
      hide SlotOf, RingOk, Increasing, Word, Ring.DescAddr, Ring.BufAddr, SlotValid;
      MemoryWords(ring, |driver.mem|);
      HeadPacket();
    }

    /**
     Receives the next packet.  Whatever goes wrong, packets come at most once and in order; only a failed publish after
     the packet was taken loses it.  A packet filled in and published is delivered, on a bus that works, unless its descriptor has been cleared
     before or the packet is empty, too long for the buffer, or too long for a transfer.
     */
    method Receive(ringId: nat, data: array<byte>, maxLen: nat, noWait: bool) returns (r: Outcome)
      requires Valid() && maxLen <= data.Length && (ringId < MAX_RINGS ==> ringId == id)
      modifies this`filled, this`written, this`produced, this`jammed, this`rdIdx, this`taken, this`acknowledged, this`log
      modifies this`rxCount, this`rxErrors, driver`mem, data
      ensures Valid() && old(produced) <= produced && old(written) <= written
      ensures r.Done? ==> initialized && ringId < MAX_RINGS && configured && maxLen > 0
      ensures !initialized ==> r == Err(ENODEV)
      ensures initialized && (ringId >= MAX_RINGS || !configured || maxLen == 0) ==> r == Err(EINVAL)
      ensures
        !initialized || ringId >= MAX_RINGS || !configured || maxLen == 0 ==>
          && driver.mem == old(driver.mem) && taken == old(taken) && acknowledged == old(acknowledged) && jammed == old(jammed)
          && rdIdx == old(rdIdx) && rxCount == old(rxCount) && rxErrors == old(rxErrors)
      ensures r.Done? && r.value > 0 ==>
                && taken == old(taken) + 1 == acknowledged && log == old(log) + [old(taken)] && !old(jammed)
                && IsPacket(data, r.value, old(taken)) && rxCount == old(rxCount) + 1
      ensures r == Done(0) ==>
                && taken == old(taken) && log == old(log) && jammed == old(jammed) && rxCount == old(rxCount)
                && old(written) <= taken == written
      ensures r.Err? ==>
                && log == old(log) && rxCount == old(rxCount)
                && (taken == old(taken) || (taken == old(taken) + 1 && r.errno == ETRANSPORT && !driver.reliable && !old(jammed)))
      ensures r.Err? && taken == old(taken) ==> (old(jammed) ==> jammed) && (jammed && !old(jammed) ==> r.errno == ETRANSPORT && !driver.reliable)
      ensures old(jammed) ==> taken == old(taken) && jammed
      ensures old(EmptyAt(taken)) ==> taken == old(taken)
      ensures
        initialized && ringId < MAX_RINGS && configured && maxLen > 0 && driver.reliable && old(taken < written && taken < filled) ==>
          0 < ring.count && r == old(HeadResult(maxLen))
      ensures
        initialized && ringId < MAX_RINGS && configured && maxLen > 0 && r == Err(EMSGSIZE) ==>
          taken == old(taken) && HeadReady() && taken < |produced| && |produced[taken]| > maxLen
      ensures
        initialized && ringId < MAX_RINGS && configured && maxLen > 0 && r == Err(EINVAL) ==>
          taken == old(taken) && (taken == filled || jammed || EmptyAt(taken))
      ensures
        initialized && ringId < MAX_RINGS && configured && maxLen > 0 ==>
          && (r.Err? ==> r.errno == EMSGSIZE || r.errno == EINVAL || r.errno == ETRANSPORT)
          && rxErrors == old(rxErrors) + if r == Err(EMSGSIZE) || (r == Err(EINVAL) && !HeadReady()) then 1 else 0
    {
      hide Valid, LongestTransfer, SlotOf;
      Counters();
      if Refusal(ringId, maxLen).Err? {
        return Refusal(ringId, maxLen);
      }
      ghost var woken;
      r, woken := AwaitPacket(noWait);
      Counters();
      if r != Done(1) {
        return;
      }
      r := TakeHead(data, maxLen);
    }

    /** The number of waiting packets, by the slave's write index. */
    method RxAvailable(ringId: nat) returns (r: Outcome)
      requires Valid() && (ringId < MAX_RINGS ==> ringId == id)
      modifies this`filled, this`written, this`produced, driver`mem
      ensures Valid() && old(produced) <= produced
      ensures r.Done? ==> r.value as int == if taken <= written then written - taken else ring.count - (taken - written)
      ensures r.Err? ==> r.errno == if !initialized then ENODEV else if ringId >= MAX_RINGS || !configured then EINVAL else ETRANSPORT
      ensures r.Done? ==> initialized && ringId < MAX_RINGS && configured
      ensures driver.reliable && initialized && ringId < MAX_RINGS && configured ==> r.Done?
    {
      hide Filled, Unmarked, SlotOf, Word, RingOk, Increasing, SlotValid;
      if !initialized {
        return Err(ENODEV);
      }
      if ringId >= MAX_RINGS || !configured {
        return Err(EINVAL);
      }
      var ok, wr := ReadWriteIndex();
      if !ok {
        return Err(ETRANSPORT);
      }
      WaitingIs();
      MemoryWords(ring, |driver.mem|);
      r := Done(Waiting(wr));
    }

    lemma IndexKeepsSlots(m: seq<byte>)
      requires RingOk(ring, |m|) && SameOutside(m, driver.mem, ring.rdAddr, 4)
      ensures Word(driver.mem, ring.wrAddr) == Word(m, ring.wrAddr)
      ensures forall from :: Filled(m, ring, from, produced) ==> Filled(driver.mem, ring, from, produced)
      ensures forall from, to :: Unmarked(m, ring, from, to) ==> Unmarked(driver.mem, ring, from, to)
      ensures forall k :: SlotValid(driver.mem, ring, SlotOf(ring.count, k)) == SlotValid(m, ring, SlotOf(ring.count, k))
    {
      hide Word, Holds, RingOk, Ring.DescAddr, Ring.BufAddr, SlotValid, SlotOf;
      MemoryWords(ring, |m|);
      IndexWordsApart(ring, |m|);
      WordUntouched(m, driver.mem, ring.wrAddr, ring.rdAddr, 4);
      forall j: nat | j < ring.count
        ensures SameSlot(m, driver.mem, ring, j)
        ensures SlotValid(driver.mem, ring, j) == SlotValid(m, ring, j)
      {
        IndexesApart(ring, |m|, j);
        SlotUntouched(m, driver.mem, ring, j, ring.rdAddr, 4);
        SameValidity(m, driver.mem, ring, j);
      }
      forall from: nat | Filled(m, ring, from, produced)
        ensures Filled(driver.mem, ring, from, produced)
      {
        forall k | from <= k < |produced|
          ensures Holds(driver.mem, ring, SlotOf(ring.count, k), produced[k])
        {
          StillHeld(m, driver.mem, ring, SlotOf(ring.count, k), produced[k]);
        }
      }
    }
  }

  lemma SliceOfSlice(m: seq<byte>, a: nat, d: seq<byte>)
    requires a + 8 <= |m| && d == m[a..a + 8]
    ensures d[0..4] == m[a..a + 4] && d[4..8] == m[a + 4..a + 4 + 4]
  {
  }

  /** Writes a descriptor back with length and flags cleared: its second word is cleared, or nothing has happened. */
  method WriteCleared(driver: Driver, a: nat, addr: uint32) returns (ok: bool)
    requires a % 4 == 0 && |driver.mem| % 4 == 0 && a + 8 <= |driver.mem| && Word(driver.mem, a) == addr
    modifies driver`mem
    ensures driver.mem == old(driver.mem) || driver.mem == Splice(old(driver.mem), a + 4, Le32(0))
    ensures ok ==> driver.mem == Splice(old(driver.mem), a + 4, Le32(0))
    ensures driver.reliable ==> ok
  {
    hide Le32, TornByWord, Torn, Word;
    var desc := new byte[8];
    var bytes := Le32(addr) + Le32(0);
    forall i | 0 <= i < 8 {
      desc[i] := bytes[i];
    }
    assert desc[..8] == bytes;
    ghost var m := driver.mem;
    var rc := driver.WriteAddrAlign(8, a, desc);
    ok := rc == Success;
    ClearedOrNot(m, driver.mem, a, addr);
  }

  /** Clearing a descriptor whose address word stays the same has cleared its second word, or done nothing. */
  lemma ClearedOrNot(m: seq<byte>, m': seq<byte>, a: nat, addr: uint32)
    requires a + 8 <= |m| && Word(m, a) == addr
    requires TornByWord(m, m', a, Le32(addr) + Le32(0))
    ensures m' == m || m' == Splice(m, a + 4, Le32(0))
    ensures Splice(m, a, Le32(addr) + Le32(0)) == Splice(m, a + 4, Le32(0))
  {
    hide Le32, Word;
    var d := Le32(addr) + Le32(0);
    WordBytes(m, a, addr);
    assert d[4 * 0..4 * 0 + 4] == Le32(addr) && d[4 * 1..4 * 1 + 4] == Le32(0);
    var lo, hi := a, a + 4;
    WordOfTorn(m, m', a, d, 0);
    WordOfTorn(m, m', a, d, 1);
    assert m'[lo..lo + 4] == m[lo..lo + 4];
    assert forall i :: lo <= i < lo + 4 ==> m'[i] == m'[lo..lo + 4][i - lo] == m[i];
    if m'[hi..hi + 4] == m[hi..hi + 4] {
      assert forall i :: hi <= i < hi + 4 ==> m'[i] == m'[hi..hi + 4][i - hi] == m[i];
      assert m' == m;
    } else {
      assert forall i :: hi <= i < hi + 4 ==> m'[i] == m'[hi..hi + 4][i - hi] == Le32(0)[i - hi];
      assert m' == Splice(m, a + 4, Le32(0));
    }
    assert Splice(m, a, d) == Splice(m, a + 4, Le32(0));
  }

  lemma WordBytes(m: seq<byte>, a: nat, w: uint32)
    requires a + 4 <= |m| && Word(m, a) == w
    ensures m[a..a + 4] == Le32(w)
  {
    assert m[a..a + 4] == [Cell(m, a), Cell(m, a + 1), Cell(m, a + 2), Cell(m, a + 3)];
    Le32OfFromLe32(m[a..a + 4]);
  }
}
