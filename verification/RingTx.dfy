/**
 The host's transmit side of a ring: packets are written into slave memory, and the write index is published after
 them.  The slave consumes in between any two transport calls; the host works from a cached read index.
 */
module RingTx {
  import opened Bytes
  import opened Qcspi
  import opened RingLayout

  /** Slots from counter `from` up to `to` hold the packets of that number. */
  ghost predicate Pending(m: seq<byte>, r: Ring, from: nat, packets: seq<seq<byte>>)
    requires 0 < r.count
  {
    forall k :: from <= k < |packets| ==> Holds(m, r, SlotOf(r.count, k), packets[k])
  }

  /** What the slave reads from the slots it takes. */
  function Taken(m: seq<byte>, r: Ring, from: nat, to: nat): seq<seq<byte>>
    requires 0 < r.count && from <= to
  {
    seq(to - from, i requires 0 <= i => PacketIn(m, r, SlotOf(r.count, from + i)))
  }

  /** The slave owns the read index and the slots it has just taken; everything else of the ring stays as it is. */
  predicate SlaveMay(m: seq<byte>, m': seq<byte>, r: Ring, from: nat, to: nat)
    requires 0 < r.count
  {
    && |m'| == |m|
    && (forall i :: r.wrAddr <= i < r.wrAddr + 4 ==> Cell(m, i) == Cell(m', i))
    && Word(m', r.rdAddr) == SlotOf(r.count, to)
    && forall k :: to <= k < from + r.count ==> SameSlot(m, m', r, SlotOf(r.count, k))
  }

  lemma PendingAfter(m: seq<byte>, m': seq<byte>, r: Ring, from: nat, to: nat, packets: seq<seq<byte>>)
    requires 0 < r.count && Pending(m, r, from, packets) && SlaveMay(m, m', r, from, to)
    requires from <= to <= |packets| < from + r.count
    ensures Pending(m', r, to, packets)
    ensures |m'| == |m| && Word(m', r.wrAddr) == Word(m, r.wrAddr) && Word(m', r.rdAddr) == SlotOf(r.count, to)
    ensures forall k :: to <= k < from + r.count ==> SameSlot(m, m', r, SlotOf(r.count, k))
  {
    hide Holds, SameSlot, Word;
    forall k | to <= k < |packets|
      ensures Holds(m', r, SlotOf(r.count, k), packets[k])
    {
      StillHeld(m, m', r, SlotOf(r.count, k), packets[k]);
    }
    SameWord(m, m', r.wrAddr);
  }

  lemma TakenIsSent(m: seq<byte>, r: Ring, from: nat, to: nat, packets: seq<seq<byte>>)
    requires RingOk(r, |m|) && Pending(m, r, from, packets) && from <= to <= |packets|
    ensures Taken(m, r, from, to) == packets[from..to]
  {
    hide Holds, PacketIn, RingOk;
    assert 0 < r.count by { CountPositive(r, |m|); }
    forall k | 0 <= k < to - from
      ensures Taken(m, r, from, to)[k] == packets[from + k]
    {
      assert Holds(m, r, SlotOf(r.count, from + k), packets[from + k]);
      PacketOfHeld(m, r, SlotOf(r.count, from + k), packets[from + k]);
    }
  }

  /** A write outside the pending slots keeps them. */
  lemma PendingStays(m: seq<byte>, m': seq<byte>, r: Ring, from: nat, packets: seq<seq<byte>>, a: nat, n: nat)
    requires 0 < r.count && Pending(m, r, from, packets) && SameOutside(m, m', a, n)
    requires forall k :: from <= k < |packets| ==>
               Apart(a, n, r.DescAddr(SlotOf(r.count, k)), DESC_SIZE) && Apart(a, n, r.BufAddr(SlotOf(r.count, k)), r.bufSize)
    ensures Pending(m', r, from, packets)
  {
    hide Holds;
    forall k | from <= k < |packets|
      ensures Holds(m', r, SlotOf(r.count, k), packets[k])
    {
      SlotUntouched(m, m', r, SlotOf(r.count, k), a, n);
      StillHeld(m, m', r, SlotOf(r.count, k), packets[k]);
    }
  }

  /** The free slot shares nothing with the pending ones, nor with the index words. */
  lemma FreeSlotApart(r: Ring, size: nat, from: nat, c: nat)
    requires RingOk(r, size) && from <= c < from + r.count
    ensures
      var j := SlotOf(r.count, c);
      && r.DescAddr(j) + DESC_SIZE <= size && r.BufAddr(j) + r.bufSize <= size && r.DescAddr(j) % 4 == 0
      && Apart(r.BufAddr(j), r.bufSize, r.wrAddr, 4) && Apart(r.BufAddr(j), r.bufSize, r.rdAddr, 4)
      && Apart(r.DescAddr(j), DESC_SIZE, r.wrAddr, 4) && Apart(r.DescAddr(j), DESC_SIZE, r.rdAddr, 4)
      && Apart(r.DescAddr(j), DESC_SIZE, r.BufAddr(j), r.bufSize)
      && forall k :: from <= k < c ==>
           var i := SlotOf(r.count, k);
           && Apart(r.BufAddr(j), r.bufSize, r.DescAddr(i), DESC_SIZE) && Apart(r.BufAddr(j), r.bufSize, r.BufAddr(i), r.bufSize)
           && Apart(r.DescAddr(j), DESC_SIZE, r.DescAddr(i), DESC_SIZE) && Apart(r.DescAddr(j), DESC_SIZE, r.BufAddr(i), r.bufSize)
  {
    hide RingOk, Ring.DescAddr, Ring.BufAddr;
    CountPositive(r, size);
    var j := SlotOf(r.count, c);
    SlotInside(r, size, j);
    IndexesApart(r, size, j);
    forall k | from <= k < c
      ensures
        var i := SlotOf(r.count, k);
        && Apart(r.BufAddr(j), r.bufSize, r.DescAddr(i), DESC_SIZE) && Apart(r.BufAddr(j), r.bufSize, r.BufAddr(i), r.bufSize)
        && Apart(r.DescAddr(j), DESC_SIZE, r.DescAddr(i), DESC_SIZE) && Apart(r.DescAddr(j), DESC_SIZE, r.BufAddr(i), r.bufSize)
    {
      DifferentSlots(r.count, k, c);
      SlotsApart(r, size, j, SlotOf(r.count, k));
    }
  }

  /** Lengths pass through a sixteen-bit parameter. */
  function Truncated(len: nat): (n: nat)
    ensures n <= len && n < 0x1_0000
  {
    len % 0x1_0000
  }

  /** Whether a check lets a packet through. */
  datatype Verdict = Granted | Denied(errno: Errno)

  class Transmitter {
    const driver: Driver
    const ring: Ring
    const id: nat
    var initialized: bool
    var configured: bool
    /** Cached indices. */
    var wrIdx: nat
    var rdIdx: nat
    var txCount: nat
    /** Packets the slave has taken; its read index follows. */
    var slaveRd: nat

    /** Packets committed by the host, in order, and those the slave has seen. */
    ghost var sent: seq<seq<byte>>
    ghost var delivered: seq<seq<byte>>
    /** Packets the shared write index covers, and those the cached read index accounts for. */
    ghost var published: nat
    ghost var known: nat

    /** A ring just initialised by the slave: both indices 0. */
    constructor (driver: Driver, ring: Ring, id: nat, configured: bool)
      requires RingOk(ring, |driver.mem|) && Word(driver.mem, ring.wrAddr) == Word(driver.mem, ring.rdAddr) == 0
      ensures Valid() && sent == [] && initialized && this.configured == configured
      ensures this.driver == driver && this.ring == ring && this.id == id
    {
      this.driver, this.ring, this.id := driver, ring, id;
      initialized, this.configured := true, configured;
      wrIdx, rdIdx, txCount, slaveRd := 0, 0, 0, 0;
      sent, delivered, published, known := [], [], 0, 0;
    }

    ghost predicate Valid()
      reads this`wrIdx, this`rdIdx, this`slaveRd, this`sent, this`delivered, this`published, this`known, driver
    {
      && RingOk(ring, |driver.mem|)
      && known <= slaveRd <= published <= |sent| <= known + ring.count - 1
      && wrIdx == SlotOf(ring.count, |sent|) && rdIdx == SlotOf(ring.count, known)
      && Word(driver.mem, ring.wrAddr) == SlotOf(ring.count, published)
      && Word(driver.mem, ring.rdAddr) == SlotOf(ring.count, slaveRd)
      && delivered == sent[..slaveRd]
      && Pending(driver.mem, ring, slaveRd, sent)
    }

    /** Whatever the slave does between two transport calls: it takes published packets, in order. */
    method SlaveRuns()
      requires Valid()
      modifies this`slaveRd, this`delivered, driver`mem
      ensures Valid() && old(slaveRd) <= slaveRd && |driver.mem| == |old(driver.mem)|
      ensures forall k :: slaveRd <= k < old(slaveRd) + ring.count ==> SameSlot(old(driver.mem), driver.mem, ring, SlotOf(ring.count, k))
    {
      hide Pending, SameSlot, Word, Taken, RingOk, SlaveMay, SlotOf;
      CountPositive(ring, |driver.mem|);
      NothingMoves(driver.mem, ring);
      var after: seq<byte> := *;
      var upTo: nat := *;
      var available := Distance(ring.count, SlotOf(ring.count, slaveRd), Word(driver.mem, ring.wrAddr));
      DistanceOfCounters(ring.count, slaveRd, published);
      if slaveRd <= upTo <= slaveRd + available && SlaveMay(driver.mem, after, ring, slaveRd, upTo) {
        PendingAfter(driver.mem, after, ring, slaveRd, upTo, sent);
        TakenIsSent(driver.mem, ring, slaveRd, upTo, sent);
        delivered := delivered + Taken(driver.mem, ring, slaveRd, upTo);
        slaveRd := upTo;
        driver.mem := after;
      }
    }

    /** Free slots by the cached write index and a read index standing for counter `rd`. */
    function Available(rdIdx: nat): int
      reads this`wrIdx
    {
      if rdIdx > wrIdx then rdIdx - wrIdx - 1 else ring.count - (wrIdx - rdIdx) - 1
    }

    lemma AvailableIs(rd: nat)
      requires Valid() && known <= rd <= |sent|
      ensures Available(SlotOf(ring.count, rd)) == ring.count - 1 - (|sent| - rd)
    {
      hide Pending, Word, RingOk;
      CountPositive(ring, |driver.mem|);
      DistanceOfCounters(ring.count, rd, |sent|);
    }

    /** Reads the slave's read index. */
    method ReadReadIndex() returns (ok: bool, rd: uint32)
      requires Valid()
      modifies this`slaveRd, this`delivered, driver`mem
      ensures Valid() && old(slaveRd) <= slaveRd && (ok ==> rd == SlotOf(ring.count, slaveRd))
      ensures driver.reliable ==> ok
    {
      hide Pending, SlotOf, RingOk, Word;
      SlaveRuns();
      MemoryWords(ring, |driver.mem|);
      ok, rd := ReadWord(driver, ring.rdAddr);
    }

    /** Writes the packet into the buffer of the free slot. */
    method WriteBuffer(data: array<byte>, len: nat) returns (ok: bool)
      requires Valid() && |sent| < known + ring.count - 1 && 0 < len <= data.Length && len <= ring.bufSize
      modifies this`slaveRd, this`delivered, driver`mem
      ensures Valid() && old(slaveRd) <= slaveRd
      ensures ok ==> InBuffer(driver.mem, ring, SlotOf(ring.count, |sent|), Packet(data, len))
      ensures driver.reliable && LongestTransfer(ring.BufAddr(wrIdx), Truncated(len)) <= MAX_TRANSFER_SIZE ==> ok
    {
      hide Pending, SlotOf, Word, Torn, RingOk, Ring.BufAddr, Ring.DescAddr;
      SlaveRuns();
      ghost var m := driver.mem;
      FreeSlotApart(ring, |m|, slaveRd, |sent|);
      MemoryWords(ring, |m|);
      var bufAddr := ring.BufAddr(wrIdx);
      var n := Truncated(len);
      var rc := driver.WriteAddrAlign(n, bufAddr, data);
      ok := rc == Success;
      WrittenInFreeSlot(m, bufAddr, data[..n], bufAddr, ring.bufSize);
      if ok {
        SplicedInBuffer(m, ring, wrIdx, data[..n]);
      }
    }

    /** A write inside the free slot keeps everything else. */
    lemma WrittenInFreeSlot(m: seq<byte>, a: nat, d: seq<byte>, area: nat, n: nat)
      requires RingOk(ring, |m|) && Torn(m, driver.mem, a, d) && area <= a && a + |d| <= area + n
      requires slaveRd <= |sent| < slaveRd + ring.count && Pending(m, ring, slaveRd, sent)
      requires (area == ring.BufAddr(SlotOf(ring.count, |sent|)) && n == ring.bufSize)
               || (area == ring.DescAddr(SlotOf(ring.count, |sent|)) && n == DESC_SIZE)
      ensures |driver.mem| == |m| && Pending(driver.mem, ring, slaveRd, sent)
      ensures Word(driver.mem, ring.wrAddr) == Word(m, ring.wrAddr) && Word(driver.mem, ring.rdAddr) == Word(m, ring.rdAddr)
      ensures SameOutside(m, driver.mem, a, |d|)
    {
      hide Pending, SlotOf, Word, RingOk, Ring.BufAddr, Ring.DescAddr;
      CountPositive(ring, |m|);
      FreeSlotApart(ring, |m|, slaveRd, |sent|);
      TornIsConfined(m, driver.mem, a, d);
      PendingStays(m, driver.mem, ring, slaveRd, sent, a, |d|);
      WordUntouched(m, driver.mem, ring.wrAddr, a, |d|);
      WordUntouched(m, driver.mem, ring.rdAddr, a, |d|);
    }

    /** Writes the descriptor of the free slot. */
    method WriteDescriptor(len: nat, ghost packet: seq<byte>) returns (ok: bool)
      requires Valid() && |sent| < known + ring.count - 1
      requires |packet| == Truncated(len) && |packet| <= ring.bufSize
      requires InBuffer(driver.mem, ring, SlotOf(ring.count, |sent|), packet)
      modifies this`slaveRd, this`delivered, driver`mem
      ensures Valid() && old(slaveRd) <= slaveRd
      ensures ok ==>
                && Holds(driver.mem, ring, SlotOf(ring.count, |sent|), packet)
                && Word(driver.mem, ring.DescAddr(wrIdx) + 4) == LengthAndFlags(len, FLAG_VALID)
      ensures driver.reliable ==> ok
    {
      hide Pending, SlotOf, Word, Torn, RingOk, Ring.BufAddr, Ring.DescAddr, InBuffer, Holds, Le32;
      ghost var m0 := driver.mem;
      SlaveRuns();
      ghost var m := driver.mem;
      BufferStays(m0, m, ring, SlotOf(ring.count, |sent|), packet);
      FreeSlotApart(ring, |m|, slaveRd, |sent|);
      MemoryWords(ring, |m|);
      var desc := new byte[8];
      var bytes := Le32(ring.BufAddr(wrIdx)) + Le32(LengthAndFlags(len, FLAG_VALID));
      forall i | 0 <= i < 8 {
        desc[i] := bytes[i];
      }
      assert desc[..8] == bytes;
      var rc := driver.WriteAddrAlign(8, ring.DescAddr(wrIdx), desc);
      ok := rc == Success;
      WrittenInFreeSlot(m, ring.DescAddr(wrIdx), bytes, ring.DescAddr(wrIdx), DESC_SIZE);
      if ok {
        SplicedDescriptor(m, ring, wrIdx, packet, len);
      }
    }

    /** Advances the cached write index, which commits the packet, and then publishes it. */
    method Publish(ghost packet: seq<byte>) returns (ok: bool)
      requires Valid() && |sent| < known + ring.count - 1
      requires Holds(driver.mem, ring, SlotOf(ring.count, |sent|), packet)
      modifies this`slaveRd, this`delivered, this`wrIdx, this`sent, this`published, driver`mem
      ensures Valid() && old(slaveRd) <= slaveRd && sent == old(sent) + [packet]
      ensures if ok then published == |sent| else published == old(published) || published == |sent|
      ensures driver.reliable ==> ok
    {
      hide Pending, SlotOf, Word, Torn, RingOk, Ring.BufAddr, Ring.DescAddr, Holds, Le32;
      CountPositive(ring, |driver.mem|);
      NextSlot(ring.count, |sent|);
      wrIdx := (wrIdx + 1) % ring.count;
      PendingGrows(driver.mem, ring, slaveRd, sent, packet);
      sent := sent + [packet];
      SlaveRuns();
      ghost var m := driver.mem;
      MemoryWords(ring, |m|);
      ok := WriteWord(driver, ring.wrAddr, wrIdx);
      IndexWritten(m, driver.mem, ring, slaveRd, sent);
      if ok || driver.mem != m {
        WordOfSplice(m, ring.wrAddr, wrIdx);
        published := |sent|;
      }
    }

    /** The packet as it arrives: its length travels in sixteen bits. */
    function Packet(data: array<byte>, len: nat): seq<byte>
      reads data
      requires len <= data.Length
    {
      data[..Truncated(len)]
    }

    /** A packet arrives as it was given exactly if its length fits into sixteen bits. */
    lemma WholeExactlyWhen(data: array<byte>, len: nat)
      requires len <= data.Length
      ensures Packet(data, len) == data[..len] <==> len < 0x1_0000
    {
      if len >= 0x1_0000 {
        assert |data[..len]| == len > |Packet(data, len)|;
      }
    }

    /** The checks made before anything is touched, the first that fails deciding. */
    function Refusal(ringId: nat, len: nat): Verdict
      reads this`initialized, this`configured
    {
      if !initialized then Denied(ENODEV)
      else if ringId >= MAX_RINGS then Denied(EINVAL)
      else if !configured then Denied(EINVAL)
      else if len == 0 then Denied(EINVAL)
      else if len > ring.bufSize then Denied(EMSGSIZE)
      else Granted
    }

    /** With the cached read index, and the slave's own one if that says the ring is full. */
    method CheckSpace() returns (rc: Verdict)
      requires Valid()
      modifies this`slaveRd, this`delivered, this`rdIdx, this`known, driver`mem
      ensures Valid() && old(slaveRd) <= slaveRd
      ensures rc == Granted ==> |sent| < known + ring.count - 1
      ensures rc == Denied(EAGAIN) ==> |sent| - slaveRd == ring.count - 1
      ensures rc == Granted || rc == Denied(EAGAIN) || (rc == Denied(ETRANSPORT) && !driver.reliable)
    {
      hide Pending, SlotOf, Word, RingOk;
      AvailableIs(known);
      var avail := Available(rdIdx);
      if avail == 0 {
        var ok, rd := ReadReadIndex();
        if !ok {
          return Denied(ETRANSPORT);
        }
        rdIdx := rd;
        known := slaveRd;
        AvailableIs(slaveRd);
        avail := Available(rdIdx);
      }
      rc := if avail == 0 then Denied(EAGAIN) else Granted;
    }

    /**
     Sends a packet.  A failure before the write index is advanced leaves nothing behind; a failure to publish leaves
     the packet committed, and it goes out with the next successful publish.
     */
    method Send(ringId: nat, data: array<byte>, len: nat) returns (r: Outcome)
      requires Valid() && len <= data.Length && (ringId < MAX_RINGS ==> ringId == id)
      modifies this`slaveRd, this`delivered, this`rdIdx, this`known, this`wrIdx, this`sent, this`published, this`txCount, driver`mem
      ensures Valid() && old(slaveRd) <= slaveRd
      ensures
        match r
        case Done(_) => sent == old(sent) + [Packet(data, len)] && published == |sent| && txCount == old(txCount) + 1
        case Err(e) =>
          && txCount == old(txCount)
          && (e == EAGAIN ==> sent == old(sent) && published == old(published) && |sent| - slaveRd == ring.count - 1)
          && (e == ETRANSPORT ==>
                || (sent == old(sent) && published == old(published))
                || (sent == old(sent) + [Packet(data, len)] && (published == old(published) || published == |sent|)))
          && (e != EAGAIN && e != ETRANSPORT ==> sent == old(sent) && published == old(published))
      ensures r.Done? ==> initialized && ringId < MAX_RINGS && configured && 0 < len <= ring.bufSize
      ensures !initialized ==> r == Err(ENODEV)
      ensures initialized && (ringId >= MAX_RINGS || !configured || len == 0) ==> r == Err(EINVAL)
      ensures initialized && ringId < MAX_RINGS && configured && len > ring.bufSize ==> r == Err(EMSGSIZE)
      ensures
        !initialized || ringId >= MAX_RINGS || !configured || len == 0 || len > ring.bufSize ==>
          driver.mem == old(driver.mem) && sent == old(sent) && published == old(published) && slaveRd == old(slaveRd) && wrIdx == old(wrIdx)
      ensures
        initialized && ringId < MAX_RINGS && configured && 0 < len <= ring.bufSize ==> r.Done? || r.errno == EAGAIN || r.errno == ETRANSPORT
      ensures
        driver.reliable && LongestTransfer(ring.BufAddr(old(wrIdx)), Truncated(len)) <= MAX_TRANSFER_SIZE ==> r != Err(ETRANSPORT)
    {
      hide Valid, Holds, InBuffer, RingOk, SlotOf;
      if Refusal(ringId, len).Denied? {
        return Err(Refusal(ringId, len).errno);
      }
      var space := CheckSpace();
      if space.Denied? {
        return Err(space.errno);
      }
      ghost var packet := Packet(data, len);
      var ok := WriteBuffer(data, len);
      if !ok {
        return Err(ETRANSPORT);
      }
      ok := WriteDescriptor(len, packet);
      if !ok {
        return Err(ETRANSPORT);
      }
      ok := Publish(packet);
      if !ok {
        return Err(ETRANSPORT);
      }
      txCount := txCount + 1;
      r := Done(0);
    }

    /** The number of free slots, by the slave's read index. */
    method TxAvailable(ringId: nat) returns (r: Outcome)
      requires Valid() && (ringId < MAX_RINGS ==> ringId == id)
      modifies this`slaveRd, this`delivered, driver`mem
      ensures Valid() && old(slaveRd) <= slaveRd
      ensures r.Done? ==> r.value == ring.count - 1 - (|sent| - slaveRd)
      ensures r.Err? ==> r.errno == if !initialized then ENODEV else if ringId >= MAX_RINGS || !configured then EINVAL else ETRANSPORT
      ensures r.Done? ==> initialized && ringId < MAX_RINGS && configured
      ensures driver.reliable && initialized && ringId < MAX_RINGS && configured ==> r.Done?
    {
      hide Pending, SlotOf, Word, RingOk;
      if !initialized {
        return Err(ENODEV);
      }
      if ringId >= MAX_RINGS || !configured {
        return Err(EINVAL);
      }
      var ok, rd := ReadReadIndex();
      if !ok {
        return Err(ETRANSPORT);
      }
      AvailableIs(slaveRd);
      r := Done(Available(rd));
    }
  }

  ghost predicate InBuffer(m: seq<byte>, r: Ring, j: nat, p: seq<byte>) {
    forall i :: 0 <= i < |p| ==> Cell(m, r.BufAddr(j) + i) == p[i]
  }

  lemma SplicedInBuffer(m: seq<byte>, r: Ring, j: nat, p: seq<byte>)
    requires r.BufAddr(j) + |p| <= |m|
    ensures InBuffer(Splice(m, r.BufAddr(j), p), r, j, p)
  {
  }

  lemma BufferStays(m: seq<byte>, m': seq<byte>, r: Ring, j: nat, p: seq<byte>)
    requires InBuffer(m, r, j, p) && SameSlot(m, m', r, j) && |p| <= r.bufSize
    ensures InBuffer(m', r, j, p)
  {
    forall i | 0 <= i < |p|
      ensures Cell(m', r.BufAddr(j) + i) == p[i]
    {
      assert Cell(m, r.BufAddr(j) + i) == p[i];
      assert r.BufAddr(j) <= r.BufAddr(j) + i < r.BufAddr(j) + r.bufSize;
    }
  }

  /** With its descriptor written, the slot holds the packet. */
  lemma SplicedDescriptor(m: seq<byte>, r: Ring, j: nat, p: seq<byte>, len: nat)
    requires InBuffer(m, r, j, p) && |p| == Truncated(len) && |p| <= r.bufSize && r.BufAddr(j) < TWO_TO_THE_32
    requires r.DescAddr(j) + DESC_SIZE <= |m| && Apart(r.DescAddr(j), DESC_SIZE, r.BufAddr(j), r.bufSize)
    ensures Holds(Splice(m, r.DescAddr(j), Le32(r.BufAddr(j)) + Le32(LengthAndFlags(len, FLAG_VALID))), r, j, p)
    ensures
      Word(Splice(m, r.DescAddr(j), Le32(r.BufAddr(j)) + Le32(LengthAndFlags(len, FLAG_VALID))), r.DescAddr(j) + 4)
      == LengthAndFlags(len, FLAG_VALID)
  {
    hide Le32, Word;
    var a := r.DescAddr(j);
    var m' := Splice(m, a, Le32(r.BufAddr(j)) + Le32(LengthAndFlags(len, FLAG_VALID)));
    WordOfLe32(m', a, r.BufAddr(j));
    WordOfLe32(m', a + 4, LengthAndFlags(len, FLAG_VALID));
    forall i | 0 <= i < |p|
      ensures Cell(m', r.BufAddr(j) + i) == p[i]
    {
      assert Cell(m, r.BufAddr(j) + i) == p[i];
    }
  }

  lemma PendingGrows(m: seq<byte>, r: Ring, from: nat, packets: seq<seq<byte>>, p: seq<byte>)
    requires 0 < r.count && Pending(m, r, from, packets) && from <= |packets|
    requires Holds(m, r, SlotOf(r.count, |packets|), p)
    ensures Pending(m, r, from, packets + [p])
  {
    hide Holds;
  }

  /** Writing the write index either does nothing or sets it, and disturbs nothing else. */
  lemma IndexWritten(m: seq<byte>, m': seq<byte>, r: Ring, from: nat, packets: seq<seq<byte>>)
    requires RingOk(r, |m|) && SameOutside(m, m', r.wrAddr, 4) && Pending(m, r, from, packets)
    ensures |m'| == |m| && Pending(m', r, from, packets) && Word(m', r.rdAddr) == Word(m, r.rdAddr)
  {
    hide Word, Pending, Holds, RingOk, Ring.DescAddr, Ring.BufAddr;
    CountPositive(r, |m|);
    IndexWordsApart(r, |m|);
    WordUntouched(m, m', r.rdAddr, r.wrAddr, 4);
    forall k | from <= k < |packets|
      ensures Apart(r.wrAddr, 4, r.DescAddr(SlotOf(r.count, k)), DESC_SIZE)
      ensures Apart(r.wrAddr, 4, r.BufAddr(SlotOf(r.count, k)), r.bufSize)
    {
      IndexesApart(r, |m|, SlotOf(r.count, k));
    }
    PendingStays(m, m', r, from, packets, r.wrAddr, 4);
  }
}
