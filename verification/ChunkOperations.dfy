/** The flash operations the session really issues for a chunk, against the reference model's flash. */
module ChunkOperations {
  import opened Bytes
  import opened NorFlash
  import opened Descriptor
  import opened SlotSelection
  import opened UpgradeMem
  import opened UpgradeSpec
  import opened PacketBoundaries
  import opened SessionInvariant
  import opened ImageInvariant
  import opened Completion

  /** The flash before a chunk is programmed: all blocks it reaches into are erased. */
  function ChunkErased(f: seq<byte>, base: nat, c: nat, n: nat): seq<byte>
    requires 0 < n
  {
    var from, to := NextBlock(c), NextBlock(c + n - 1);
    Erased(f, base + from, if from <= to then to - from else 0)
  }

  /** The block numbers the session computes are the boundaries after the first and the last byte. */
  lemma BlockNumbers(c: nat, n: nat)
    requires 0 < n
    ensures (c / BLOCK_SIZE + 1) * BLOCK_SIZE == NextBlock(c)
    ensures
      ((c + n) / BLOCK_SIZE + if (c + n) % BLOCK_SIZE != 0 then 1 else 0) * BLOCK_SIZE == NextBlock(c + n - 1)
    ensures c / BLOCK_SIZE == (c + n - 1) / BLOCK_SIZE <==> NextBlock(c) == NextBlock(c + n - 1)
    ensures NextBlock(c) <= NextBlock(c + n - 1)
  {
    NextBlockMonotone(c, c + n - 1);
    LastBlock(c + n - 1);
  }

  lemma LastBlock(x: nat)
    ensures ((x + 1) / BLOCK_SIZE + if (x + 1) % BLOCK_SIZE != 0 then 1 else 0) * BLOCK_SIZE == NextBlock(x)
  {
    var q := x / BLOCK_SIZE;
    if (x + 1) % BLOCK_SIZE == 0 {
      assert (x + 1) / BLOCK_SIZE == q + 1;
    } else {
      assert (x + 1) / BLOCK_SIZE == q;
    }
  }

  /** Erase what the chunk reaches into, program it, and erase the next block if the chunk ends on a
      boundary inside the image: that is what the reference model's bytes amount to. */
  lemma ChunkInThreeSteps(f: seq<byte>, base: nat, c: nat, w: seq<byte>, len: nat)
    requires w != [] && c + |w| <= len
    ensures
      var f2 := Programmed(ChunkErased(f, base, c, |w|), base + c, w);
      ChunkWritten(f, base, c, w, len) ==
      if c + |w| < len && (c + |w|) % BLOCK_SIZE == 0 then Erased(f2, base + c + |w|, BLOCK_SIZE) else f2
  {
    hide NextBlock, And;
    var m := c + |w|;
    NextBlockMonotone(c, m - 1);
    NextBlockStep(m - 1);
    if m < len && m % BLOCK_SIZE == 0 {
      ErasedAhead(f, base + NextBlock(c), NextBlock(m - 1) - NextBlock(c), base + c, w);
    }
  }

  /** The chunk is programmed onto erased cells only. */
  lemma ChunkOntoBlank(g: Geometry, f: seq<byte>, e: Entry, fed: seq<byte>, w: seq<byte>, len: nat)
    requires PartitionInv(g, f, e, fed, len) && w != [] && |fed| + |w| <= len <= e.size
    ensures OnlyClears(ChunkErased(f, e.start, |fed|, |w|), e.start + |fed|, w)
  {
    hide NextBlock, And;
    var c := |fed|;
    NextBlockMonotone(c, c + |w| - 1);
    var f1 := ChunkErased(f, e.start, c, |w|);
    forall i | e.start + c <= i < e.start + c + |w|
      ensures Cell(f1, i) == 0xFF
    {
      assert i < e.start + NextBlock(c) ==> Cell(f, i) == 0xFF;
    }
    BlankOnlyClears(f1, e.start + c, w);
  }

  /** Block boundaries inside a partition. */
  lemma BoundaryFits(x: nat, size: nat)
    requires x < size && size % BLOCK_SIZE == 0
    ensures NextBlock(x) <= size && NextBlock(x) % BLOCK_SIZE == 0
  {
  }

  /** A chunk that fits the open image keeps the invariant. */
  lemma {:induction false} ChunkKeeps(env: Env, g: Geometry, s: State, w: seq<byte>)
    requires ReceiveInv(env, g, s) && s.open.Some? && s.index < |s.hdrs|
    requires |s.fed| < s.hdrs[s.index].length && |s.fed| + |w| <= s.hdrs[s.index].length
    ensures s.phase == Images && ReceiveInv(env, g, ChunkReceived(s, w))
    decreases |w|
  {
    hide ReceiveInv, ChunkWritten, BytePut;
    CountsOfReceiving(env, g, s);
    if w == [] {
      EmptyChunk(s.flash, s.open.value.start, |s.fed|, s.hdrs[s.index].length);
      assert s.fed + [] == s.fed;
    } else {
      var w0, b := w[..|w| - 1], w[|w| - 1];
      assert w == w0 + [b] && s.fed + w == s.fed + w0 + [b];
      ChunkKeeps(env, g, s, w0);
      PutKeeps(env, g, ChunkReceived(s, w0), b);
      ChunkIsBytesPut(s.flash, s.open.value.start, |s.fed|, w0, b, s.hdrs[s.index].length);
    }
  }

  lemma ChunkIsBytesPut(f: seq<byte>, base: nat, c: nat, w: seq<byte>, b: byte, len: nat)
    requires c + |w| < len
    ensures BytePut(ChunkWritten(f, base, c, w, len), base, c + |w|, b, len) == ChunkWritten(f, base, c, w + [b], len)
  {
    hide ChunkWritten, Programmed, Erased;
    ChunkGrows(f, base, c, w, b, len);
  }

  /** Opening one image is part of handling the next byte. */
  lemma OneOpeningIsPartOfTheNextByte(env: Env, s: State, w: seq<byte>)
    requires s.Receiving() && s.open == None && w != []
    ensures Consume(env, s, w) == Consume(env, OpenImage(env, s), w)
  {
    hide OpenImage, Step;
    var t := OpenImage(env, s);
    OpeningIsPartOfTheNextByte(env, s, w);
    if t.Receiving() && t.open == None {
      OpeningIsPartOfTheNextByte(env, t, w);
    }
  }

  // What the session may touch

  /** The partition of the open image is the session's to erase and program. */
  ghost predicate OwnPartition(g: Geometry, n: nat, e: Entry) {
    if e.id == SBL_IMG_ID then e.End() < TWO_TO_THE_32
    else
      && e.size % BLOCK_SIZE == 0
      && (e.size > 0 ==>
            && MAX_FWD * BLOCK_SIZE <= e.start && e.start % BLOCK_SIZE == 0 && e.End() <= n < TWO_TO_THE_32
            && forall i :: e.start <= i < e.End() ==> g.Writable(i))
  }

  lemma OpenPartitionOwned(env: Env, g: Geometry, s: State)
    requires ReceiveInv(env, g, s) && s.open.Some?
    ensures s.phase == Images && s.index < |s.hdrs| && DescriptorInv(s) && OwnPartition(g, |s.flash|, s.open.value)
    ensures |s.fed| <= s.hdrs[s.index].length <= s.open.value.size
  {
    hide HiddenTable, Find, Rest, Ordered, AllDone, InfoInv, Located, HasFileSystems, HoldsTable, FsPending, SaneHeaders, Stored, Blank;
    if s.open.value.id != SBL_IMG_ID {
      OpenPartitionPlace(env, g, s);
    }
  }

  /** The state with the chunk erased for and programmed, before the block after it is looked at. */
  function ChunkStored(s: State, w: seq<byte>): State
    requires s.Receiving() && s.open.Some? && w != []
  {
    var e, c := s.open.value, |s.fed|;
    s.(flash := if e.id == SBL_IMG_ID then s.flash else Programmed(ChunkErased(s.flash, e.start, c, |w|), e.start + c, w),
       fed := s.fed + w)
  }

  /** What is still to do after the chunk is stored: the erase ahead, when it ends on a boundary inside the image. */
  lemma StoredIsReceived(s: State, w: seq<byte>)
    requires s.Receiving() && s.open.Some? && w != [] && |s.fed| + |w| <= s.hdrs[s.index].length
    ensures
      var t, e, m, len := ChunkStored(s, w), s.open.value, |s.fed| + |w|, s.hdrs[s.index].length;
      ChunkReceived(s, w) ==
      if e.id != SBL_IMG_ID && m < len && m % BLOCK_SIZE == 0 then t.WithFlash(Erased(t.flash, e.start + m, BLOCK_SIZE)) else t
  {
    hide ChunkErased, ChunkWritten, Programmed, Erased;
    ChunkInThreeSteps(s.flash, s.open.value.start, |s.fed|, w, s.hdrs[s.index].length);
  }

  /** Inside a partition the flash address of a block is not rounded and does not wrap around. */
  lemma OwnBlocks(g: Geometry, flash: nat, e: Entry, offset: nat, n: nat)
    requires OwnPartition(g, flash, e) && e.id != SBL_IMG_ID
    requires offset % BLOCK_SIZE == 0 && n % BLOCK_SIZE == 0 && offset + n < TWO_TO_THE_32
    ensures Erasable(e, offset, n) <==> 0 < n && offset + n <= e.size
    ensures
      0 < n && offset + n <= e.size ==>
        && U32(e.start + offset) / BLOCK_SIZE * BLOCK_SIZE == e.start + offset
        && MAX_FWD * BLOCK_SIZE <= e.start + offset && e.start + offset + n <= flash
        && forall i :: e.start + offset <= i < e.start + offset + n ==> g.Writable(i)
  {
  }

  lemma PartitionBounds(g: Geometry, flash: nat, e: Entry)
    requires OwnPartition(g, flash, e) && e.id != SBL_IMG_ID && e.size > 0
    ensures e.size % BLOCK_SIZE == 0 && e.End() < TWO_TO_THE_32
  {
  }

  lemma OwnBytes(g: Geometry, flash: nat, e: Entry, offset: nat, n: nat)
    requires OwnPartition(g, flash, e) && 0 < n && offset + n <= e.size
    ensures InBounds(e, offset, n)
    ensures
      e.id != SBL_IMG_ID ==>
        && U32(e.start + offset) == e.start + offset
        && MAX_FWD * BLOCK_SIZE <= e.start + offset && e.start + offset + n <= flash
        && forall i :: e.start + offset <= i < e.start + offset + n ==> g.Writable(i)
  {
  }
}
