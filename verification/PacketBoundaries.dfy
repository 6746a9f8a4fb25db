/**
 Handling a packet in one go is the same as feeding the reference machine its bytes: the
 configuration is collected piecewise, and an image is programmed in chunks with blocks
 erased just in time.
 */
module PacketBoundaries {
  import opened Bytes
  import opened NorFlash
  import opened Descriptor
  import opened UpgradeMem
  import opened UpgradeSpec

  /** Offset of the first block boundary after byte `x` of a partition. */
  function NextBlock(x: nat): nat {
    (x / BLOCK_SIZE + 1) * BLOCK_SIZE
  }

  /** How far a partition is erased once `m` of its `len` bytes have arrived. */
  function ErasedUpTo(m: nat, len: nat): nat {
    if m < len || m == 0 then NextBlock(m) else NextBlock(m - 1)
  }

  lemma NextBlockStep(m: nat)
    ensures NextBlock(m) <= NextBlock(m + 1) && m < NextBlock(m)
    ensures (m + 1) % BLOCK_SIZE != 0 ==> NextBlock(m + 1) == NextBlock(m)
    ensures (m + 1) % BLOCK_SIZE == 0 ==> NextBlock(m) == m + 1 && NextBlock(m + 1) == NextBlock(m) + BLOCK_SIZE
  {
    var q := m / BLOCK_SIZE;
    if (m + 1) % BLOCK_SIZE == 0 {
      assert (m + 1) / BLOCK_SIZE == q + 1;
    } else {
      assert (m + 1) / BLOCK_SIZE == q;
    }
  }

  lemma {:induction false} NextBlockMonotone(c: nat, m: nat)
    requires c <= m
    ensures NextBlock(c) <= NextBlock(m) && m < NextBlock(m)
    decreases m - c
  {
    hide NextBlock;
    NextBlockStep(m);
    if c < m {
      NextBlockStep(m - 1);
      NextBlockMonotone(c, m - 1);
    }
  }

  /** The flash once chunk `w` has followed the first `c` bytes of an image of `len` bytes at `base`. */
  function ChunkWritten(f: seq<byte>, base: nat, c: nat, w: seq<byte>, len: nat): seq<byte> {
    var from, to := NextBlock(c), ErasedUpTo(c + |w|, len);
    Programmed(Erased(f, base + from, if from <= to then to - from else 0), base + c, w)
  }

  /** One more byte, with the block after it erased in advance when it fills one. */
  lemma ChunkGrows(f: seq<byte>, base: nat, c: nat, w: seq<byte>, b: byte, len: nat)
    requires c + |w| < len
    ensures
      var m := c + |w|;
      var f1 := Programmed(ChunkWritten(f, base, c, w, len), base + m, [b]);
      ChunkWritten(f, base, c, w + [b], len) ==
      if m + 1 < len && (m + 1) % BLOCK_SIZE == 0 then Erased(f1, base + m + 1, BLOCK_SIZE) else f1
  {
    hide NextBlock, Programmed, Erased;
    var m := c + |w|;
    NextBlockStep(m);
    NextBlockMonotone(c, m);
    NextBlockMonotone(c, m + 1);
    var from, to := NextBlock(c), NextBlock(m);
    var f0 := Erased(f, base + from, to - from);
    var f1 := Programmed(Programmed(f0, base + c, w), base + m, [b]);
    ProgrammedInTwo(f0, base + c, w, [b]);
    if m + 1 < len && (m + 1) % BLOCK_SIZE == 0 {
      ErasedAhead(f, base + from, to - from, base + c, w + [b]);
    }
  }

  lemma ProgrammedInTwo(f: seq<byte>, a: nat, d: seq<byte>, d': seq<byte>)
    ensures Programmed(Programmed(f, a, d), a + |d|, d') == Programmed(f, a, d + d')
  {
    hide And;
  }

  /** Erasing the block after the data commutes with programming the data. */
  lemma ErasedAhead(f: seq<byte>, from: nat, n: nat, a: nat, d: seq<byte>)
    requires a + |d| == from + n
    ensures
      Erased(Programmed(Erased(f, from, n), a, d), a + |d|, BLOCK_SIZE) ==
      Programmed(Erased(f, from, n + BLOCK_SIZE), a, d)
  {
    hide And;
  }

  /** Nothing is erased or programmed for an empty chunk. */
  lemma EmptyChunk(f: seq<byte>, base: nat, c: nat, len: nat)
    requires c < len
    ensures ChunkWritten(f, base, c, [], len) == f
  {
    assert ErasedUpTo(c, len) == NextBlock(c);
  }

  /** The state after chunk `w` of the open image, before looking whether the image is complete. */
  function ChunkReceived(s: State, w: seq<byte>): State
    requires s.Receiving() && s.open.Some?
  {
    var e, c, len := s.open.value, |s.fed|, s.hdrs[s.index].length;
    s.(flash := if e.id == SBL_IMG_ID then s.flash else ChunkWritten(s.flash, e.start, c, w, len), fed := s.fed + w)
  }

  /** An open image takes the next byte. */
  lemma StepPutsByte(env: Env, s: State, b: byte)
    requires s.Receiving() && s.open.Some?
    ensures Consume(env, s, [b]) == PutByte(env, s, b)
  {
    hide PutByte, OpenImage;
    assert [b][1..] == [];
    assert OpenImages(env, s) == s;
  }

  lemma PutByteExtendsChunk(env: Env, s: State, w: seq<byte>, b: byte)
    requires s.Receiving() && s.open.Some? && |s.fed| + |w| < s.hdrs[s.index].length
    ensures
      PutByte(env, ChunkReceived(s, w), b) ==
      if |s.fed| + |w| + 1 < s.hdrs[s.index].length then ChunkReceived(s, w + [b])
      else CloseImage(env, ChunkReceived(s, w + [b]))
  {
    hide ChunkWritten, CloseImage, Erased, Programmed;
    ChunkGrows(s.flash, s.open.value.start, |s.fed|, w, b, s.hdrs[s.index].length);
    assert s.fed + w + [b] == s.fed + (w + [b]);
  }

  /** A chunk that fits the open image has the effect of its bytes. */
  lemma {:induction false} ChunkIsItsBytes(env: Env, s: State, w: seq<byte>)
    requires s.Receiving() && s.open.Some? && |s.fed| < s.hdrs[s.index].length
    requires |s.fed| + |w| <= s.hdrs[s.index].length
    ensures
      Consume(env, s, w) ==
      if |s.fed| + |w| < s.hdrs[s.index].length then ChunkReceived(s, w) else CloseImage(env, ChunkReceived(s, w))
    decreases |w|
  {
    hide ChunkWritten, CloseImage, PutByte, Step;
    if w == [] {
      EmptyChunk(s.flash, s.open.value.start, |s.fed|, s.hdrs[s.index].length);
      assert s.fed + [] == s.fed;
    } else {
      var w0, b := w[..|w| - 1], w[|w| - 1];
      assert w == w0 + [b];
      ConsumeAppend(env, s, w0, [b]);
      ChunkIsItsBytes(env, s, w0);
      StepPutsByte(env, ChunkReceived(s, w0), b);
      PutByteExtendsChunk(env, s, w0, b);
    }
  }

  // The configuration

  /** The fixed head decides the same from any longer piece of the configuration. */
  lemma HeadOfPrefix(x: seq<byte>, n: nat)
    requires CONFIG_HEAD_LEN <= n <= |x|
    ensures HeadOk(x[..n]) == HeadOk(x) && ConfigLength(x[..n]) == ConfigLength(x)
  {
    hide FromLe32;
    var p := x[..n];
    forall a | a in {0, 4, 8, 12}
      ensures Word(p, a) == Word(x, a)
    {
    }
  }

  /** A piece of a well-formed configuration is just collected; its last byte completes it. */
  lemma {:induction false} ConfigPieceIsItsBytes(env: Env, s: State, w: seq<byte>)
    requires s.phase == Config && w != []
    requires |s.cfg + w| >= CONFIG_HEAD_LEN ==> HeadOk(s.cfg + w) && |s.cfg + w| <= ConfigLength(s.cfg + w)
    ensures
      var s' := s.(cfg := s.cfg + w);
      Consume(env, s, w) ==
      if |s'.cfg| >= CONFIG_HEAD_LEN && |s'.cfg| == ConfigLength(s'.cfg) then ConfigDone(env, s') else s'
    decreases |w|
  {
    hide ConfigDone, HeadOk, ConfigLength;
    var x := s.cfg + w;
    var w0, b := w[..|w| - 1], w[|w| - 1];
    assert w == w0 + [b] && x[..|x| - 1] == s.cfg + w0 && s.cfg + w0 + [b] == x;
    ConsumeAppend(env, s, w0, [b]);
    if |s.cfg + w0| >= CONFIG_HEAD_LEN {
      HeadOfPrefix(x, |x| - 1);
    }
    if w0 == [] {
      assert s.cfg + w0 == s.cfg;
    } else {
      ConfigPieceIsItsBytes(env, s, w0);
    }
    ConsumeOne(env, s.(cfg := s.cfg + w0), b);
  }

  lemma ConsumeOne(env: Env, s: State, b: byte)
    ensures Consume(env, s, [b]) == Step(env, s, b)
  {
    hide Step;
    assert [b][1..] == [];
  }

  /** A first piece with a bad head fails, whatever follows. */
  lemma BadHeadFails(env: Env, s: State, w: seq<byte>)
    requires s.phase == Config && s.cfg == [] && |w| >= CONFIG_HEAD_LEN && !HeadOk(w)
    ensures Consume(env, s, w) == s.(cfg := w[..CONFIG_HEAD_LEN]).Fail(IncorrectImageHdr)
  {
    hide HeadOk, ConfigLength, Step;
    var head, rest := w[..CONFIG_HEAD_LEN], w[CONFIG_HEAD_LEN..];
    assert w == head + rest;
    HeadOfPrefix(w, CONFIG_HEAD_LEN);
    BareHeadFails(env, s, head);
    ConsumeAppend(env, s, head, rest);
    ConsumeWhenOver(env, s.(cfg := head).Fail(IncorrectImageHdr), rest);
  }

  lemma BareHeadFails(env: Env, s: State, head: seq<byte>)
    requires s.phase == Config && s.cfg == [] && |head| == CONFIG_HEAD_LEN && !HeadOk(head)
    ensures Consume(env, s, head) == s.(cfg := head).Fail(IncorrectImageHdr)
  {
    hide HeadOk, ConfigLength, ConfigDone;
    var w0, b := head[..CONFIG_HEAD_LEN - 1], head[CONFIG_HEAD_LEN - 1];
    assert head == w0 + [b] && [] + w0 == w0;
    ConsumeAppend(env, s, w0, [b]);
    ConfigPieceIsItsBytes(env, s, w0);
    ConsumeOne(env, s.(cfg := w0), b);
  }

  /** A session that has failed or finished takes no notice of further bytes. */
  lemma {:induction false} ConsumeWhenOver(env: Env, s: State, w: seq<byte>)
    requires s.phase.Failed? || s.phase == Finished
    ensures Consume(env, s, w) == s
    decreases |w|
  {
    if w != [] {
      ConsumeWhenOver(env, s, w[1..]);
    }
  }

  /** Opening images early changes nothing once there is a byte for them. */
  lemma OpeningIsPartOfTheNextByte(env: Env, s: State, w: seq<byte>)
    requires s.Receiving() && w != []
    ensures Consume(env, s, w) == Consume(env, OpenImages(env, s), w)
  {
    hide PutByte, OpenImage;
    var s' := OpenImages(env, s);
    assert OpenImages(env, s') == s';
    if s'.Over() {
      ConsumeWhenOver(env, s', w);
      ConsumeWhenOver(env, s', w[1..]);
    }
  }
}
