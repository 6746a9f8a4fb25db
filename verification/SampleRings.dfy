/** Concrete rings on which the code does not do what is wanted. */
module SampleRings {
  import opened Bytes
  import opened Qcspi
  import opened RingLayout
  import RingRx
  import RingTx

  function Zeros(n: nat): (m: seq<byte>)
    ensures |m| == n && forall i :: 0 <= i < n ==> m[i] == 0
  {
    seq(n, i => 0)
  }

  lemma ZeroWord(m: seq<byte>, a: nat)
    requires a + 4 <= |m| && forall i :: a <= i < a + 4 ==> m[i] == 0
    ensures Word(m, a) == 0
  {
    WordOfLe32(m, a, 0);
  }

  /** Two slots with buffers large enough for a packet of more than sixteen bits' length. */
  function WideRing(): Ring {
    Ring(8, 2, 24, 0x1_0004, 0, 4)
  }

  /** Of a packet of 65537 bytes a single one arrives, and the sender is told that all went well. */
  method LongPacketIsCut() returns (tx: RingTx.Transmitter, r: Outcome)
    ensures r.Done? && tx.sent == [[7]]
  {
    hide Word, RingTx.Pending;
    var mem := Zeros(24 + 2 * 0x1_0004);
    ZeroWord(mem, 0);
    ZeroWord(mem, 4);
    var driver := new Driver(mem, true);
    tx := new RingTx.Transmitter(driver, WideRing(), 0, true);
    var data := new byte[0x1_0001](_ => 7);
    r := tx.Send(0, data, 0x1_0001);
    assert data[..1] == [7];
  }

  /** Two small slots. */
  function SmallRing(): Ring {
    Ring(8, 2, 24, 8, 0, 4)
  }

  /** The slave has published an empty packet. */
  function EmptyPacketWaiting(): seq<byte> {
    Splice(Splice(Splice(Zeros(40), 0, Le32(1)), 8, Le32(24)), 12, Le32(LengthAndFlags(0, FLAG_VALID)))
  }

  lemma EmptyPacketHeld()
    ensures
      var m, r := EmptyPacketWaiting(), SmallRing();
      && |m| == 40 && RingOk(r, |m|) && Word(m, r.rdAddr) == 0 && Word(m, r.wrAddr) == 1
      && RingRx.Filled(m, r, 0, [[]]) && RingRx.Unmarked(m, r, 1, 2)
  {
    hide Word, EmptyPacketWaiting, LengthAndFlags, LengthOf, MarkedValid;
    EmptyPacketWords();
    LengthAndFlagsRead(0);
    ZeroIsUnmarked();
    assert SlotOf(2, 0) == 0 && SlotOf(2, 1) == 1;
  }

  lemma ZeroIsUnmarked()
    ensures !MarkedValid(0)
  {
  }

  lemma EmptyPacketWords()
    ensures
      var m := EmptyPacketWaiting();
      && |m| == 40 && Word(m, 0) == 1 && Word(m, 4) == 0 && Word(m, 8) == 24
      && Word(m, 12) == LengthAndFlags(0, FLAG_VALID) && Word(m, 20) == 0
  {
    hide Word, Le32, LengthAndFlags;
    var m := EmptyPacketWaiting();
    WordOfLe32(m, 0, 1);
    WordOfLe32(m, 8, 24);
    WordOfLe32(m, 12, LengthAndFlags(0, FLAG_VALID));
    ZeroWord(m, 4);
    ZeroWord(m, 20);
  }

  /** However often the host tries, an empty packet at the head is refused, and nothing behind it is ever received. */
  method EmptyPacketBlocks(tries: nat) returns (rx: RingRx.Receiver, refused: nat)
    ensures refused == tries && rx.taken == 0
  {
    hide EmptyPacketWaiting, RingRx.Filled, RingRx.Unmarked, Word, RingRx.Receiver.Valid;
    EmptyPacketHeld();
    var driver := new Driver(EmptyPacketWaiting(), true);
    rx := new RingRx.Receiver.Attached(driver, SmallRing(), 0, [[]], 1);
    var data := new byte[8];
    refused := 0;
    while refused < tries
      invariant refused <= tries && rx.Valid() && rx.taken == 0 && rx.driver == driver && driver.reliable && rx.id == 0
      invariant rx.initialized && rx.configured && rx.ring == SmallRing() && [[]] <= rx.produced && !rx.jammed && rx.written >= 1
      invariant fresh(rx) && fresh(driver) && fresh(data)
    {
      rx.Counters();
      var r := rx.Receive(0, data, 8, true);
      if r != Err(EINVAL) {
        break;
      }
      refused := refused + 1;
    }
  }
}
