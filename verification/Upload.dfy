/**
 The upload command: a client sends segments of one stream, and may repeat, overlap, reorder or drop them;
 the session is handed every byte once and in order.
 */
module Upload {
  import opened Bytes
  import opened NorFlash
  import opened SlotSelection
  import opened UpgradeMem
  import opened UpgradeSpec
  import opened SessionInvariant
  import opened ImageInvariant
  import opened Completion
  import opened ConfigPieces
  import opened UpgradeSession
  import opened WholeUpload

  datatype MgmtError = NoMemory | Invalid | Unknown | Busy | BadState | TimedOut

  /** The answer to an upload request: the offset the client should go on from, or an error. */
  datatype Reply = Continue(off: nat) | Refused(error: MgmtError)

  function ErrorFor(rc: Code): MgmtError {
    match rc
    case IncorrectImageChecksum => NoMemory
    case FlashNotEnoughSpace => NoMemory
    case InvalidParam => Invalid
    case IncorrectImageHdr => Invalid
    case IncorrectImageLength => Invalid
    case TrialIsRunning => Busy
    case SessionNotStart => BadState
    case _ => Unknown
  }

  // What the handler does with a request, without the session

  /** A request for `n` bytes at `off`. */
  datatype Request = Request(off: nat, n: nat)

  /** Nothing is new, or the bytes from stream offset `from` on are. */
  datatype Reaction = Ignore | Feed(from: nat)

  function Expected(offset: nat, r: Request): nat {
    if r.off == 0 then 0 else offset
  }

  function React(offset: nat, r: Request): Reaction {
    var e := Expected(offset, r);
    if r.off <= e < r.off + r.n then Feed(e) else Ignore
  }

  /** The offset after a request that was not refused. */
  function Next(offset: nat, r: Request): nat {
    if React(offset, r).Feed? then r.off + r.n else Expected(offset, r)
  }

  /** The stream bytes fed for a request. */
  function FedBytes(stream: seq<byte>, offset: nat, r: Request): seq<byte>
    requires r.off + r.n <= |stream|
  {
    match React(offset, r)
    case Ignore => []
    case Feed(from) => stream[from..r.off + r.n]
  }

  /** All bytes fed since the last request at offset 0, over a run of requests none of which is refused. */
  function FedSince(stream: seq<byte>, offset: nat, fed: seq<byte>, rs: seq<Request>): seq<byte>
    requires forall k :: 0 <= k < |rs| ==> rs[k].off + rs[k].n <= |stream|
    decreases |rs|
  {
    if rs == [] then fed
    else
      var kept := if rs[0].off == 0 then [] else fed;
      FedSince(stream, Next(offset, rs[0]), kept + FedBytes(stream, offset, rs[0]), rs[1..])
  }

  function OffsetAfter(offset: nat, rs: seq<Request>): nat
    decreases |rs|
  {
    if rs == [] then offset else OffsetAfter(Next(offset, rs[0]), rs[1..])
  }

  /** Whatever the client repeats, reorders or leaves out, what is fed is the stream up to the expected offset. */
  lemma {:induction false} FedIsAPrefix(stream: seq<byte>, offset: nat, rs: seq<Request>)
    requires offset <= |stream| && forall k :: 0 <= k < |rs| ==> rs[k].off + rs[k].n <= |stream|
    ensures OffsetAfter(offset, rs) <= |stream|
    ensures FedSince(stream, offset, stream[..offset], rs) == stream[..OffsetAfter(offset, rs)]
    decreases |rs|
  {
    if rs != [] {
      var kept := if rs[0].off == 0 then [] else stream[..offset];
      assert kept + FedBytes(stream, offset, rs[0]) == stream[..Next(offset, rs[0])];
      FedIsAPrefix(stream, Next(offset, rs[0]), rs[1..]);
    }
  }

  lemma {:induction false} OffsetAfterOneMore(offset: nat, rs: seq<Request>, r: Request)
    ensures OffsetAfter(offset, rs + [r]) == Next(OffsetAfter(offset, rs), r)
    decreases |rs|
  {
    if rs == [] {
      assert [] + [r] == [r] && [r][1..] == [];
      assert OffsetAfter(offset, [r]) == OffsetAfter(Next(offset, r), []);
    } else {
      assert (rs + [r])[0] == rs[0] && (rs + [r])[1..] == rs[1..] + [r];
      OffsetAfterOneMore(Next(offset, rs[0]), rs[1..], r);
    }
  }

  function End(r: Request): nat {
    r.off + r.n
  }

  /** The requests start over, and then none starts behind everything before it; they may repeat and overlap. */
  predicate NoGap(rs: seq<Request>) {
    && rs != [] && rs[0].off == 0
    && forall k :: 1 <= k < |rs| ==> 0 < rs[k].off && exists j :: 0 <= j < k && rs[k].off <= End(rs[j])
  }

  /** `e` is the end of the request that reaches farthest. */
  predicate Farthest(rs: seq<Request>, e: nat) {
    (forall k :: 0 <= k < |rs| ==> End(rs[k]) <= e) && exists k :: 0 <= k < |rs| && End(rs[k]) == e
  }

  lemma FarthestGrows(rs: seq<Request>, e: nat)
    requires |rs| > 1 && Farthest(rs[..|rs| - 1], e)
    ensures Farthest(rs, if End(rs[|rs| - 1]) > e then End(rs[|rs| - 1]) else e)
  {
    var n := |rs| - 1;
    var k :| 0 <= k < n && End(rs[..n][k]) == e;
    assert End(rs[k]) == e;
    forall k | 0 <= k < n
      ensures End(rs[k]) <= e
    {
      assert rs[..n][k] == rs[k];
    }
  }

  /** A request that starts at or before the expected offset moves it to its end, if that is beyond. */
  lemma NextIsFarther(offset: nat, r: Request)
    requires 0 < r.off <= offset
    ensures Next(offset, r) == if End(r) > offset then End(r) else offset
  {
  }

  /** Then the offset is the end of the farthest one, wherever the handler was before. */
  lemma {:induction false} NothingMissing(offset: nat, rs: seq<Request>)
    requires NoGap(rs)
    ensures Farthest(rs, OffsetAfter(offset, rs))
    decreases |rs|
  {
    hide NoGap, OffsetAfter, Next;
    var n := |rs| - 1;
    GapsBefore(rs);
    assert rs == rs[..n] + [rs[n]];
    OffsetAfterOneMore(offset, rs[..n], rs[n]);
    if n == 0 {
      OneRequest(offset, rs[0]);
      assert End(rs[0]) == OffsetAfter(offset, rs);
    } else {
      NothingMissing(offset, rs[..n]);
      NextIsFarther(OffsetAfter(offset, rs[..n]), rs[n]);
      FarthestGrows(rs, OffsetAfter(offset, rs[..n]));
    }
  }

  lemma OneRequest(offset: nat, r: Request)
    requires r.off == 0
    ensures OffsetAfter(offset, []) == offset && Next(offset, r) == End(r)
  {
  }

  lemma GapsBefore(rs: seq<Request>)
    requires NoGap(rs)
    ensures rs != [] && rs[0].off == 0
    ensures
      var n := |rs| - 1;
      n > 0 ==> NoGap(rs[..n]) && 0 < rs[n].off && exists j :: 0 <= j < n && rs[n].off <= End(rs[..n][j])
  {
    var n := |rs| - 1;
    if n > 0 {
      var before := rs[..n];
      forall k | 1 <= k < n
        ensures 0 < before[k].off && exists j :: 0 <= j < k && before[k].off <= End(before[j])
      {
        var j :| 0 <= j < k && rs[k].off <= End(rs[j]);
        assert before[k].off <= End(before[j]);
      }
      var j :| 0 <= j < n && rs[n].off <= End(rs[j]);
      assert rs[n].off <= End(rs[..n][j]);
    }
  }

  /** Requests that cover a stream without a gap leave the handler at its end. */
  lemma CoveredToTheEnd(offset: nat, rs: seq<Request>, len: nat)
    requires NoGap(rs) && forall k :: 0 <= k < |rs| ==> End(rs[k]) <= len
    requires exists k :: 0 <= k < |rs| && End(rs[k]) == len
    ensures OffsetAfter(offset, rs) == len
  {
    NothingMissing(offset, rs);
  }

  // The handler

  class Handler {
    const session: Session
    /** The offset the next segment is expected at. */
    var offset: nat
    /** The bytes the session has taken since the last request at offset 0. */
    ghost var fed: seq<byte>
    /** Partition handles that nobody will give back, and the restarts that hit an open image. */
    ghost var lost: nat
    ghost var restarts: nat
    /** No session so far has failed on a flash fault, met an empty scratch partition or installed an SBL. */
    ghost var clean: bool

    constructor (session: Session)
      requires !session.active && session.partitionHdl == -1 && FreeCount(session.mem.handles[..]) == MAX_HANDLES
      ensures this.session == session && offset == 0 && fed == [] && Accounted() && clean && restarts == 0
    {
      this.session := session;
      offset := 0;
      fed := [];
      lost, restarts, clean := 0, 0, true;
    }

    /** The session waits for more bytes of an image. */
    ghost predicate OnImage()
      reads session, session.mem.flash, session.mem.handles
    {
      session.Resting() && session.spec.open.Some?
    }

    /** Every handle is free, held by the session, or lost; as long as all goes well, only restarts that hit an open image lose one. */
    ghost predicate Accounted()
      reads this`lost, this`restarts, this`clean, session, session.mem.flash, session.mem.handles
    {
      && session.Spare() + lost == MAX_HANDLES
      && (clean ==> lost == restarts && (session.Held() == 1 <==> OnImage()))
    }

    /** From a full pool on, there are two handles for the next session exactly while at most eight restarts, one about to be made
        included, have hit an open image. */
    lemma HandlesSufficeExactlyWhen()
      requires Accounted() && clean
      ensures FreeCount(session.mem.handles[..]) >= 2 <==> restarts + (if OnImage() then 1 else 0) <= 8
    {
      hide FreeCount, Session.Resting;
    }

    /** As long as nothing has failed the session is where the stream up to the expected offset takes the reference model. */
    ghost predicate Synced(stream: seq<byte>)
      reads this, session, session.mem.flash, session.mem.handles
    {
      && session.mem.Valid() && offset <= |stream| && fed == stream[..offset]
      && (offset > 0 && Healthy() ==>
            && session.spec == Consume(session.Environment(), Begin(session.Environment(), session.Origin()), fed)
            && (session.active ==> session.Resting())
            && (session.spec.phase == Config ==> |fed| >= CONFIG_HEAD_LEN))
    }

    ghost predicate Healthy()
      reads session, session.mem.flash
    {
      !session.mem.flash.faulted && !session.spec.phase.Failed?
    }

    /** Only the session's last write has failed, which nobody looks at. */
    ghost predicate Over()
      reads session
    {
      !session.active && session.spec.phase == Finished
    }

    /** A request is a segment of the stream; after an error only a restart is legal, and a restart needs a usable flash and two
        handles that have not been lost. */
    ghost predicate MayUpload(stream: seq<byte>, off: nat, data: seq<byte>)
      reads this`lost, session, session.mem.flash, session.mem.handles
    {
      && off + |data| <= |stream| < TWO_TO_THE_32 && data == stream[off..off + |data|] && SaneStream(session.Environment(), stream)
      && (off == 0 ==> lost + session.Held() <= MAX_HANDLES - 2 && Ready(session.Environment(), session.mem.flash.cells))
      && (off != 0 ==> Healthy() || Over())
    }

    /** What makes the session keep a handle other than on an open image, or lose one at its end. */
    ghost predicate SpoiledBy(rc: Code)
      reads session, session.mem.flash
    {
      session.mem.flash.faulted || EmptyScratch(session.Environment(), session.Origin()) || session.Lost(rc) != 0
    }

    ghost predicate SpoilsPool()
      reads session, session.mem.flash
    {
      exists rc: Code :: SpoiledBy(rc)
    }

    /** Once the session has settled, it holds a handle exactly on an open image, unless something has gone wrong. */
    lemma HoldsOnImage(rc: Code, goal: State)
      requires session.Settled(rc, goal)
      ensures !SpoiledBy(rc) ==> (session.Held() == 1 <==> OnImage())
    {
      hide Session.Resting, Session.Protected, Session.Origin, Session.Lost, EmptyScratch;
      if session.Resting() {
        session.RestingHolds();
        RestingIsSound(session);
      }
    }

    lemma Spoils(rc: Code)
      requires SpoiledBy(rc)
      ensures SpoilsPool()
    {
      hide SpoiledBy;
    }

    lemma LossSpoils(rc: Code)
      ensures session.Lost(rc) != 0 ==> SpoiledBy(rc)
    {
      hide Session.Lost, EmptyScratch, Session.Origin;
    }

    /** Keeps count of a call of the session, made while it held `held` handles. */
    ghost method Account(rc: Code, at: nat, held: nat, onImage: bool, goal: State)
      requires session.Settled(rc, goal) && held <= 1
      requires session.Spare() + lost + (if at == 0 then held else 0) + session.Lost(rc) == MAX_HANDLES
      requires clean ==> lost == restarts && (held == 1 <==> onImage)
      modifies this`lost, this`restarts, this`clean
      ensures Accounted() && lost >= old(lost) && restarts == old(restarts) + (if at == 0 && onImage then 1 else 0)
      ensures old(clean) && !clean ==> SpoilsPool()
    {
      hide Session.Lost, Session.Settled, Session.Spare, Session.Held, OnImage, SpoiledBy, SpoilsPool;
      HoldsOnImage(rc, goal);
      LossSpoils(rc);
      if SpoiledBy(rc) {
        assert SpoilsPool() by { Spoils(rc); }
      }
      lost := lost + (if at == 0 then held else 0) + session.Lost(rc);
      restarts := restarts + if at == 0 && onImage then 1 else 0;
      clean := clean && !SpoiledBy(rc);
    }

    /** The error a client sees, by what the session has failed with; a session that is over is in a bad state. */
    ghost predicate RefusedFor(error: MgmtError)
      reads session
    {
      match session.spec.phase
      case Failed(rc) =>
        && (rc == IncorrectImageChecksum || rc == FlashNotEnoughSpace <==> error == NoMemory)
        && (rc == InvalidParam || rc == IncorrectImageHdr || rc == IncorrectImageLength <==> error == Invalid)
        && (rc == TrialIsRunning <==> error == Busy) && (rc == SessionNotStart <==> error == BadState) && error != TimedOut
      case _ => error == BadState && !session.active
    }

    lemma AnswerToFailure(rc: Code)
      requires rc != Ok && (session.spec.phase == Failed(rc) || (rc == SessionNotStart && !session.active && !session.spec.phase.Failed?))
      ensures RefusedFor(ErrorFor(rc))
    {
    }

    /** Answers a request of the client. */
    method Upload(off: nat, data: seq<byte>, ghost stream: seq<byte>) returns (reply: Reply)
      requires session.mem.handles.Length == MAX_HANDLES && Synced(stream) && MayUpload(stream, off, data) && Accounted()
      modifies this, session, session.mem.handles, session.mem.flash
      ensures Synced(stream) && Accounted() && (reply.Continue? && (off != 0 || data != []) ==> Healthy() || Over())
      ensures restarts == old(restarts) + (if off == 0 && data != [] && old(OnImage()) then 1 else 0)
      ensures old(clean) && !clean ==> SpoilsPool()
      ensures reply.Continue? ==> reply.off == offset == Next(old(offset), Request(off, |data|))
      ensures reply.Refused? ==> React(old(offset), Request(off, |data|)).Feed? && offset == Expected(old(offset), Request(off, |data|))
      ensures
        var e := if off == 0 then 0 else old(offset);
        if off <= e < off + |data| then
          if reply.Refused? then offset == e && RefusedFor(reply.error)
          else offset == off + |data| && (session.mem.flash.faulted || session.spec == Fed(
                 session.Environment(), if e == 0 then Begin(session.Environment(), old(session.mem.flash.cells)) else old(session.spec),
                 stream[e..off + |data|]))
        else
          && reply == Continue(e) && offset == e
          && session.spec == old(session.spec) && session.active == old(session.active) && session.partitionHdl == old(session.partitionHdl)
          && session.mem.flash.cells == old(session.mem.flash.cells) && session.mem.flash.history == old(session.mem.flash.history)
          && session.mem.handles[..] == old(session.mem.handles[..])
    {
      hide Session.Resting, Begin, SaneStream, Ready, Consume, FreeCount, Flash.Valid, Session.Origin, Healthy, RefusedFor, ErrorFor;
      if off == 0 {
        offset := 0;
        fed := [];
      }
      if off < offset {
        if U32(off + |data|) <= offset {
          return Continue(offset);
        }
        var skip := offset - off;
        var rc := Hand(offset, data[skip..], stream);
        if rc != Ok {
          return Refused(ErrorFor(rc));
        }
      } else if off > offset {
        return Continue(offset);
      } else if |data| > 0 {
        var rc := Hand(off, data, stream);
        if rc != Ok {
          return Refused(ErrorFor(rc));
        }
      }
      reply := Continue(U32(off + |data|));
    }

    /** Calls the session, keeping count of the handles. */
    method Call(at: nat, data: seq<byte>) returns (rc: Code)
      requires session.MayProcess(at, data) && Accounted() && (at != 0 && session.active ==> session.Resting())
      modifies this`lost, this`restarts, this`clean, session, session.mem.handles, session.mem.flash
      ensures Accounted() && restarts == old(restarts) + (if at == 0 && old(OnImage()) then 1 else 0)
      ensures lost >= old(lost) && (old(clean) && !clean ==> SpoilsPool())
      ensures session.mem.Valid()
      ensures at != 0 && !old(session.active) ==>
                && rc == SessionNotStart && session.mem.flash.cells == old(session.mem.flash.cells) && session.spec == old(session.spec)
                && !session.active && session.Origin() == old(session.Origin()) && session.mem.flash.faulted == old(session.mem.flash.faulted)
      ensures at == 0 || old(session.active) ==>
                var start := if at == 0 then Begin(session.Environment(), old(session.mem.flash.cells)) else old(session.spec);
                && session.Settled(rc, Fed(session.Environment(), start, data))
                && session.Origin() == if at == 0 then old(session.mem.flash.cells) else old(session.Origin())
    {
      hide Session.Resting, Begin, SaneStream, Ready, Fed, FreeCount, Flash.Valid, Session.Settled, Session.Lost, EmptyScratch;
      ghost var start := if at == 0 then Begin(session.Environment(), session.mem.flash.cells) else session.spec;
      ghost var called, held, onImage := at == 0 || session.active, session.Held(), OnImage();
      if session.Resting() {
        RestingIsSound(session);
      }
      rc := session.SessionProcess(at, data);
      if called {
        Account(rc, at, held, onImage, Fed(session.Environment(), start, data));
      } else if session.Resting() {
        RestingIsSound(session);
      }
    }

    /** Hands new bytes to the session, and counts them when it takes them. */
    method Hand(at: nat, data: seq<byte>, ghost stream: seq<byte>) returns (rc: Code)
      requires session.mem.handles.Length == MAX_HANDLES && Synced(stream) && data != [] && at == offset
      requires at + |data| <= |stream| < TWO_TO_THE_32 && data == stream[at..at + |data|] && SaneStream(session.Environment(), stream)
      requires at == 0 ==> lost + session.Held() <= MAX_HANDLES - 2 && Ready(session.Environment(), session.mem.flash.cells)
      requires at != 0 ==> Healthy() || Over()
      requires Accounted()
      modifies this, session, session.mem.handles, session.mem.flash
      ensures Accounted() && restarts == old(restarts) + (if at == 0 && old(OnImage()) then 1 else 0)
      ensures lost >= old(lost) && (old(clean) && !clean ==> SpoilsPool())
      ensures Synced(stream) && (rc == Ok ==> offset == at + |data|) && (rc != Ok ==> offset == at && RefusedFor(ErrorFor(rc)))
      ensures
        rc == Ok ==> session.mem.flash.faulted || session.spec == Fed(
          session.Environment(), if at == 0 then Begin(session.Environment(), old(session.mem.flash.cells)) else old(session.spec), data)
      ensures rc == Ok ==> Healthy() || Over()
    {
      hide Session.Resting, Begin, SaneStream, Ready, Fed, Consume, FreeCount, Flash.Valid, Session.Protected, Accounted, SpoilsPool, OnImage,
        RefusedFor, ErrorFor;
      ghost var env := session.Environment();
      if session.Resting() {
        RestingIsSound(session);
      }
      PoolIsKnown();
      SanePrefix(env, stream, at + |data|);
      assert stream[..at] + data == stream[..at + |data|];
      if at == 0 {
        BeginsEmpty(env, session.mem.flash.cells);
        FedFirst(env, session.mem.flash.cells, data);
      } else if session.active {
        Continuing(env, session.Origin(), session.spec, fed, data);
      }
      rc := Call(at, data);
      if rc == Ok {
        offset := at + |data|;
        fed := fed + data;
        if session.Resting() {
          RestingIsSound(session);
          session.RestingHolds();
        }
      } else {
        AnswerToFailure(rc);
      }
    }

    lemma PoolIsKnown()
      requires Accounted()
      ensures FreeCount(session.mem.handles[..]) + session.Held() + lost == MAX_HANDLES
    {
      hide FreeCount, OnImage;
    }
  }

  /**
   A client's requests one after the other, until one is refused.  If they cover the stream without a gap and none is refused,
   the handler has got to its end, and unless the flash has failed the session to where the whole stream takes it.
   */
  method UploadAll(h: Handler, rs: seq<Request>, stream: seq<byte>) returns (reply: Reply)
    requires h.session.mem.handles.Length == MAX_HANDLES && h.Synced(stream) && h.Accounted() && NoGap(rs) && 0 < rs[0].n
    requires forall k :: 0 <= k < |rs| ==> End(rs[k]) <= |stream|
    requires exists k :: 0 <= k < |rs| && End(rs[k]) == |stream|
    requires h.MayUpload(stream, 0, stream[..rs[0].n])
    modifies h, h.session, h.session.mem.handles, h.session.mem.flash
    ensures h.Synced(stream) && h.Accounted()
    ensures reply.Continue? ==> reply.off == h.offset == |stream| && h.fed == stream && (h.Healthy() || h.Over())
    ensures reply.Refused? ==> h.RefusedFor(reply.error)
  {
    hide Session.Resting, Begin, SaneStream, Ready, Consume, Fed, FreeCount, Flash.Valid, Session.Origin, Handler.Healthy, Handler.RefusedFor,
      Handler.Accounted, Handler.OnImage, Handler.SpoilsPool, Next, React;
    ghost var start := h.offset;
    reply := h.Upload(0, stream[..rs[0].n], stream);
    var i := 1;
    assert rs[..1] == [] + [rs[0]] && OffsetAfter(start, []) == start;
    OffsetAfterOneMore(start, [], rs[0]);
    while i < |rs| && reply.Continue?
      invariant 1 <= i <= |rs| && h.Synced(stream) && h.Accounted()
      invariant reply.Continue? ==> reply.off == h.offset == OffsetAfter(start, rs[..i]) && (h.Healthy() || h.Over())
      invariant reply.Refused? ==> h.RefusedFor(reply.error)
    {
      assert rs[..i + 1] == rs[..i] + [rs[i]];
      OffsetAfterOneMore(start, rs[..i], rs[i]);
      reply := h.Upload(rs[i].off, stream[rs[i].off..rs[i].off + rs[i].n], stream);
      i := i + 1;
    }
    if reply.Continue? {
      assert rs[..i] == rs;
      CoveredToTheEnd(start, rs, |stream|);
    }
  }

  /** Once the client has brought the whole of a valid stream across, in whatever pieces, the payloads are installed,
      unless the last image is empty. */
  lemma WholeStreamUploaded(h: Handler, g: Geometry, cfg: seq<byte>, ps: seq<seq<byte>>, stream: seq<byte>)
    requires h.Synced(stream) && h.Healthy() && h.offset == |stream| > 0 && stream == cfg + Concat(ps)
    requires ValidUpload(h.session.Environment(), g, Begin(h.session.Environment(), h.session.Origin()), cfg, ps)
    ensures h.session.spec.phase == Finished <==> ps[|ps| - 1] != []
    ensures h.session.spec.phase == Finished ==> h.session.spec.payloads == ps && Installed(h.session.Environment(), g, h.session.spec)
  {
    hide Begin, Consume, Installed, ConfigInv, SaneConfig, Roomy, Session.Resting, Flash.Valid, CheckImages, HeadOk, ConfigIntact;
    assert h.fed == stream;
    UploadCompletesExactlyWhen(h.session.Environment(), h.session.Origin(), g, cfg, ps);
  }
}
