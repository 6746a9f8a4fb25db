/** A whole upload: how it is cut into packets does not matter, and a valid one installs its payloads. */
module WholeUpload {
  import opened Bytes
  import opened NorFlash
  import opened Descriptor
  import opened SlotSelection
  import opened UpgradeMem
  import opened UpgradeSpec
  import opened PacketBoundaries
  import opened SessionInvariant
  import opened ImageInvariant
  import opened Completion
  import opened ChunkOperations
  import opened ConfigPieces
  import opened UpgradeSession

  function Concat(packets: seq<seq<byte>>): seq<byte> {
    if packets == [] then [] else packets[0] + Concat(packets[1..])
  }

  /** The packets handed in one after the other; what a session makes of each is `Fed`. */
  function FedAll(env: Env, s: State, packets: seq<seq<byte>>): State
    decreases |packets|
  {
    if packets == [] then s else FedAll(env, Fed(env, s, packets[0]), packets[1..])
  }

  /** Non-empty packets, the first of which holds the fixed head of the configuration. */
  ghost predicate Packets(packets: seq<seq<byte>>) {
    && packets != [] && |packets[0]| >= CONFIG_HEAD_LEN
    && forall k :: 0 <= k < |packets| ==> packets[k] != []
  }

  /** The configuration bytes collected so far only grow while the machine is in its first phase. */
  lemma {:induction false} ConfigGrows(env: Env, s: State, w: seq<byte>)
    requires Consume(env, s, w).phase == Config
    ensures s.phase == Config && Consume(env, s, w).cfg == s.cfg + w
    decreases |w|
  {
    hide Step;
    if w == [] {
      assert s.cfg + [] == s.cfg;
    } else {
      ConfigGrows(env, Step(env, s, w[0]), w[1..]);
      ConfigStaysConfig(env, s, w[0]);
      assert s.cfg + w == s.cfg + [w[0]] + w[1..];
    }
  }

  lemma {:induction false} LaterPackets(env: Env, s: State, packets: seq<seq<byte>>)
    requires s.phase == Config ==> |s.cfg| >= CONFIG_HEAD_LEN
    ensures FedAll(env, s, packets) == Consume(env, s, Concat(packets))
    decreases |packets|
  {
    hide Step;
    if packets != [] {
      var t := Fed(env, s, packets[0]);
      if t.phase == Config {
        ConfigGrows(env, s, packets[0]);
      }
      LaterPackets(env, t, packets[1..]);
      ConsumeAppend(env, s, packets[0], Concat(packets[1..]));
    }
  }

  /** However the stream is cut, the session ends as if its bytes had arrived one by one. */
  lemma PacketsAreTheirBytes(env: Env, f: seq<byte>, packets: seq<seq<byte>>)
    requires Packets(packets)
    ensures FedAll(env, Begin(env, f), packets) == Consume(env, Begin(env, f), Concat(packets))
  {
    hide Begin, Step;
    var s := Begin(env, f);
    BeginsEmpty(env, f);
    var t := Fed(env, s, packets[0]);
    if t.phase == Config {
      ConfigGrows(env, s, packets[0]);
    }
    LaterPackets(env, t, packets[1..]);
    ConsumeAppend(env, s, packets[0], Concat(packets[1..]));
  }

  lemma BeginsEmpty(env: Env, f: seq<byte>)
    ensures Begin(env, f).cfg == []
  {
    hide Find, CanErase, CanCreate, Created, Select, Word, Erased;
  }

  /** Two ways of cutting one stream lead to the same flash, the same descriptor and the same outcome. */
  lemma PacketBoundariesDoNotMatter(env: Env, f: seq<byte>, these: seq<seq<byte>>, those: seq<seq<byte>>)
    requires Packets(these) && Packets(those) && Concat(these) == Concat(those)
    ensures FedAll(env, Begin(env, f), these) == FedAll(env, Begin(env, f), those)
  {
    hide Begin, FedAll, Consume, Concat;
    PacketsAreTheirBytes(env, f, these);
    PacketsAreTheirBytes(env, f, those);
  }

  /** A first packet that is not refused has been consumed. */
  lemma FedFirst(env: Env, f: seq<byte>, data: seq<byte>)
    ensures
      var s := Fed(env, Begin(env, f), data);
      s.phase.Failed? || (s == Consume(env, Begin(env, f), data) && (s.phase == Config ==> |data| >= CONFIG_HEAD_LEN))
  {
    hide Begin, Step, Consume;
    BeginsEmpty(env, f);
    var s := Begin(env, f);
    assert s.cfg + data == data;
    if Consume(env, s, data).phase == Config {
      ConfigGrows(env, s, data);
    }
  }

  /** A later packet continues where the bytes before it have led. */
  lemma Continuing(env: Env, f: seq<byte>, s: State, fed: seq<byte>, data: seq<byte>)
    requires s == Consume(env, Begin(env, f), fed) && (s.phase == Config ==> |fed| >= CONFIG_HEAD_LEN)
    ensures Fed(env, s, data) == Consume(env, Begin(env, f), fed + data)
    ensures s.phase == Config ==> s.cfg == fed
    ensures Fed(env, s, data).phase == Config ==> s.phase == Config
  {
    hide Begin, Step, Consume;
    BeginsEmpty(env, f);
    if Consume(env, s, data).phase == Config {
      ConfigGrows(env, s, data);
    }
    ConsumeAppend(env, Begin(env, f), fed, data);
    if s.phase == Config {
      ConfigGrows(env, Begin(env, f), fed);
      assert [] + fed == fed;
    }
  }

  /**
   The packets handed to a session one after the other, until one is refused.  Unless the flash itself fails, the session and the
   flash end up as if the whole stream had come in one packet, whether it is refused, installed, or waits for more.
   However that is, at most one of the handles that were free is not free afterwards.
   */
  method ProcessAll(session: Session, packets: seq<seq<byte>>) returns (rc: Code)
    requires session.mem.Valid() && FreeCount(session.mem.handles[..]) >= 2 && Packets(packets)
    requires Ready(session.Environment(), session.mem.flash.cells) && SaneStream(session.Environment(), Concat(packets))
    modifies session, session.mem.handles, session.mem.flash
    ensures session.mem.Valid()
    ensures
      var whole := Fed(session.Environment(), Begin(session.Environment(), old(session.mem.flash.cells)), Concat(packets));
      session.mem.flash.faulted ||
      (&& session.spec == whole && session.mem.flash.cells == whole.flash
       && (whole.phase.Failed? ==> rc == whole.phase.code)
       && (!whole.phase.Failed? ==> rc == Ok || (rc == SessionNotStart && whole.phase == Finished)))
    ensures LosesAtMostOne(old(FreeCount(session.mem.handles[..])), FreeCount(session.mem.handles[..]))
  {
    hide Begin, Step, Consume, Fed, Ready, SaneStream, FreeCount, Flash.Valid, Session.Resting, Session.Protected, Session.LetGo,
      Concat, Find;
    ghost var free := FreeCount(session.mem.handles[..]);
    ghost var env, f0, stream := session.Environment(), session.mem.flash.cells, Concat(packets);
    ghost var done: seq<byte> := [];
    WholeIsOnePacket(env, f0, packets);
    rc := ProcessFirst(session, packets[0], packets);
    done := packets[0];
    ConcatStart(packets);
    var i, at := 1, |packets[0]|;
    while i < |packets| && rc == Ok
      invariant 1 <= i <= |packets| && at == |done| >= CONFIG_HEAD_LEN && stream == done + Concat(packets[i..])
      invariant session.mem.Valid() && Reached(session, rc, env, f0, done) && KeptCount(session, free)
    {
      ConcatStart(packets[i..]);
      assert packets[i..][0] == packets[i] && packets[i..][1..] == packets[i + 1..];
      rc := ProcessNext(session, at, packets[i], done, stream, f0, free);
      done := done + packets[i];
      at := at + |packets[i]|;
      i := i + 1;
    }
    if rc == Ok {
      assert packets[i..] == [];
      assert Concat([]) == [] by { ConcatNothing(); }
      assert done == stream;
      if session.Resting() {
        session.RestingHolds();
      }
    }
    ConsumeAppend(env, Begin(env, f0), done, Concat(packets[i..]));
    if !session.mem.flash.faulted && rc != Ok {
      ConsumeWhenOver(env, session.spec, Concat(packets[i..]));
    }
  }

  lemma ConcatStart(packets: seq<seq<byte>>)
    requires packets != []
    ensures Concat(packets) == packets[0] + Concat(packets[1..])
  {
  }

  lemma ConcatNothing()
    ensures Concat([]) == []
  {
  }

  lemma WholeIsOnePacket(env: Env, f: seq<byte>, packets: seq<seq<byte>>)
    requires Packets(packets)
    ensures Fed(env, Begin(env, f), Concat(packets)) == Consume(env, Begin(env, f), Concat(packets))
  {
    hide Begin, Step, Consume;
    BeginsEmpty(env, f);
    ConcatStart(packets);
  }

  /** After the bytes `done` the session is where they take the reference model; it waits, is over or has refused the last packet. */
  ghost predicate Reached(session: Session, rc: Code, env: Env, f: seq<byte>, done: seq<byte>)
    reads session, session.mem.flash, session.mem.handles
  {
    && env == session.Environment() && session.mem.flash.cells == session.spec.flash
    && (session.mem.flash.faulted || session.spec == Consume(env, Begin(env, f), done))
    && (rc == Ok ==> if session.spec.phase == Finished then !session.active else session.Resting())
    && (rc != Ok ==> session.spec.phase == Failed(rc) || (rc == SessionNotStart && session.spec.phase == Finished))
  }

  /** Of the handles free at the start, all are free or held by the session, but for the one on the SBL entry once it has finished. */
  ghost predicate KeptCount(session: Session, free: nat)
    reads session, session.mem.flash, session.mem.handles
  {
    && session.Spare() == free - session.Lost(Ok)
    && (session.spec.phase == Finished ==> session.partitionHdl == -1)
  }

  /** The packet that starts the session. */
  method ProcessFirst(session: Session, data: seq<byte>, ghost packets: seq<seq<byte>>) returns (rc: Code)
    requires session.mem.Valid() && FreeCount(session.mem.handles[..]) >= 2 && Packets(packets) && data == packets[0]
    requires Ready(session.Environment(), session.mem.flash.cells) && SaneStream(session.Environment(), Concat(packets))
    modifies session, session.mem.handles, session.mem.flash
    ensures session.mem.Valid() && Reached(session, rc, session.Environment(), old(session.mem.flash.cells), data)
    ensures KeptCount(session, old(FreeCount(session.mem.handles[..])))
  {
    hide Begin, Step, Consume, Ready, SaneStream, FreeCount, Flash.Valid, Session.Resting, Session.LetGo, Concat, Find;
    ghost var env, f := session.Environment(), session.mem.flash.cells;
    ConcatStart(packets);
    SanePrefix(env, Concat(packets), |data|);
    assert Concat(packets)[..|data|] == data;
    BeginsEmpty(env, f);
    rc := session.SessionProcess(0, data);
  }

  /** A later packet; once the session is over, there is none to hand it to. */
  method ProcessNext(session: Session, at: nat, data: seq<byte>, ghost done: seq<byte>, ghost stream: seq<byte>, ghost f: seq<byte>,
      ghost free: nat) returns (rc: Code)
    requires session.mem.Valid() && Reached(session, Ok, session.Environment(), f, done) && KeptCount(session, free)
    requires at == |done| >= CONFIG_HEAD_LEN && data != [] && done + data <= stream && SaneStream(session.Environment(), stream)
    modifies session, session.mem.handles, session.mem.flash
    ensures session.mem.Valid() && Reached(session, rc, session.Environment(), f, done + data) && KeptCount(session, free)
  {
    hide Begin, Step, Consume, Fed, SaneStream, FreeCount, Flash.Valid, Session.LetGo, Session.Resting, Find;
    ghost var env, s := session.Environment(), session.spec;
    SanePrefix(env, stream, |done + data|);
    assert stream[..|done + data|] == done + data;
    if session.Resting() {
      RestingIsSound(session);
    }
    if session.active {
      Continuing(env, f, s, done, data);
    } else {
      ConsumeAppend(env, Begin(env, f), done, data);
      ConsumeWhenOver(env, s, data);
    }
    rc := session.SessionProcess(at, data);
  }

  lemma RestingIsSound(session: Session)
    requires session.Resting()
    ensures !session.mem.flash.faulted && session.active
  {
    hide FreeCount, SaneStream, Consume, SessionInv, ReceiveInv, Session.GuardedAt;
  }

  // A valid stream

  /** The payloads are those the headers announce; nobody checks the digest of an empty one. */
  ghost predicate Payloads(env: Env, hs: seq<Header>, ps: seq<seq<byte>>) {
    |ps| == |hs| && forall k :: 0 <= k < |hs| ==> |ps[k]| == hs[k].length && (ps[k] != [] ==> env.sha(ps[k]) == hs[k].hash)
  }

  /** There is a free entry for every image, and the file system image fits its place. */
  ghost predicate Roomy(g: Geometry, s: State) {
    && s.hidden + |s.hdrs| <= MAX_IMAGE_ENTRIES
    && forall k :: 0 <= k < |s.hdrs| && s.hdrs[k].id == FS1_IMG_ID ==> s.hdrs[k].disk <= g.fs2.size
  }

  /** The next image can be opened exactly if it is not a first file system larger than its area, and there is a free entry. */
  lemma ImageFitsExactlyWhen(env: Env, g: Geometry, s: State)
    requires ReceiveInv(env, g, s) && s.open == None && s.index < |s.hdrs|
    ensures
      var h := s.hdrs[s.index];
      PlaceError(env, s, h) == if h.id == FS1_IMG_ID && h.disk > g.fs2.size then IncorrectImageLength else Ok
    ensures PlaceError(env, s, s.hdrs[s.index]) == Ok ==> (CanCreate(s.flash, s.trial, Place(env, s, s.hdrs[s.index])) <==> |s.table| < 30)
  {
    hide HoldsTable, HiddenTable, FindFrom, EntryAt, Ordered, AllDone, InfoInv, Word, Rest, ConfigChecked, SblDisk;
    FsPlace(env, g, s);
    FirstUnused(s.flash, s.trial, s.table);
    assert SaneHeader(env, s.hdrs[s.index]);
  }

  lemma ImageFits(env: Env, g: Geometry, s: State)
    requires ReceiveInv(env, g, s) && s.open == None && s.index < |s.hdrs| && Roomy(g, s)
    ensures PlaceError(env, s, s.hdrs[s.index]) == Ok
    ensures CanCreate(s.flash, s.trial, Place(env, s, s.hdrs[s.index]))
  {
    hide Core, Setting, OpenInv, Ordered, FsPending, HiddenTable, Place, CanCreate, PlaceError;
    ImageFitsExactlyWhen(env, g, s);
  }

  /** Opening an image for which there is room. */
  lemma OpensFitting(env: Env, g: Geometry, s: State)
    requires ReceiveInv(env, g, s) && s.open == None && s.Receiving() && Roomy(g, s)
    ensures
      var e, h := Place(env, s, s.hdrs[s.index]), s.hdrs[s.index];
      var t := Opened(s, e, EraseFirstBlock(AddEntry(s, e), e).flash);
      && ReceiveInv(env, g, t)
      && OpenImage(env, s) == (if h.length == 0 then Due(env, Advanced(t)) else t)
      && (h.length == 0 ==> ReceiveInv(env, g, Advanced(t)))
  {
    hide ReceiveInv, Place, PlaceError, EraseFirstBlock, AddEntry, CanCreate, CopyFileSystem, Advanced, OwnPlace;
    var e := Place(env, s, s.hdrs[s.index]);
    ImageFits(env, g, s);
    OpenFacts(env, g, s);
    OpenKeeps(env, g, s);
    var t := Opened(s, e, EraseFirstBlock(AddEntry(s, e), e).flash);
    if s.hdrs[s.index].length == 0 {
      AdvanceKeeps(env, g, t);
    }
  }

  /** What becomes of the session when it opens the next image. */
  lemma OpenVerdict(env: Env, g: Geometry, s: State)
    requires ReceiveInv(env, g, s) && s.open == None && s.Receiving()
    ensures
      var h, t := s.hdrs[s.index], OpenImage(env, s);
      if h.id == FS1_IMG_ID && h.disk > g.fs2.size then t.phase == Failed(IncorrectImageLength)
      else if |s.table| == 30 then t.phase == Failed(FlashCreatePartition)
      else if h.length > 0 then t.phase == Images && t.index == s.index && t.open.Some? && t.fed == []
      else t.index == s.index + 1 && t.payloads == s.payloads + [[]]
  {
    hide ReceiveInv, Place, PlaceError, EraseFirstBlock, AddEntry, CanCreate, CopyFileSystem, OwnPlace;
    ImageFitsExactlyWhen(env, g, s);
    TableBound(env, g, s);
    var e := Place(env, s, s.hdrs[s.index]);
    if PlaceError(env, s, s.hdrs[s.index]) == Ok {
      if CanCreate(s.flash, s.trial, e) {
        OpenKeeps(env, g, s);
        EntryAdded(s, e);
        AfterEmpty(env, EraseFirstBlock(AddEntry(s, e), e).(fed := []));
      } else {
        NoEntry(s, e);
      }
    }
  }

  lemma NoEntry(s: State, e: Entry)
    requires !CanCreate(s.flash, s.trial, e)
    ensures AddEntry(s, e) == s.Fail(FlashCreatePartition)
  {
  }

  lemma TableBound(env: Env, g: Geometry, s: State)
    requires ReceiveInv(env, g, s)
    ensures |s.table| <= 30
  {
    hide HiddenTable, AllDone, EntryAt;
  }

  lemma EntryAdded(s: State, e: Entry)
    requires CanCreate(s.flash, s.trial, e)
    ensures AddEntry(s, e).phase == s.phase
  {
  }

  lemma AfterEmpty(env: Env, s: State)
    requires s.Receiving()
    ensures NextImage(env, s).index == s.index + 1 && NextImage(env, s).payloads == s.payloads + [s.fed]
  {
  }

  /** The digest of an image is taken over all of its bytes, however they came in, and decides. */
  lemma DigestDecides(env: Env, s: State, w: seq<byte>)
    requires s.Receiving() && s.open.Some? && w != [] && |s.fed| + |w| == s.hdrs[s.index].length
    ensures Consume(env, s, w).phase == Failed(IncorrectImageChecksum) <==> env.sha(s.fed + w) != s.hdrs[s.index].hash
  {
    hide ChunkWritten, Consume, CopyBlocks;
    ChunkIsItsBytes(env, s, w);
  }

  /** The first image of the rest, received whole, leads on to the next one. */
  lemma OneImage(env: Env, g: Geometry, s: State, p: seq<byte>) returns (t: State)
    requires ReceiveInv(env, g, s) && s.open == None && s.Receiving() && Roomy(g, s)
    requires |p| == s.hdrs[s.index].length && env.sha(p) == s.hdrs[s.index].hash && p != []
    ensures ReceiveInv(env, g, t) && t.open == None && Roomy(g, t) && Continues(s, t, p)
    ensures Consume(env, s, p) == Due(env, t)
  {
    hide ReceiveInv, Place, EraseFirstBlock, AddEntry, Consume, OpenImage, Due, ChunkWritten, CloseImage;
    var e := Place(env, s, s.hdrs[s.index]);
    var o := Opened(s, e, EraseFirstBlock(AddEntry(s, e), e).flash);
    OpensFitting(env, g, s);
    OneOpeningIsPartOfTheNextByte(env, s, p);
    ChunkIsItsBytes(env, o, p);
    ChunkKeeps(env, g, o, p);
    var r := ChunkReceived(o, p);
    assert r.fed == p;
    ClosingAdvances(env, r);
    AdvanceKeeps(env, g, r);
    t := Advanced(r);
  }

  /** `t` is `s` with one more image completed. */
  ghost predicate Continues(s: State, t: State, p: seq<byte>) {
    && t.phase == Images && t.hdrs == s.hdrs && t.hidden == s.hidden && t.index == s.index + 1
    && t.payloads == s.payloads + [p] && t.cfg == s.cfg
  }

  /** An empty image is passed over as soon as there is a byte for a later one. */
  lemma EmptyImage(env: Env, g: Geometry, s: State, w: seq<byte>) returns (t: State)
    requires ReceiveInv(env, g, s) && s.open == None && s.Receiving() && Roomy(g, s)
    requires s.hdrs[s.index].length == 0 && s.index + 1 < |s.hdrs| && w != []
    ensures ReceiveInv(env, g, t) && t.open == None && Roomy(g, t) && Continues(s, t, [])
    ensures Consume(env, s, w) == Consume(env, t, w)
  {
    hide ReceiveInv, Place, EraseFirstBlock, AddEntry, Consume, OpenImage;
    var e := Place(env, s, s.hdrs[s.index]);
    t := Advanced(Opened(s, e, EraseFirstBlock(AddEntry(s, e), e).flash));
    OpensFitting(env, g, s);
    OneOpeningIsPartOfTheNextByte(env, s, w);
  }

  /** The images still due, received in full: the session ends exactly when the last one has a byte to end it. */
  lemma {:induction false} RestOfUpload(env: Env, g: Geometry, s: State, ps: seq<seq<byte>>)
    requires ReceiveInv(env, g, s) && s.open == None && Roomy(g, s) && s.Receiving()
    requires Payloads(env, s.hdrs[s.index..], ps) && g.fs1.size <= g.fs2.size
    ensures Ends(env, g, s, ps, Consume(env, s, Concat(ps)))
    decreases |ps|
  {
    hide ReceiveInv, Installed, Consume, Due, Continues, Roomy, Concat, Payloads;
    FirstPayload(env, s, ps);
    var p, rest := ps[0], ps[1..];
    ConcatStart(ps);
    LastIsEmpty(ps);
    var t: State;
    if p == [] {
      if Concat(ps) == [] {
        NothingLeft(env, s, []);
        return;
      }
      assert Concat(ps) == Concat(rest) && rest != [] by { ConcatNothing(); }
      t := EmptyImage(env, g, s, Concat(rest));
    } else {
      t := OneImage(env, g, s, p);
      ConsumeAppend(env, s, p, Concat(rest));
      if rest == [] {
        ConcatNothing();
        UploadEnds(env, g, s, t, p);
        assert ps == [p];
        return;
      }
    }
    OneLess(env, s, t, ps);
    DueWhileReceiving(env, t);
    RestOfUpload(env, g, t, rest);
    assert ps[|ps| - 1] == rest[|rest| - 1];
  }

  lemma FirstPayload(env: Env, s: State, ps: seq<seq<byte>>)
    requires s.Receiving() && Payloads(env, s.hdrs[s.index..], ps)
    ensures ps != [] && |ps| == |s.hdrs| - s.index
    ensures |ps[0]| == s.hdrs[s.index].length && (ps[0] != [] ==> env.sha(ps[0]) == s.hdrs[s.index].hash)
  {
    assert s.hdrs[s.index..][0] == s.hdrs[s.index];
  }

  /** How the upload of the remaining images ends. */
  ghost predicate Ends(env: Env, g: Geometry, s: State, ps: seq<seq<byte>>, t: State)
    requires ps != []
  {
    if ps[|ps| - 1] != []
    then t.phase == Finished && t.payloads == s.payloads + ps && t.cfg == s.cfg && t.hdrs == s.hdrs && Installed(env, g, t)
    else t.phase == Images
  }

  lemma OneLess(env: Env, s: State, t: State, ps: seq<seq<byte>>)
    requires s.Receiving() && |ps| > 1 && Payloads(env, s.hdrs[s.index..], ps) && Continues(s, t, ps[0])
    ensures t.Receiving() && Payloads(env, t.hdrs[t.index..], ps[1..])
    ensures t.payloads + ps[1..] == s.payloads + ps && t.hdrs == s.hdrs && t.cfg == s.cfg
  {
    var hs := s.hdrs[s.index..];
    assert t.hdrs[t.index..] == hs[1..];
    assert ps == [ps[0]] + ps[1..];
  }

  /** After the last image the session ends with the slot installed. */
  lemma UploadEnds(env: Env, g: Geometry, s: State, t: State, p: seq<byte>)
    requires ReceiveInv(env, g, t) && Continues(s, t, p) && s.index + 1 == |s.hdrs| && g.fs1.size <= g.fs2.size
    ensures
      var r := Consume(env, Due(env, t), []);
      r.phase == Finished && r.payloads == s.payloads + [p] && r.cfg == s.cfg && r.hdrs == s.hdrs && Installed(env, g, r)
  {
    hide ReceiveInv, Installed, CopyFileSystem;
    FinishInstalls(env, g, t);
    NothingLeft(env, Due(env, t), []);
  }

  lemma {:induction false} LastIsEmpty(ps: seq<seq<byte>>)
    requires ps != []
    ensures Concat(ps) == [] ==> ps[|ps| - 1] == []
  {
    if |ps| > 1 {
      LastIsEmpty(ps[1..]);
    }
  }

  /** A flash, a configuration and payloads that go together. */
  ghost predicate ValidUpload(env: Env, g: Geometry, s: State, cfg: seq<byte>, ps: seq<seq<byte>>) {
    && s.phase == Config && s.cfg == [] && ConfigInv(env, g, s)
    && |cfg| >= CONFIG_HEAD_LEN && HeadOk(cfg) && |cfg| == ConfigLength(cfg) && SaneConfig(env, cfg)
    && ConfigIntact(env, cfg) && CheckImages(env, cfg, s.space) == Ok
    && Payloads(env, Headers(cfg), ps)
    && Roomy(g, s.(hdrs := Headers(cfg))) && g.fs1.size <= g.fs2.size
  }

  /**
   A valid upload is installed exactly when its last image is not empty: a trailing empty image is
   never reached, because no byte is left to reach it with.
   */
  lemma UploadCompletesExactlyWhen(env: Env, f: seq<byte>, g: Geometry, cfg: seq<byte>, ps: seq<seq<byte>>)
    requires ValidUpload(env, g, Begin(env, f), cfg, ps)
    ensures
      var t := Consume(env, Begin(env, f), cfg + Concat(ps));
      && (t.phase == Finished <==> ps[|ps| - 1] != [])
      && (t.phase == Finished ==> t.payloads == ps && t.cfg == cfg && t.hdrs == Headers(cfg) && Installed(env, g, t))
      && (t.phase != Finished ==> t.phase == Images)
  {
    hide Begin, ConfigInv, SaneConfig, ReceiveInv, Installed, Consume, ConfigIntact, CheckImages, HeadOk, ConfigLength,
      Described, Step, Roomy, Headers, ConfigCount, ConfigFormat, ConfigChecked;
    var s := Begin(env, f);
    LengthAboveHead(cfg);
    assert s.cfg + cfg == cfg;
    ConsumeAppend(env, s, cfg, Concat(ps));
    ConfigPieceIsItsBytes(env, s, cfg);
    var c := s.(cfg := cfg);
    ConfigInvIgnoresBytes(env, g, s, c);
    ConfigDoneKeeps(env, g, c);
    var t := ConfigDone(env, c);
    ConfigFields(env, g, s);
    HeadersNotEmpty(cfg);
    assert t.hdrs[0..] == t.hdrs;
    assert Roomy(g, t) by { RoomySame(g, s.(hdrs := Headers(cfg)), t); }
    RestOfUpload(env, g, t, ps);
  }

  lemma ConfigFields(env: Env, g: Geometry, s: State)
    requires ConfigInv(env, g, s)
    ensures s.index == 0 && s.open == None && s.payloads == []
  {
    hide HoldsTable, HiddenTable;
  }

  lemma HeadersNotEmpty(cfg: seq<byte>)
    requires HeadOk(cfg)
    ensures 0 < |Headers(cfg)|
  {
  }

  lemma RoomySame(g: Geometry, s: State, t: State)
    requires Roomy(g, s) && t.hidden == s.hidden && t.hdrs == s.hdrs
    ensures Roomy(g, t)
  {
  }

  lemma {:induction false} LastSblDecides(hs: seq<Header>, k: nat)
    requires k < |hs| && hs[k].id == SBL_IMG_ID && forall j :: k < j < |hs| ==> hs[j].id != SBL_IMG_ID
    ensures SblDisk(hs) == hs[k].disk
    decreases |hs|
  {
    if k < |hs| - 1 {
      LastSblDecides(hs[..|hs| - 1], k);
    }
  }

  /** What the space check does not see: with two SBL images, only the size of the last one counts. */
  lemma EarlierSblUnchecked(first: Header, last: Header, sbl: Extent)
    requires first.id == last.id == SBL_IMG_ID && first.disk > sbl.size >= last.disk
    ensures SblDisk([first, last]) <= sbl.size < [first, last][0].disk
  {
    LastSblDecides([first, last], 1);
  }

  /**
   Once installed, the slot lists exactly as many images as its header says: the hidden ones and the downloaded ones, these with
   the configured ids, versions and sizes.  An SBL lies in the area the boot loader keeps for it; the last one ends inside.
   */
  lemma InstalledTableIsComplete(env: Env, g: Geometry, s: State)
    requires Installed(env, g, s)
    ensures |s.table| == SlotAt(s.flash, s.trial).total == |HiddenTable(env, g.base)| + |s.hdrs|
    ensures s.table[..s.hidden] == HiddenTable(env, g.base)
    ensures
      forall k :: 0 <= k < |s.hdrs| ==>
        var h, e := s.hdrs[k], s.table[s.hidden + k];
        && e.id == h.id && e.version == h.version
        && (h.id == FS1_IMG_ID ==> e.Extent() == g.fs2 && h.disk <= e.size)
        && (h.id != FS1_IMG_ID ==> e.size == h.disk)
        && (h.id == SBL_IMG_ID ==> env.sbl.Some? && e.start == env.sbl.value.start)
        && (h.id == SBL_IMG_ID && (forall j :: k < j < |s.hdrs| ==> s.hdrs[j].id != SBL_IMG_ID) ==>
              e.End() <= env.sbl.value.start + env.sbl.value.size)
  {
    hide HiddenTable, Find, SlotAt, Ordered, Frame, FsCopied, GeometryOk, EntryAt, Stored, ConfigCount, ConfigChecked, SblDisk, SaneHeader;
    forall k | 0 <= k < |s.hdrs|
      ensures
        var h, e := s.hdrs[k], s.table[s.hidden + k];
        && e.id == h.id && e.version == h.version
        && (h.id == FS1_IMG_ID ==> e.Extent() == g.fs2 && h.disk <= e.size)
        && (h.id != FS1_IMG_ID ==> e.size == h.disk)
        && (h.id == SBL_IMG_ID ==> env.sbl.Some? && e.start == env.sbl.value.start)
        && (h.id == SBL_IMG_ID && (forall j :: k < j < |s.hdrs| ==> s.hdrs[j].id != SBL_IMG_ID) ==>
              e.End() <= env.sbl.value.start + env.sbl.value.size)
    {
      var h := s.hdrs[k];
      assert Done(env, g, h, s.table[s.hidden + k], s.payloads[k], s.cursor, s.flash);
      if h.id == SBL_IMG_ID && forall j :: k < j < |s.hdrs| ==> s.hdrs[j].id != SBL_IMG_ID {
        LastSblDecides(s.hdrs, k);
      }
    }
  }
}
