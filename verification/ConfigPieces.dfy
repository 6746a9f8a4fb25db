/** The configuration as the session sees it: collected in pieces, then checked header by header. */
module ConfigPieces {
  import opened Bytes
  import opened NorFlash
  import opened Descriptor
  import opened SlotSelection
  import opened UpgradeMem
  import opened UpgradeSpec
  import opened PacketBoundaries
  import opened SessionInvariant
  import opened ImageInvariant
  import opened Completion

  /** What a session makes of a whole packet: the first one must hold the fixed head of the configuration. */
  function Fed(env: Env, s: State, data: seq<byte>): State {
    if s.phase == Config && |s.cfg + data| < CONFIG_HEAD_LEN then s.Fail(IncorrectImageHdr) else Consume(env, s, data)
  }

  /** How much of a packet belongs to the configuration of which `have` bytes have been collected. */
  function PieceLength(have: nat, packet: nat, length: nat): (n: nat)
    ensures n <= packet
  {
    if length <= have then 0 else if packet < length - have then packet else length - have
  }

  /** A packet with a bad head fails the session; otherwise it extends the configuration or completes it. */
  lemma PieceFacts(env: Env, g: Geometry, s: State, data: seq<byte>)
    requires SessionInv(env, g, s) && s.phase == Config && data != [] && SaneStream(env, s.cfg + data)
    requires if s.cfg == [] then |data| >= CONFIG_HEAD_LEN else |s.cfg| >= CONFIG_HEAD_LEN
    ensures !HeadOk(s.cfg + data) ==> s.cfg == [] && Consume(env, s, data) == s.(cfg := data[..CONFIG_HEAD_LEN]).Fail(IncorrectImageHdr)
    ensures s.cfg != [] ==> HeadOk(s.cfg) && ConfigLength(s.cfg) == ConfigLength(s.cfg + data)
    ensures HeadOk(s.cfg + data) ==> |s.cfg| < ConfigLength(s.cfg + data)
    ensures HeadOk(s.cfg + data) ==> PieceTaken(env, g, s, data, PieceLength(|s.cfg|, |data|, ConfigLength(s.cfg + data)))
  {
    hide HeadOk, ConfigLength, ConfigDone, ConfigInv, SaneConfig, SaneStream;
    var c := s.cfg + data;
    if s.cfg == [] {
      assert c == data;
      if !HeadOk(c) {
        BadHeadFails(env, s, data);
      } else {
        LengthAboveHead(c);
      }
    } else {
      HeadOfPrefix(c, |s.cfg|);
      assert c[..|s.cfg|] == s.cfg;
    }
    if HeadOk(c) {
      TakePiece(env, g, s, data);
    }
  }

  /** The first `n` bytes of the packet have been taken into the configuration. */
  ghost predicate PieceTaken(env: Env, g: Geometry, s: State, data: seq<byte>, n: nat)
    requires n <= |data|
  {
    var t := s.(cfg := s.cfg + data[..n]);
    && 0 < n && |t.cfg| >= CONFIG_HEAD_LEN && HeadOk(t.cfg) && ConfigInv(env, g, t)
    && ConfigLength(t.cfg) == ConfigLength(s.cfg + data)
    && (|s.cfg + data| < ConfigLength(s.cfg + data) ==>
          n == |data| && Consume(env, s, data) == t && SessionInv(env, g, t))
    && (|s.cfg + data| >= ConfigLength(s.cfg + data) ==>
          && |t.cfg| == ConfigLength(t.cfg) && SaneConfig(env, t.cfg)
          && Consume(env, s, data) == Consume(env, ConfigDone(env, t), data[n..]))
  }

  lemma TakePiece(env: Env, g: Geometry, s: State, data: seq<byte>)
    requires SessionInv(env, g, s) && s.phase == Config && data != [] && SaneStream(env, s.cfg + data)
    requires |s.cfg + data| >= CONFIG_HEAD_LEN && HeadOk(s.cfg + data) && |s.cfg| < ConfigLength(s.cfg + data)
    ensures PieceTaken(env, g, s, data, PieceLength(|s.cfg|, |data|, ConfigLength(s.cfg + data)))
  {
    hide HeadOk, ConfigLength, ConfigDone, ConfigInv, SaneConfig;
    var c := s.cfg + data;
    var n := PieceLength(|s.cfg|, |data|, ConfigLength(c));
    var w, rest := data[..n], data[n..];
    assert data == w + rest && c[..|s.cfg| + n] == s.cfg + w;
    LengthAboveHead(c);
    HeadOfPrefix(c, |s.cfg| + n);
    ConsumeAppend(env, s, w, rest);
    ConfigPieceIsItsBytes(env, s, w);
    ConfigInvIgnoresBytes(env, g, s, s.(cfg := s.cfg + w));
    if |c| < ConfigLength(c) {
      assert w == data;
    }
  }

  // Checking the image headers

  /** What the header loop adds up. */
  datatype Tally = Tally(disk: uint32, length: uint32, sblDisk: uint32, sbl: bool, app: bool)

  function Tallied(t: Tally, h: Header): Tally {
    Tally(
      if Counted(h) then U32(t.disk + h.disk) else t.disk, if Counted(h) then U32(t.length + h.length) else t.length,
      if h.id == SBL_IMG_ID then h.disk else t.sblDisk, t.sbl || h.id == SBL_IMG_ID, t.app || h.id == APP_IMG_ID)
  }

  function TallyUpTo(hs: seq<Header>, i: nat): Tally
    requires i <= |hs|
  {
    if i == 0 then Tally(0, 0, 0, false, false) else Tallied(TallyUpTo(hs, i - 1), hs[i - 1])
  }

  /** The loop's running sums are those of the space check, although taken from the other end. */
  lemma {:induction false} TallyIsSums(hs: seq<Header>, i: nat)
    requires i <= |hs|
    ensures
      var t := TallyUpTo(hs, i);
      && U32(t.disk + DiskSum(hs[i..])) == DiskSum(hs) && U32(t.length + LengthSum(hs[i..])) == LengthSum(hs)
      && t.sblDisk == SblDisk(hs[..i]) && t.sbl == HasImage(hs[..i], SBL_IMG_ID) && t.app == HasImage(hs[..i], APP_IMG_ID)
  {
    hide DiskSum, LengthSum, SblDisk, U32, HasImage;
    if i == 0 {
      assert hs[0..] == hs && hs[..0] == [];
      EmptySums(DiskSum(hs), LengthSum(hs));
    } else {
      TallyIsSums(hs, i - 1);
      SumsStep(hs, i - 1);
      var t := TallyUpTo(hs, i - 1);
      SumStep(t.disk, hs[i - 1].disk, DiskSum(hs[i..]));
      SumStep(t.length, hs[i - 1].length, LengthSum(hs[i..]));
    }
  }

  lemma EmptySums(disk: uint32, length: uint32)
    ensures U32(0 + disk) == disk && U32(0 + length) == length
    ensures SblDisk([]) == 0 && !HasImage([], SBL_IMG_ID) && !HasImage([], APP_IMG_ID)
  {
  }

  /** 32-bit sums can be taken from either end. */
  lemma SumStep(acc: uint32, d: uint32, rest: uint32)
    ensures U32(acc + U32(d + rest)) == U32(U32(acc + d) + rest)
  {
  }

  lemma SumsStep(hs: seq<Header>, i: nat)
    requires i < |hs|
    ensures DiskSum(hs[i..]) == if Counted(hs[i]) then U32(hs[i].disk + DiskSum(hs[i + 1..])) else DiskSum(hs[i + 1..])
    ensures LengthSum(hs[i..]) == if Counted(hs[i]) then U32(hs[i].length + LengthSum(hs[i + 1..])) else LengthSum(hs[i + 1..])
    ensures SblDisk(hs[..i + 1]) == if hs[i].id == SBL_IMG_ID then hs[i].disk else SblDisk(hs[..i])
    ensures HasImage(hs[..i + 1], SBL_IMG_ID) == (HasImage(hs[..i], SBL_IMG_ID) || hs[i].id == SBL_IMG_ID)
    ensures HasImage(hs[..i + 1], APP_IMG_ID) == (HasImage(hs[..i], APP_IMG_ID) || hs[i].id == APP_IMG_ID)
  {
    assert hs[i..][0] == hs[i] && hs[i..][1..] == hs[i + 1..];
    assert hs[..i + 1][..i] == hs[..i] && hs[..i + 1][i] == hs[i];
    forall id | HasImage(hs[..i], id)
      ensures HasImage(hs[..i + 1], id)
    {
      var k :| 0 <= k < i && hs[..i][k].id == id;
      assert hs[..i + 1][k].id == id;
    }
  }

  function Verdict(t: Tally, space: nat, sbl: Option<Extent>): Code {
    if t.sbl && !t.app then SblOnlyNotSupport
    else if t.disk > space then FlashNotEnoughSpace
    else if t.length > t.disk then IncorrectImageHdr
    else if sbl == None then SblNotSupportUpgrade
    else if t.sblDisk > sbl.value.size then SblNotEnoughSpace
    else Ok
  }

  /** The verdict on the headers, from the sums of the loop. */
  lemma VerdictFromTally(env: Env, cfg: seq<byte>, space: nat)
    requires forall k :: 0 <= k < ConfigCount(cfg) ==> HeaderOk(RawHeader(cfg, k))
    ensures CheckImages(env, cfg, space) == Verdict(TallyUpTo(Headers(cfg), |Headers(cfg)|), space, env.sbl)
  {
    hide RawHeader, RoundedDisk, HeaderOk, ConfigCount, U32, SblDisk, HasImage;
    var hs := Headers(cfg);
    TallyIsSums(hs, |hs|);
    assert hs[..|hs|] == hs && hs[|hs|..] == [];
    SumsOfNothing(TallyUpTo(hs, |hs|));
  }

  lemma SumsOfNothing(t: Tally)
    ensures U32(t.disk + DiskSum([])) == t.disk && U32(t.length + LengthSum([])) == t.length
  {
  }
}
