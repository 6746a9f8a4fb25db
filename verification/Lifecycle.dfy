/** The life of the slots over any history of upgrades, reboots, acceptances and rejections. */
module Lifecycle {
  import opened Bytes
  import opened NorFlash
  import opened Descriptor
  import opened SlotSelection
  import opened UpgradeMem

  /** The slot headers, the running slot, how it was booted, and the slot an open session writes. */
  datatype System = System(mode: Mode, slots: seq<Slot>, active: nat, boot: BootType, writing: Option<nat>)

  /**
   One event.  `Interrupted` acceptances and rejections are those cut off between their two writes, torn ones those cut
   off while writing the rank, of which `rank` is then what can be read; an interrupted session either
   simply stops describing its slot, or leaves any header in it that does not
   read as valid.
   */
  datatype Action =
    | BeginUpgrade
    | Describe(magic: uint32, total: byte)
    | Commit
    | Abandon
    | Torn(header: Slot)
    | Accept
    | AcceptInterrupted
    | AcceptTorn(rank: uint32)
    | Reject
    | RejectInterrupted
    | RejectTorn(rank: uint32)
    | Reboot(fwd: nat)

  const ERASED_SLOT := Slot(0xFFFF_FFFF, RANK_TRIAL, 0xFF, 0xFF)

  function ScanOf(s: System): Scan
    requires |s.slots| == MAX_FWD
  {
    ScanSlots(s.mode, s.slots)
  }

  function BootTypeOf(s: Slot): BootType {
    if s.rank == RANK_TRIAL then BootTrial else if s.rank == RANK_GOLDEN then BootGolden else BootCurrent
  }

  /** What an event does to the slots; events that the code refuses change nothing. */
  function Next(s: System, a: Action): (t: System)
    requires |s.slots| == MAX_FWD
    ensures |t.slots| == MAX_FWD && t.mode == s.mode
  {
    match a
    case BeginUpgrade =>
      var target := UpgradeTarget(s.mode, ScanOf(s).current);
      if target == s.active then s
      else s.(slots := s.slots[target := ERASED_SLOT], writing := Some(target))
    case Describe(magic, total) =>
      if s.writing.Some? && s.writing.value < MAX_FWD then
        var t := s.writing.value;
        s.(slots := s.slots[t := s.slots[t].(magic := magic, total := total)])
      else s
    case Commit =>
      if s.writing.Some? && s.writing.value < MAX_FWD then
        var t := s.writing.value;
        s.(slots := s.slots[t := s.slots[t].(status := STATUS_VALID)], writing := None)
      else s
    case Abandon => s.(writing := None)
    case Torn(header) =>
      if s.writing.Some? && s.writing.value < MAX_FWD && header.status != STATUS_VALID then
        s.(slots := s.slots[s.writing.value := header], writing := None)
      else s
    case Accept =>
      if !MayAccept(s) then s
      else if s.mode == TwoSlots || ScanOf(s).current != 0 then Retire(Promote(s), ScanOf(s).current)
      else Promote(s)
    case AcceptInterrupted => if !MayAccept(s) then s else Promote(s)
    case AcceptTorn(rank) => if !MayAccept(s) || !TornWord(rank, NewRank(s)) then s else Ranked(s, rank)
    case Reject => Dismiss(s, 1)
    case RejectInterrupted => Retire(s, ScanOf(s).trial)
    case RejectTorn(rank) => if !TornWord(rank, 1) then s else Dismiss(s, rank)
    case Reboot(fwd) =>
      if fwd < MAX_FWD && s.slots[fwd].Bootable()
      then s.(active := fwd, boot := BootTypeOf(s.slots[fwd]), writing := None)
      else s
  }

  predicate MayAccept(s: System)
    requires |s.slots| == MAX_FWD
  {
    ScanOf(s).trial < MAX_FWD && s.boot == BootTrial
  }

  /** The rank an accepted slot is given. */
  function NewRank(s: System): uint32
    requires |s.slots| == MAX_FWD
  {
    U32(ScanOf(s).rank + 1)
  }

  function Ranked(s: System, rank: uint32): System
    requires |s.slots| == MAX_FWD && MayAccept(s)
  {
    var t := ScanOf(s).trial;
    s.(slots := s.slots[t := s.slots[t].(rank := rank)])
  }

  function Promote(s: System): System
    requires |s.slots| == MAX_FWD && MayAccept(s)
  {
    Ranked(s, NewRank(s))
  }

  function Dismiss(s: System, rank: uint32): System
    requires |s.slots| == MAX_FWD
  {
    var t := ScanOf(s).trial;
    if t < MAX_FWD then s.(slots := s.slots[t := s.slots[t].(status := STATUS_INVALID, rank := rank)]) else s
  }

  function Retire(s: System, fwd: nat): System
    requires |s.slots| == MAX_FWD
  {
    if fwd < MAX_FWD then s.(slots := s.slots[fwd := s.slots[fwd].(status := STATUS_INVALID)]) else s
  }

  /** Ranks leave room for one more acceptance. */
  predicate RoomForRank(s: System)
    requires |s.slots| == MAX_FWD
  {
    ScanOf(s).rank < 0xFFFF_FFFE
  }

  /** A slot the device can always fall back to: golden, or bootable, accepted and of positive rank. */
  ghost predicate Fallback(s: System)
    requires |s.slots| == MAX_FWD
  {
    match s.mode
    case GoldenPlusTwo => s.slots[0].Bootable() && s.slots[0].rank == RANK_GOLDEN
    case TwoSlots => exists c :: 0 <= c < 2 && s.slots[c].Bootable() && 0 < s.slots[c].rank != RANK_TRIAL
  }

  /** The slot being written is not bootable, not running and not the fallback. */
  ghost predicate Inv(s: System) {
    && |s.slots| == MAX_FWD
    && Fallback(s)
    && (s.writing.Some? ==>
          && s.writing.value < MAX_FWD && s.writing.value != s.active
          && s.slots[s.writing.value].status == 0xFF && s.slots[s.writing.value].rank == RANK_TRIAL
          && (if s.mode == TwoSlots then s.writing.value < 2 else s.writing.value != 0))
  }

  /** The fallback slot is what the scan calls current. */
  lemma CurrentIsFallback(s: System)
    requires |s.slots| == MAX_FWD && s.mode == TwoSlots && Fallback(s)
    ensures
      var r := ScanOf(s);
      r.current < 2 && s.slots[r.current].Bootable() && 0 < s.slots[r.current].rank == r.rank != RANK_TRIAL
  {
    CurrentHasHighestRank(s.mode, s.slots);
  }

  /** With two slots, a rank beyond the last one makes the accepted slot a trial one again while the other is retired. */
  predicate RunsOut(s: System, a: Action)
    requires |s.slots| == MAX_FWD
  {
    a == Accept && s.mode == TwoSlots && !RoomForRank(s)
  }

  /** No event loses the fallback, as long as ranks do not run out; a rank that is torn cannot. */
  lemma NextKeepsInv(s: System, a: Action)
    requires Inv(s) && !RunsOut(s, a)
    ensures Inv(Next(s, a))
  {
    hide ScanSlots, TornWord;
    var t := Next(s, a);
    CurrentHasHighestRank(s.mode, s.slots);
    if s.mode == TwoSlots {
      CurrentIsFallback(s);
      var c := ScanOf(s).current;
      match a
      case Accept =>
        if MayAccept(s) {
          assert t.slots[ScanOf(s).trial].Bootable();
        }
      case _ =>
        assert t.slots[c] == s.slots[c];
    }
  }

  /** Events applied one after the other. */
  function Run(s: System, events: seq<Action>): (t: System)
    requires |s.slots| == MAX_FWD
    ensures |t.slots| == MAX_FWD && t.mode == s.mode
    decreases |events|
  {
    if events == [] then s else Run(Next(s, events[0]), events[1..])
  }

  /** With two slots, every acceptance carried through in the run finds room for its rank. */
  predicate RanksSuffice(s: System, events: seq<Action>)
    requires |s.slots| == MAX_FWD
    decreases |events|
  {
    events == [] || (!RunsOut(s, events[0]) && RanksSuffice(Next(s, events[0]), events[1..]))
  }

  lemma {:induction false} RunAppend(s: System, a: seq<Action>, b: seq<Action>)
    requires |s.slots| == MAX_FWD
    ensures Run(s, a + b) == Run(Run(s, a), b)
    ensures RanksSuffice(s, a + b) <==> RanksSuffice(s, a) && RanksSuffice(Run(s, a), b)
    decreases |a|
  {
    hide Next;
    if a == [] {
      assert a + b == b;
    } else {
      assert (a + b)[0] == a[0] && (a + b)[1..] == a[1..] + b;
      RunAppend(Next(s, a[0]), a[1..], b);
    }
  }

  lemma {:induction false} RanksTakenAppend(a: seq<Action>, b: seq<Action>)
    ensures RanksTaken(a + b) == RanksTaken(a) + RanksTaken(b)
  {
    if a == [] {
      assert a + b == b;
    } else {
      assert (a + b)[0] == a[0] && (a + b)[1..] == a[1..] + b;
      RanksTakenAppend(a[1..], b);
    }
  }

  lemma {:induction false} NeverRewritesAppend(s: System, a: seq<Action>, b: seq<Action>, fwd: nat)
    requires |s.slots| == MAX_FWD && NeverRewrites(s, a, fwd) && NeverRewrites(Run(s, a), b, fwd)
    ensures NeverRewrites(s, a + b, fwd)
    decreases |a|
  {
    hide Next;
    if a == [] {
      assert a + b == b;
    } else {
      assert (a + b)[0] == a[0] && (a + b)[1..] == a[1..] + b;
      NeverRewritesAppend(Next(s, a[0]), a[1..], b, fwd);
    }
  }

  /** Only the beginning of a session turns to another slot. */
  lemma {:induction false} OnlyBeginTurns(s: System, events: seq<Action>, fwd: nat)
    requires |s.slots| == MAX_FWD && s.writing != Some(fwd) && forall k :: 0 <= k < |events| ==> events[k] != BeginUpgrade
    ensures NeverRewrites(s, events, fwd)
    decreases |events|
  {
    if events != [] {
      assert Next(s, events[0]).writing != Some(fwd) by { hide ScanSlots; }
      OnlyBeginTurns(Next(s, events[0]), events[1..], fwd);
    }
  }

  /** Over any history there is always a slot to fall back to. */
  lemma {:induction false} FallbackAlways(s: System, events: seq<Action>)
    requires Inv(s) && RanksSuffice(s, events)
    ensures Inv(Run(s, events)) && Fallback(Run(s, events))
    decreases |events|
  {
    if events != [] {
      NextKeepsInv(s, events[0]);
      FallbackAlways(Next(s, events[0]), events[1..]);
    }
  }

  /** The golden slot and the running slot are never rewritten: golden keeps its header, and the running
      slot at most changes rank or status. */
  lemma NextSpares(s: System, a: Action)
    requires Inv(s)
    ensures s.mode == GoldenPlusTwo ==> Next(s, a).slots[0] == s.slots[0]
    ensures
      s.active < MAX_FWD ==>
        var before, after := s.slots[s.active], Next(s, a).slots[s.active];
        after == before.(rank := after.rank, status := after.status)
  {
    hide ScanSlots;
    CurrentHasHighestRank(s.mode, s.slots);
  }

  lemma {:induction false} GoldenForever(s: System, events: seq<Action>)
    requires Inv(s) && s.mode == GoldenPlusTwo
    ensures Run(s, events).slots[0] == s.slots[0] && Inv(Run(s, events))
    decreases |events|
  {
    if events != [] {
      NextSpares(s, events[0]);
      NextKeepsInv(s, events[0]);
      GoldenForever(Next(s, events[0]), events[1..]);
    }
  }

  /** The event writes `rank`, which is not torn away entirely, to the accepted slot. */
  predicate WritesRank(s: System, a: Action, rank: uint32)
    requires |s.slots| == MAX_FWD
  {
    if a.AcceptTorn? then rank == a.rank != RANK_TRIAL && TornWord(rank, NewRank(s))
    else (a == Accept || a == AcceptInterrupted) && rank == NewRank(s)
  }

  /** The accepted slot outranks every other bootable slot that is not on trial, even with whatever part of its rank. */
  lemma AcceptedOutranks(s: System, a: Action, rank: uint32)
    requires Inv(s) && MayAccept(s) && RoomForRank(s) && WritesRank(s, a, rank)
    ensures ScanOf(Next(s, a)).rank == rank
    ensures
      var winner, t := ScanOf(s).trial, Next(s, a);
      && t.slots[winner].Bootable() && t.slots[winner].rank != RANK_TRIAL
      && ScanOf(t).current == winner
      && forall i :: 0 <= i < MAX_FWD && i != winner && t.slots[i].Bootable() && t.slots[i].rank != RANK_TRIAL
                     && (s.mode == TwoSlots ==> i < 2)
                     ==> t.slots[i].rank < t.slots[winner].rank
  {
    hide ScanSlots, TornWord;
    var t := Next(s, a);
    CurrentHasHighestRank(s.mode, s.slots);
    CurrentHasHighestRank(t.mode, t.slots);
    if a.AcceptTorn? {
      TornWordIsLarger(rank, NewRank(s));
    }
    assert t.slots[ScanOf(s).trial].Bootable() && t.slots[ScanOf(s).trial].rank == rank > ScanOf(s).rank;
  }

  /** A slot that does not boot is neither current nor on trial. */
  lemma UnbootableIsNotChosen(s: System, fwd: nat)
    requires Inv(s) && fwd < MAX_FWD && !s.slots[fwd].Bootable()
    ensures ScanOf(s).trial != fwd && ScanOf(s).current != fwd
  {
    hide ScanSlots;
    CurrentHasHighestRank(s.mode, s.slots);
    if s.mode == TwoSlots {
      CurrentIsFallback(s);
    }
  }

  /** Rejecting leaves the trial slot unbootable, even when cut off halfway. */
  lemma RejectedDoesNotBoot(s: System, a: Action)
    requires Inv(s) && ScanOf(s).trial < MAX_FWD
    requires a == Reject || a == RejectInterrupted || (a.RejectTorn? && TornWord(a.rank, 1))
    ensures !Next(s, a).slots[ScanOf(s).trial].Bootable()
  {
  }

  /** The run does not start rewriting slot `fwd`. */
  predicate NeverRewrites(s: System, events: seq<Action>, fwd: nat)
    requires |s.slots| == MAX_FWD
    decreases |events|
  {
    s.writing != Some(fwd) && (events == [] || NeverRewrites(Next(s, events[0]), events[1..], fwd))
  }

  /** A retired or rejected slot stays out of the choice until an upgrade rewrites it. */
  lemma {:induction false} StaysOutUntilRewritten(s: System, events: seq<Action>, fwd: nat)
    requires Inv(s) && RanksSuffice(s, events) && fwd < MAX_FWD && !s.slots[fwd].Bootable()
    requires NeverRewrites(s, events, fwd)
    ensures !Run(s, events).slots[fwd].Bootable()
    ensures ScanOf(Run(s, events)).trial != fwd && ScanOf(Run(s, events)).current != fwd
    decreases |events|
  {
    hide ScanSlots;
    UnbootableIsNotChosen(s, fwd);
    if events != [] {
      NextKeepsInv(s, events[0]);
      assert !Next(s, events[0]).slots[fwd].Bootable();
      StaysOutUntilRewritten(Next(s, events[0]), events[1..], fwd);
    }
  }

  /** What can go wrong: two slots, no accepted one, and the one on trial in slot 0. */
  lemma AcceptingWithoutCurrentLosesEverything()
    ensures
      var onTrial := Slot(MAGIC_V1, RANK_TRIAL, STATUS_VALID, 3);
      var s := System(TwoSlots, [onTrial, ERASED_SLOT, ERASED_SLOT], 0, BootTrial, None);
      MayAccept(s) && !Next(s, Accept).slots[0].Bootable() && !Next(s, Accept).slots[1].Bootable()
  {
  }

  /** With two slots, acceptance leaves a slot to fall back to exactly when the slot it retires is
      another one and there is room for the new rank. */
  lemma AcceptKeepsFallbackExactlyWhen(s: System)
    requires |s.slots| == MAX_FWD && s.mode == TwoSlots && MayAccept(s)
    ensures Fallback(Next(s, Accept)) <==> ScanOf(s).current != ScanOf(s).trial && RoomForRank(s)
  {
    hide ScanSlots;
    var t := Next(s, Accept);
    CurrentHasHighestRank(s.mode, s.slots);
    if ScanOf(s).current != ScanOf(s).trial && RoomForRank(s) {
      assert t.slots[ScanOf(s).trial].Bootable();
    }
  }

  // How long the ranks last

  /** A rank cut off in the middle leaves no room for another one exactly when the lowest byte of the whole rank is the largest
      a rank may end in. */
  lemma TornRankExhaustsExactlyWhen(s: System)
    requires Inv(s) && MayAccept(s) && RoomForRank(s)
    ensures
      (exists rank: uint32 :: TornWord(rank, NewRank(s)) && !RoomForRank(Next(s, AcceptTorn(rank))))
      <==> NewRank(s) % 0x100 == 0xFE
  {
    hide ScanSlots, Next, Le32;
    var v := NewRank(s);
    LastRank(v);
    if v % 0x100 == 0xFE {
      AcceptedOutranks(s, AcceptTorn(0xFFFF_FFFE), 0xFFFF_FFFE);
      assert !RoomForRank(Next(s, AcceptTorn(0xFFFF_FFFE)));
    } else {
      forall rank: uint32 | TornWord(rank, v)
        ensures RoomForRank(Next(s, AcceptTorn(rank)))
      {
        if rank == RANK_TRIAL {
          NothingWritten(s);
        } else {
          AcceptedOutranks(s, AcceptTorn(rank), rank);
        }
      }
    }
  }

  lemma LastRank(v: uint32)
    ensures TornWord(0xFFFF_FFFE, v) <==> v % 0x100 == 0xFE
  {
    var last: uint32 := 0xFFFF_FFFE;
    assert Le32(last) == [0xFE, 0xFF, 0xFF, 0xFF] && Le32(v)[0] == v % 0x100;
    if TornWord(last, v) {
      assert Le32(last)[0] == Le32(v)[0];
    }
  }

  lemma NothingWritten(s: System)
    requires Inv(s) && MayAccept(s)
    ensures Next(s, AcceptTorn(RANK_TRIAL)) == s
  {
    hide ScanSlots, TornWord;
    CurrentHasHighestRank(s.mode, s.slots);
  }

  /** Two slots, the third one being erased. */
  function Pair(a: Slot, b: Slot, active: nat, boot: BootType, writing: Option<nat>): System {
    System(TwoSlots, [a, b, ERASED_SLOT], active, boot, writing)
  }

  const ON_TRIAL := Slot(MAGIC_V1, RANK_TRIAL, STATUS_VALID, 1)

  /** Then the next acceptance makes the accepted slot a trial one again while the other one is retired: none is left to fall
      back to, and once it is rejected nothing boots. */
  lemma TornRankLosesEverything(current: Slot)
    requires current.Bootable() && current.rank == 0xFD
    ensures
      var s := Pair(current, ON_TRIAL, 1, BootTrial, None);
      var events := [AcceptTorn(0xFFFF_FFFE), Reboot(1), BeginUpgrade, Describe(MAGIC_V1, 1), Commit, Reboot(0), Accept];
      && Inv(s)
      && !Fallback(Run(s, events))
      && forall i :: 0 <= i < MAX_FWD ==> !Next(Run(s, events), Reject).slots[i].Bootable()
  {
    hide TornWord, Next, Run, Inv, Fallback;
    var events := [AcceptTorn(0xFFFF_FFFE), Reboot(1), BeginUpgrade, Describe(MAGIC_V1, 1), Commit, Reboot(0), Accept];
    var torn := ON_TRIAL.(rank := 0xFFFF_FFFE);
    RankIsTorn(current);
    SlotIsRewritten(torn);
    UpgradeFrom(current, torn);
    SevenEvents(Pair(current, ON_TRIAL, 1, BootTrial, None), events);
    LastOneRetired(torn);
  }

  lemma RankIsTorn(current: Slot)
    requires current.Bootable() && current.rank == 0xFD
    ensures
      var s, torn := Pair(current, ON_TRIAL, 1, BootTrial, None), ON_TRIAL.(rank := 0xFFFF_FFFE);
      && Inv(s)
      && Next(Next(s, AcceptTorn(0xFFFF_FFFE)), Reboot(1)) == Pair(current, torn, 1, BootCurrent, None)
  {
    hide TornWord;
    LastRank(0xFE);
    var s, torn := Pair(current, ON_TRIAL, 1, BootTrial, None), ON_TRIAL.(rank := 0xFFFF_FFFE);
    assert s.slots[0] == current;
    assert ScanOf(s) == Scan(1, 0, 0xFD);
    assert Next(s, AcceptTorn(0xFFFF_FFFE)) == Pair(current, torn, 1, BootTrial, None);
  }

  lemma UpgradeFrom(current: Slot, running: Slot)
    requires running.Bootable() && running.rank == 0xFFFF_FFFE && current.rank < running.rank
    ensures Next(Pair(current, running, 1, BootCurrent, None), BeginUpgrade) == Pair(ERASED_SLOT, running, 1, BootCurrent, Some(0))
  {
    assert ScanOf(Pair(current, running, 1, BootCurrent, None)).current == 1;
  }

  lemma SlotIsRewritten(running: Slot)
    ensures
      var s := Pair(ERASED_SLOT, running, 1, BootCurrent, Some(0));
      Next(Next(Next(s, Describe(MAGIC_V1, 1)), Commit), Reboot(0)) == Pair(ON_TRIAL, running, 0, BootTrial, None)
  {
    var s := Pair(ERASED_SLOT, running, 1, BootCurrent, Some(0));
    var described := ERASED_SLOT.(magic := MAGIC_V1, total := 1);
    assert Next(s, Describe(MAGIC_V1, 1)) == Pair(described, running, 1, BootCurrent, Some(0));
    assert Next(Next(s, Describe(MAGIC_V1, 1)), Commit) == Pair(ON_TRIAL, running, 1, BootCurrent, None);
  }

  lemma LastOneRetired(torn: Slot)
    requires torn.Bootable() && torn.rank == 0xFFFF_FFFE
    ensures
      var t := Next(Pair(ON_TRIAL, torn, 0, BootTrial, None), Accept);
      !Fallback(t) && forall i :: 0 <= i < MAX_FWD ==> !Next(t, Reject).slots[i].Bootable()
  {
    var s, retired := Pair(ON_TRIAL, torn, 0, BootTrial, None), torn.(status := STATUS_INVALID);
    assert ScanOf(s) == Scan(0, 1, 0xFFFF_FFFE);
    var t := Next(s, Accept);
    assert t == Pair(ON_TRIAL, retired, 0, BootTrial, None);
    assert Next(t, Reject) == Pair(ON_TRIAL.(status := STATUS_INVALID, rank := 1), retired, 0, BootTrial, None);
  }

  lemma SevenEvents(s: System, e: seq<Action>)
    requires |s.slots| == MAX_FWD && |e| == 7
    ensures Run(s, e) == Next(Next(Next(Next(Next(Next(Next(s, e[0]), e[1]), e[2]), e[3]), e[4]), e[5]), e[6])
  {
    hide Next;
    assert Run(s, e) == Run(Next(s, e[0]), e[1..]);
    RunAppend(s, e[..4], e[4..]);
    assert e == e[..4] + e[4..];
    FewEvents(s, e[..4]);
    FewEvents(Run(s, e[..4]), e[4..]);
  }

  lemma FewEvents(s: System, e: seq<Action>)
    requires |s.slots| == MAX_FWD && 3 <= |e| <= 4
    ensures var t := Next(Next(Next(s, e[0]), e[1]), e[2]); Run(s, e) == if |e| == 3 then t else Next(t, e[3])
  {
    hide Next;
    var s1 := Next(s, e[0]);
    var s2 := Next(s1, e[1]);
    var s3 := Next(s2, e[2]);
    assert e[1..][1..] == e[2..] && e[2..][1..] == e[3..];
    assert Run(s, e) == Run(s1, e[1..]) == Run(s2, e[2..]) == Run(s3, e[3..]);
    if |e| == 4 {
      assert Run(s3, e[3..]) == Run(Next(s3, e[3]), []);
    }
  }

  /** The event gives a slot the whole of its rank. */
  predicate TakesRank(a: Action) {
    a == Accept || a == AcceptInterrupted
  }

  function RanksTaken(events: seq<Action>): nat {
    if events == [] then 0 else (if TakesRank(events[0]) then 1 else 0) + RanksTaken(events[1..])
  }

  predicate NoTornAccept(events: seq<Action>) {
    forall k :: 0 <= k < |events| ==> !events[k].AcceptTorn?
  }

  /** Only acceptances raise the top rank, by one each. */
  lemma RankGrows(s: System, a: Action)
    requires Inv(s) && !a.AcceptTorn?
    ensures ScanOf(Next(s, a)).rank <= ScanOf(s).rank + if TakesRank(a) then 1 else 0
  {
    hide ScanSlots, TornWord;
    CurrentHasHighestRank(s.mode, s.slots);
    CurrentHasHighestRank(s.mode, Next(s, a).slots);
  }

  /** Unless one is torn, ranks last for as many acceptances as they leave room for. */
  lemma {:induction false} RanksSufficeWhen(s: System, events: seq<Action>)
    requires Inv(s) && NoTornAccept(events) && ScanOf(s).rank + RanksTaken(events) <= 0xFFFF_FFFE
    ensures RanksSuffice(s, events) && ScanOf(Run(s, events)).rank <= ScanOf(s).rank + RanksTaken(events)
    decreases |events|
  {
    hide ScanSlots, Next;
    if events != [] {
      RankGrows(s, events[0]);
      NextKeepsInv(s, events[0]);
      RanksSufficeWhen(Next(s, events[0]), events[1..]);
    }
  }

  // The flash contents follow the events

  function SystemOf(mode: Mode, f: seq<byte>, active: nat, boot: BootType, writing: Option<nat>): System {
    System(mode, Slots(f), active, boot, writing)
  }

  lemma PromotedIsAcceptInterrupted(mode: Mode, f: seq<byte>, active: nat, boot: BootType, writing: Option<nat>)
    requires CanAccept(mode, boot, f) && MAX_FWD * BLOCK_SIZE <= |f|
    ensures Next(SystemOf(mode, f, active, boot, writing), AcceptInterrupted) == SystemOf(mode, Promoted(mode, f), active, boot, writing)
  {
    hide ScanSlots, SlotAt, Word, Le32, And;
    var r := ScanSlots(mode, Slots(f));
    ScanInRange(mode, f);
    AllOnes(f, InfoAddr(r.trial, Rank));
    var w := U32(r.rank + 1);
    RankProgrammed(f, r.trial, w);
    forall i | 0 <= i < MAX_FWD && i != r.trial
      ensures SlotAt(Promoted(mode, f), i) == SlotAt(f, i)
    {
      OtherSlotsSame(f, Promoted(mode, f), InfoAddr(r.trial, Rank), 4, r.trial, i);
    }
  }

  /** A rank whose writing is cut off is a torn acceptance. */
  lemma TornIsAcceptTorn(mode: Mode, f: seq<byte>, g: seq<byte>, active: nat, boot: BootType, writing: Option<nat>)
    requires CanAccept(mode, boot, f) && MAX_FWD * BLOCK_SIZE <= |f|
    requires var r := ScanSlots(mode, Slots(f)); PartlyWritten(f, g, InfoAddr(r.trial, Rank), Le32(U32(r.rank + 1)))
    ensures
      var trial := ScanSlots(mode, Slots(f)).trial;
      trial < MAX_FWD && Next(SystemOf(mode, f, active, boot, writing), AcceptTorn(SlotAt(g, trial).rank)) == SystemOf(mode, g, active, boot, writing)
  {
    hide ScanSlots, SlotAt, Word, Le32, And, TornWord;
    var r := ScanSlots(mode, Slots(f));
    ScanInRange(mode, f);
    AllOnes(f, InfoAddr(r.trial, Rank));
    RankPartlyProgrammed(f, g, r.trial, U32(r.rank + 1));
    forall i | 0 <= i < MAX_FWD && i != r.trial
      ensures SlotAt(g, i) == SlotAt(f, i)
    {
      OtherSlotsSame(f, g, InfoAddr(r.trial, Rank), 4, r.trial, i);
    }
  }

  /** Clearing a status byte is retiring the slot. */
  lemma ClearedIsRetired(mode: Mode, f: seq<byte>, fwd: nat, active: nat, boot: BootType, writing: Option<nat>)
    requires fwd < MAX_FWD && MAX_FWD * BLOCK_SIZE <= |f|
    ensures
      var g := Programmed(f, InfoAddr(fwd, Status), [STATUS_INVALID]);
      SystemOf(mode, g, active, boot, writing) == Retire(SystemOf(mode, f, active, boot, writing), fwd)
  {
    hide SlotAt, Word, And;
    var g := Programmed(f, InfoAddr(fwd, Status), [STATUS_INVALID]);
    AnythingTakesZero(Cell(f, InfoAddr(fwd, Status)));
    assert SlotAt(f, fwd).status == Cell(f, InfoAddr(fwd, Status)) by { StatusCell(f, fwd); }
    StatusProgrammed(f, fwd, STATUS_INVALID);
    forall i | 0 <= i < MAX_FWD && i != fwd
      ensures SlotAt(g, i) == SlotAt(f, i)
    {
      OtherSlotsSame(f, g, InfoAddr(fwd, Status), 1, fwd, i);
    }
  }

  lemma StatusCell(f: seq<byte>, fwd: nat)
    ensures SlotAt(f, fwd).status == Cell(f, InfoAddr(fwd, Status))
  {
  }

  /** The flash left by an acceptance is the accepted system. */
  lemma AcceptedIsAccept(mode: Mode, f: seq<byte>, active: nat, boot: BootType, writing: Option<nat>)
    requires CanAccept(mode, boot, f) && MAX_FWD * BLOCK_SIZE <= |f|
    ensures Next(SystemOf(mode, f, active, boot, writing), Accept) == SystemOf(mode, Accepted(mode, f), active, boot, writing)
  {
    hide ScanSlots, SlotAt;
    ScanInRange(mode, f);
    PromotedIsAcceptInterrupted(mode, f, active, boot, writing);
    if Retires(mode, f) {
      ClearedIsRetired(mode, Promoted(mode, f), ScanSlots(mode, Slots(f)).current, active, boot, writing);
    }
  }

  lemma DismissedIsRejectInterrupted(mode: Mode, f: seq<byte>, active: nat, boot: BootType, writing: Option<nat>)
    requires CanReject(mode, f) && MAX_FWD * BLOCK_SIZE <= |f|
    ensures Next(SystemOf(mode, f, active, boot, writing), RejectInterrupted) == SystemOf(mode, Dismissed(mode, f), active, boot, writing)
  {
    hide ScanSlots, SlotAt;
    ScanInRange(mode, f);
    ClearedIsRetired(mode, f, ScanSlots(mode, Slots(f)).trial, active, boot, writing);
  }

  /** A rejection whose second write is cut off is a torn rejection. */
  lemma TornIsRejectTorn(mode: Mode, f: seq<byte>, g: seq<byte>, active: nat, boot: BootType, writing: Option<nat>)
    requires CanReject(mode, f) && MAX_FWD * BLOCK_SIZE <= |f|
    requires PartlyWritten(Dismissed(mode, f), g, InfoAddr(ScanSlots(mode, Slots(f)).trial, Rank), Le32(1))
    ensures
      var trial := ScanSlots(mode, Slots(f)).trial;
      trial < MAX_FWD && Next(SystemOf(mode, f, active, boot, writing), RejectTorn(SlotAt(g, trial).rank)) == SystemOf(mode, g, active, boot, writing)
  {
    hide ScanSlots, SlotAt, Word, Le32, And, TornWord;
    var t := ScanSlots(mode, Slots(f)).trial;
    ScanInRange(mode, f);
    DismissedIsRejectInterrupted(mode, f, active, boot, writing);
    var h := Dismissed(mode, f);
    AllOnes(f, InfoAddr(t, Rank));
    assert SameCells(f, h, InfoAddr(t, Rank), 4);
    RankPartlyProgrammed(h, g, t, 1);
    forall i | 0 <= i < MAX_FWD && i != t
      ensures SlotAt(g, i) == SlotAt(h, i)
    {
      OtherSlotsSame(h, g, InfoAddr(t, Rank), 4, t, i);
    }
    assert Slots(h) == Slots(f)[t := SlotAt(f, t).(status := STATUS_INVALID)] by {
      assert SystemOf(mode, h, active, boot, writing).slots == Slots(h);
    }
    assert Slots(g) == Slots(h)[t := SlotAt(h, t).(rank := SlotAt(g, t).rank)];
  }

  /** The flash left by a rejection is the rejected system. */
  lemma RejectedIsReject(mode: Mode, f: seq<byte>, active: nat, boot: BootType, writing: Option<nat>)
    requires CanReject(mode, f) && MAX_FWD * BLOCK_SIZE <= |f|
    ensures Next(SystemOf(mode, f, active, boot, writing), Reject) == SystemOf(mode, Rejected(mode, f), active, boot, writing)
  {
    hide ScanSlots, SlotAt, Word, Le32, And;
    var t := ScanSlots(mode, Slots(f)).trial;
    ScanInRange(mode, f);
    DismissedIsRejectInterrupted(mode, f, active, boot, writing);
    var g := Dismissed(mode, f);
    AllOnes(f, InfoAddr(t, Rank));
    assert SameCells(f, g, InfoAddr(t, Rank), 4);
    RankProgrammed(g, t, 1);
    forall i | 0 <= i < MAX_FWD && i != t
      ensures SlotAt(Rejected(mode, f), i) == SlotAt(g, i)
    {
      OtherSlotsSame(g, Rejected(mode, f), InfoAddr(t, Rank), 4, t, i);
    }
    assert Slots(g) == Slots(f)[t := SlotAt(f, t).(status := STATUS_INVALID)] by {
      assert SystemOf(mode, g, active, boot, writing).slots == Slots(g);
    }
    assert Slots(Rejected(mode, f)) == Slots(g)[t := SlotAt(g, t).(rank := 1)];
  }

  /** An acceptance in the header fields: the new rank is one more than the top one, the old current slot loses its status unless
      it is the golden one, and nothing else changes. */
  lemma AcceptedHeaders(mode: Mode, f: seq<byte>, boot: BootType)
    requires CanAccept(mode, boot, f) && MAX_FWD * BLOCK_SIZE <= |f|
    ensures
      var r, g := ScanSlots(mode, Slots(f)), Accepted(mode, f);
      forall i :: 0 <= i < MAX_FWD ==>
        && SlotAt(g, i).magic == SlotAt(f, i).magic && SlotAt(g, i).total == SlotAt(f, i).total
        && SlotAt(g, i).rank as int == (if i == r.trial then (r.rank + 1) % 0x1_0000_0000 else SlotAt(f, i).rank as int)
        && SlotAt(g, i).status == if i == r.current && (mode == TwoSlots || i != 0) then 0 else SlotAt(f, i).status
  {
    hide ScanSlots, SlotAt, Accepted;
    ScanInRange(mode, f);
    AcceptedIsAccept(mode, f, 0, boot, None);
    var s, t := SystemOf(mode, f, 0, boot, None), SystemOf(mode, Accepted(mode, f), 0, boot, None);
    assert Next(s, Accept) == t && s.slots == Slots(f) && t.slots == Slots(Accepted(mode, f));
  }

  /** A rejection in the header fields: the trial slot's status is 0 and its rank 1, and nothing else changes. */
  lemma RejectedHeaders(mode: Mode, f: seq<byte>)
    requires CanReject(mode, f) && MAX_FWD * BLOCK_SIZE <= |f|
    ensures
      var r, g := ScanSlots(mode, Slots(f)), Rejected(mode, f);
      forall i :: 0 <= i < MAX_FWD ==> SlotAt(g, i) == if i == r.trial then SlotAt(f, i).(status := 0, rank := 1) else SlotAt(f, i)
  {
    hide ScanSlots, SlotAt, Rejected;
    ScanInRange(mode, f);
    RejectedIsReject(mode, f, 0, BootTrial, None);
    var s, t := SystemOf(mode, f, 0, BootTrial, None), SystemOf(mode, Rejected(mode, f), 0, BootTrial, None);
    assert Next(s, Reject) == t && s.slots == Slots(f) && t.slots == Slots(Rejected(mode, f));
  }
}
