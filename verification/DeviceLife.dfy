/** What whole upgrades mean for the device: events of the slot life cycle, and a file system that survives them. */
module DeviceLife {
  import opened Bytes
  import opened NorFlash
  import opened Descriptor
  import opened SlotSelection
  import opened UpgradeMem
  import opened UpgradeSpec
  import opened SessionInvariant
  import opened ImageInvariant
  import opened Completion
  import opened Lifecycle
  import opened FlashLayout
  import opened LayoutHistory
  import opened UpgradeSession

  // The session's flash operations are events of the device

  /** Every flash contents a session leaves behind is that of a session cut off, or carried through; the one exception is an
      erase of the descriptor cut off while the old status, which was valid, is still there. */
  lemma EverySessionStateIsAnEvent(session: Session, k: nat)
    requires session.Protected() && session.mem.flash.guard.Some? && k < |session.mem.flash.history|
    ensures
      var env, g, f := session.Environment(), session.geo, session.mem.flash.history[k];
      || CutOff(env, g.base, f)
      || (exists s: State :: Completed(env, g.base, s) && s.flash == f)
      || (&& !session.mem.flash.guard.value.armed && TornErase(env, g.base, f)
          && Cell(g.base, InfoAddr(g.trial, Status)) == Cell(f, InfoAddr(g.trial, Status)) == STATUS_VALID)
  {
    hide Installed, Frame, Select, GeometryOf, Flash.Valid, PartlyErased;
    var env, g, f := session.Environment(), session.geo, session.mem.flash.history[k];
    assert Targets(env, g.base, g);
    if Cell(f, InfoAddr(g.trial, Status)) == STATUS_VALID && session.mem.flash.guard.value.armed {
      var s := session.spec.WithFlash(f);
      assert Completed(env, g.base, s);
    }
  }

  // The session's flash contents are those of the life cycle

  /** The selection is the life cycle's upgrade target. */
  lemma TargetOfSelection(env: Env, f: seq<byte>, g: Geometry)
    requires Targets(env, f, g)
    ensures g.trial == UpgradeTarget(env.mode, ScanSlots(env.mode, Slots(f)).current) != env.active
  {
    hide ReservedEnd, ImageSetEnd, ScanSlots, PushBack, HalfRegion, Slots, Find;
  }

  lemma SlotsOtherwiseSame(p: Plan, env: Env, f: seq<byte>, g: Geometry, f': seq<byte>)
    requires Layout(p, env.mode, f, env.active) && Targets(env, f, g) && Frame(g, f')
    ensures g.trial < MAX_FWD && Slots(f') == Slots(f)[g.trial := SlotAt(f', g.trial)]
  {
    hide SlotAt, Layout, Targets, Frame;
    LayoutReadyTrial(p, env, f, g);
    forall i | 0 <= i < MAX_FWD && i != g.trial
      ensures SlotAt(f', i) == SlotAt(f, i)
    {
      OtherDescriptorsUntouched(p, env, f, g, f', i);
    }
  }

  lemma LayoutReadyTrial(p: Plan, env: Env, f: seq<byte>, g: Geometry)
    requires Layout(p, env.mode, f, env.active) && Targets(env, f, g)
    ensures g.trial < SlotCount(env.mode) && g.trial != env.active
  {
    hide Layout, Select;
    TargetInRange(env.mode, f, env.active);
  }

  /** A session that has not ended has begun its slot and perhaps described it. */
  lemma OpenSessionIsDescribe(p: Plan, env: Env, f: seq<byte>, g: Geometry, s: State, boot: BootType)
    requires Layout(p, env.mode, f, env.active) && Targets(env, f, g) && Frame(g, s.flash) && s.trial == g.trial && DescriptorInv(s)
    ensures
      var slot := SlotAt(s.flash, g.trial);
      var begun := Next(SystemOf(env.mode, f, env.active, boot, None), BeginUpgrade);
      && slot == ERASED_SLOT.(magic := slot.magic, total := slot.total)
      && SystemOf(env.mode, s.flash, env.active, boot, Some(g.trial)) == Next(begun, Describe(slot.magic, slot.total))
  {
    hide Layout, Targets, Frame, ScanSlots, Word, HoldsTable, Slots;
    SlotsOtherwiseSame(p, env, f, g, s.flash);
    TargetOfSelection(env, f, g);
    BlankRankIsTrial(s.flash, g.trial);
  }

  /** A completed session has begun, described and committed its slot. */
  lemma CompletedIsCommit(p: Plan, env: Env, f: seq<byte>, g: Geometry, s: State, boot: BootType)
    requires Layout(p, env.mode, f, env.active) && Targets(env, f, g) && Installed(env, g, s)
    ensures
      var slot := SlotAt(s.flash, g.trial);
      SystemOf(env.mode, s.flash, env.active, boot, None)
      == Run(SystemOf(env.mode, f, env.active, boot, None), [BeginUpgrade, Describe(slot.magic, slot.total), Commit])
  {
    hide Layout, Targets, Frame, ScanSlots, SlotAt, HoldsTable, Slots, FsCopied, Ordered, AllDone, SaneHeaders, Counts, Located,
      HasFileSystems, GeometryOk, ConfigMagic, TotalImagesByte, ConfigCount;
    SlotsOtherwiseSame(p, env, f, g, s.flash);
    TargetOfSelection(env, f, g);
    var slot := SlotAt(s.flash, g.trial);
    var d := Describe(slot.magic, slot.total);
    var s0 := SystemOf(env.mode, f, env.active, boot, None);
    var s1 := Next(s0, BeginUpgrade);
    var s2 := Next(s1, d);
    RunThree(s0, BeginUpgrade, d, Commit);
  }

  lemma RunThree(s: System, a: Action, b: Action, c: Action)
    requires |s.slots| == MAX_FWD
    ensures Run(s, [a, b, c]) == Next(Next(Next(s, a), b), c)
  {
    hide Next;
    var s1 := Next(s, a);
    var s2 := Next(s1, b);
    assert [a, b, c][1..] == [b, c] && [b, c][1..] == [c] && [c][1..] == [];
    assert Run(s, [a, b, c]) == Run(s1, [b, c]);
    assert Run(s1, [b, c]) == Run(s2, [c]);
    assert Run(s2, [c]) == Run(Next(s2, c), []);
  }

  /** A session cut off anywhere, even in the middle of a write, has begun its slot and left some header in it that is not valid. */
  lemma CutOffIsTorn(p: Plan, env: Env, f: seq<byte>, g: Geometry, f': seq<byte>, boot: BootType)
    requires Layout(p, env.mode, f, env.active) && Targets(env, f, g) && Frame(g, f')
    requires Cell(f', InfoAddr(g.trial, Status)) != STATUS_VALID
    ensures
      SystemOf(env.mode, f', env.active, boot, None)
      == Run(SystemOf(env.mode, f, env.active, boot, None), [BeginUpgrade, Torn(SlotAt(f', g.trial))])
  {
    hide Layout, Targets, Frame, ScanSlots, Word, Slots;
    SlotsOtherwiseSame(p, env, f, g, f');
    TargetOfSelection(env, f, g);
    var s0 := SystemOf(env.mode, f, env.active, boot, None);
    RunTwo(s0, BeginUpgrade, Torn(SlotAt(f', g.trial)));
  }

  lemma RunTwo(s: System, a: Action, b: Action)
    requires |s.slots| == MAX_FWD
    ensures Run(s, [a, b]) == Next(Next(s, a), b)
  {
    hide Next;
    assert [a, b][1..] == [b] && [b][1..] == [];
    assert Run(s, [a, b]) == Run(Next(s, a), [b]);
    assert Run(Next(s, a), [b]) == Run(Next(Next(s, a), b), []);
  }

  // Histories of the device are runs of the life cycle

  function SystemAt(mode: Mode, d: Device): (s: System)
    ensures |s.slots| == MAX_FWD && s.mode == mode
  {
    SystemOf(mode, d.f, d.active, d.boot, None)
  }

  lemma RunOne(s: System, a: Action)
    requires |s.slots| == MAX_FWD
    ensures Run(s, [a]) == Next(s, a)
    ensures RanksSuffice(s, [a]) <==> !RunsOut(s, a)
  {
    hide Next;
    assert [a][1..] == [];
    assert Run(s, [a]) == Run(Next(s, a), []);
  }

  /** The event carries an acceptance through. */
  predicate Accepts(mode: Mode, d: Device, d': Device) {
    CanAccept(mode, d.boot, d.f) && d'.f == Accepted(mode, d.f)
  }

  /** The event is an acceptance that gets as far as having written the rank. */
  predicate GivesRank(mode: Mode, d: Device, d': Device) {
    Accepts(mode, d, d') || (CanAccept(mode, d.boot, d.f) && d'.f == Promoted(mode, d.f))
  }

  /** The event is an acceptance cut off in the middle of writing the rank. */
  ghost predicate TearsRank(mode: Mode, d: Device, d': Device) {
    IsAccepted(mode, d, d') && !GivesRank(mode, d, d') && d'.f != d.f
  }

  /** The slot a session started now would rewrite. */
  function TargetOf(mode: Mode, d: Device): nat {
    UpgradeTarget(mode, ScanSlots(mode, Slots(d.f)).current)
  }

  ghost predicate IsSession(mode: Mode, d: Device, d': Device) {
    SessionIsCutOff(mode, d, d') || exists env: Env, s: State :: SessionCompletes(mode, d, d', env, s)
  }

  /** What the actions of the life cycle tell about the event they stand for. */
  ghost predicate Follows(mode: Mode, d: Device, d': Device, events: seq<Action>) {
    && SystemAt(mode, d') == Run(SystemAt(mode, d), events)
    && ((mode == TwoSlots && Accepts(mode, d, d') ==> RoomForRank(SystemAt(mode, d))) ==> RanksSuffice(SystemAt(mode, d), events))
    && RanksTaken(events) <= (if GivesRank(mode, d, d') then 1 else 0)
    && (!TearsRank(mode, d, d') ==> NoTornAccept(events))
    && forall fwd :: (IsSession(mode, d, d') ==> TargetOf(mode, d) != fwd) ==> NeverRewrites(SystemAt(mode, d), events, fwd)
  }

  /** A session, cut off or carried through, as actions. */
  lemma SessionAsRun(p: Plan, mode: Mode, d: Device, d': Device) returns (events: seq<Action>)
    requires Layout(p, mode, d.f, d.active) && IsSession(mode, d, d')
    ensures Follows(mode, d, d', events)
  {
    hide Layout, Targets, Frame, Installed, Run, Slots, SlotAt, RanksSuffice, NeverRewrites, Accepts, GivesRank, TearsRank, TargetOf;
    if SessionIsCutOff(mode, d, d') {
      var env: Env :| env.mode == mode && env.active == d.active && CutOff(env, d.f, d'.f);
      var g: Geometry :| Targets(env, d.f, g) && Frame(g, d'.f) && Cell(d'.f, InfoAddr(g.trial, Status)) != STATUS_VALID;
      CutOffIsTorn(p, env, d.f, g, d'.f, d.boot);
      events := [BeginUpgrade, Torn(SlotAt(d'.f, g.trial))];
    } else {
      var env: Env, s: State :| SessionCompletes(mode, d, d', env, s);
      var g: Geometry :| Targets(env, d.f, g) && Installed(env, g, s);
      CompletedIsCommit(p, env, d.f, g, s, d.boot);
      var slot := SlotAt(s.flash, g.trial);
      events := [BeginUpgrade, Describe(slot.magic, slot.total), Commit];
    }
    NoAcceptance(SystemAt(mode, d), events);
    forall fwd | TargetOf(mode, d) != fwd
      ensures NeverRewrites(SystemAt(mode, d), events, fwd)
    {
      OneBegin(mode, d, events, fwd);
    }
  }

  lemma {:induction false} NoAcceptance(s: System, events: seq<Action>)
    requires |s.slots| == MAX_FWD && forall k :: 0 <= k < |events| ==> events[k] != Accept && events[k] != AcceptInterrupted
    ensures RanksSuffice(s, events) && RanksTaken(events) == 0
    decreases |events|
  {
    hide Next;
    if events != [] {
      NoAcceptance(Next(s, events[0]), events[1..]);
    }
  }

  lemma OneBegin(mode: Mode, d: Device, events: seq<Action>, fwd: nat)
    requires TargetOf(mode, d) != fwd && events != [] && events[0] == BeginUpgrade
    requires forall k :: 1 <= k < |events| ==> events[k] != BeginUpgrade
    ensures NeverRewrites(SystemAt(mode, d), events, fwd)
  {
    hide ScanSlots, Slots;
    OnlyBeginTurns(Next(SystemAt(mode, d), BeginUpgrade), events[1..], fwd);
  }

  /** Everything else, as one action or none. */
  lemma OtherEventAsRun(p: Plan, mode: Mode, d: Device, d': Device) returns (events: seq<Action>)
    requires Layout(p, mode, d.f, d.active)
    requires IsAccepted(mode, d, d') || IsRejected(mode, d, d') || Reboots(mode, d, d') || WritesData(d, d')
    ensures Follows(mode, d, d', events)
  {
    hide Layout, Run, RanksSuffice, Next, AcceptLeaves, RejectLeaves, RoomForRank, CanAccept, CanReject, SystemAt, IsSession, NeverRewrites;
    var s := SystemAt(mode, d);
    ActiveInRange(p, mode, d.f, d.active);
    if WritesData(d, d') {
      SameHeaders(d.f, d'.f);
      events := [];
      assert Run(s, events) == s == SystemAt(mode, d') && RanksSuffice(s, events) by { RunNone(mode, d, d'); }
    } else {
      var a: Action;
      if IsAccepted(mode, d, d') {
        a := AcceptanceAsAction(mode, d, d');
      } else if IsRejected(mode, d, d') {
        a := RejectionAsAction(mode, d, d');
      } else {
        a := Reboot(d'.active);
        RebootIsReboot(mode, d, d');
      }
      RunOne(s, a);
      events := [a];
      assert RanksTaken(events) == if TakesRank(a) then 1 else 0 by { assert events[1..] == []; }
    }
    forall fwd
      ensures NeverRewrites(s, events, fwd)
    {
      NotWriting(mode, d);
      OnlyBeginTurns(s, events, fwd);
    }
  }

  lemma NotWriting(mode: Mode, d: Device)
    ensures SystemAt(mode, d).writing == None && SystemAt(mode, d).mode == mode
  {
  }

  /** The three ways an acceptance ends: carried through, between its writes, or within the first. */
  lemma AcceptanceAsAction(mode: Mode, d: Device, d': Device) returns (a: Action)
    requires IsAccepted(mode, d, d') && MAX_FWD * BLOCK_SIZE <= |d.f|
    ensures SystemAt(mode, d') == Next(SystemAt(mode, d), a) && a != BeginUpgrade
    ensures a == Accept ==> Accepts(mode, d, d')
    ensures TakesRank(a) ==> GivesRank(mode, d, d')
    ensures a.AcceptTorn? ==> TearsRank(mode, d, d')
  {
    hide Promoted, Accepted, Slots, ScanSlots, Next, PartlyWritten;
    if Accepts(mode, d, d') {
      AcceptedIsAccept(mode, d.f, d.active, d.boot, None);
      a := Accept;
    } else if GivesRank(mode, d, d') {
      PromotedIsAcceptInterrupted(mode, d.f, d.active, d.boot, None);
      a := AcceptInterrupted;
    } else if d'.f == d.f {
      a := Abandon;
      AbandonedIsSame(mode, d);
    } else {
      TornIsAcceptTorn(mode, d.f, d'.f, d.active, d.boot, None);
      a := AcceptTorn(SlotAt(d'.f, ScanSlots(mode, Slots(d.f)).trial).rank);
    }
  }

  lemma AbandonedIsSame(mode: Mode, d: Device)
    ensures Next(SystemAt(mode, d), Abandon) == SystemAt(mode, d)
  {
  }

  lemma RejectionAsAction(mode: Mode, d: Device, d': Device) returns (a: Action)
    requires IsRejected(mode, d, d') && MAX_FWD * BLOCK_SIZE <= |d.f|
    ensures SystemAt(mode, d') == Next(SystemAt(mode, d), a)
    ensures a.Reject? || a.RejectTorn? || a.Abandon?
  {
    hide Slots, ScanSlots, Next, PartlyWritten, Dismissed, Rejected;
    if d'.f == d.f {
      a := Abandon;
      AbandonedIsSame(mode, d);
    } else if d'.f == Rejected(mode, d.f) {
      RejectedIsReject(mode, d.f, d.active, d.boot, None);
      a := Reject;
    } else {
      TornIsRejectTorn(mode, d.f, d'.f, d.active, d.boot, None);
      a := RejectTorn(SlotAt(d'.f, ScanSlots(mode, Slots(d.f)).trial).rank);
    }
  }

  lemma RunNone(mode: Mode, d: Device, d': Device)
    requires d'.active == d.active && d'.boot == d.boot && Slots(d'.f) == Slots(d.f)
    ensures var s := SystemAt(mode, d); Run(s, []) == s == SystemAt(mode, d') && RanksSuffice(s, [])
  {
  }

  lemma SameHeaders(f: seq<byte>, f': seq<byte>)
    requires SameCells(f, f', 0, MAX_FWD * BLOCK_SIZE)
    ensures Slots(f') == Slots(f)
  {
    hide SlotAt, FindFrom, EntryAt;
    forall i | 0 <= i < MAX_FWD
      ensures SlotAt(f', i) == SlotAt(f, i)
    {
      SameFind(f, f', i, 0);
    }
  }

  lemma RebootIsReboot(mode: Mode, d: Device, d': Device)
    requires Reboots(mode, d, d')
    ensures Next(SystemAt(mode, d), Reboot(d'.active)) == SystemAt(mode, d')
  {
    hide SlotAt;
  }

  lemma EventAsRun(p: Plan, mode: Mode, d: Device, d': Device) returns (events: seq<Action>)
    requires Layout(p, mode, d.f, d.active) && Happens(mode, d, d')
    ensures Follows(mode, d, d', events)
  {
    hide Layout, SessionIsCutOff, SessionCompletes, IsAccepted, IsRejected, Reboots, WritesData, Follows;
    if IsSession(mode, d, d') {
      events := SessionAsRun(p, mode, d, d');
    } else {
      events := OtherEventAsRun(p, mode, d, d');
    }
  }

  /** With two slots, every acceptance carried through finds room for its rank. */
  ghost predicate RanksLast(mode: Mode, h: seq<Device>) {
    mode == TwoSlots ==> forall k :: 0 <= k < |h| - 1 && Accepts(mode, h[k], h[k + 1]) ==> RoomForRank(SystemAt(mode, h[k]))
  }

  /** No acceptance is cut off in the middle of writing its rank. */
  ghost predicate NoTornRank(mode: Mode, h: seq<Device>) {
    forall k :: 0 <= k < |h| - 1 ==> !TearsRank(mode, h[k], h[k + 1])
  }

  /** How many acceptances get as far as having written their rank. */
  function Acceptances(mode: Mode, h: seq<Device>): nat {
    if |h| <= 1 then 0
    else Acceptances(mode, h[..|h| - 1]) + if GivesRank(mode, h[|h| - 2], h[|h| - 1]) then 1 else 0
  }

  /** No session goes to slot `fwd`. */
  ghost predicate SparesSlot(mode: Mode, h: seq<Device>, fwd: nat) {
    forall k :: 0 <= k < |h| - 1 && IsSession(mode, h[k], h[k + 1]) ==> TargetOf(mode, h[k]) != fwd
  }

  /** A history of the device is a run of the slot life cycle, so what holds over every run holds over every history. */
  lemma {:induction false} HistoryAsRun(p: Plan, mode: Mode, h: seq<Device>) returns (events: seq<Action>)
    requires History(mode, h) && Layout(p, mode, h[0].f, h[0].active)
    ensures SystemAt(mode, h[|h| - 1]) == Run(SystemAt(mode, h[0]), events)
    ensures RanksLast(mode, h) ==> RanksSuffice(SystemAt(mode, h[0]), events)
    ensures RanksTaken(events) <= Acceptances(mode, h)
    ensures NoTornRank(mode, h) ==> NoTornAccept(events)
    ensures forall fwd :: SparesSlot(mode, h, fwd) ==> NeverRewrites(SystemAt(mode, h[0]), events, fwd)
    decreases |h|
  {
    hide Layout, Happens, SystemAt, Run, RanksSuffice, RoomForRank, Ready, Accepts, GivesRank, TearsRank, IsSession, TargetOf,
      NeverRewrites;
    events := [];
    if |h| > 1 {
      var before := h[..|h| - 1];
      assert forall k :: 0 <= k < |before| ==> before[k] == h[k];
      var first := HistoryAsRun(p, mode, before);
      LayoutForever(p, mode, before);
      var last := EventAsRun(p, mode, h[|h| - 2], h[|h| - 1]);
      events := first + last;
      RunAppend(SystemAt(mode, h[0]), first, last);
      RanksTakenAppend(first, last);
      forall fwd | SparesSlot(mode, h, fwd)
        ensures NeverRewrites(SystemAt(mode, h[0]), events, fwd)
      {
        assert SparesSlot(mode, before, fwd);
        NeverRewritesAppend(SystemAt(mode, h[0]), first, last, fwd);
      }
    } else {
      NoEvents(mode, h[0]);
    }
  }

  lemma NoEvents(mode: Mode, d: Device)
    ensures var s := SystemAt(mode, d); Run(s, []) == s && RanksSuffice(s, []) && forall fwd :: NeverRewrites(s, [], fwd)
  {
    RunNone(mode, d, d);
  }

  /** Unless a rank is torn, ranks last for as many acceptances as the first one leaves room for. */
  lemma {:induction false} RanksLastWhen(p: Plan, mode: Mode, h: seq<Device>)
    requires History(mode, h) && Layout(p, mode, h[0].f, h[0].active) && Fallback(SystemAt(mode, h[0]))
    requires NoTornRank(mode, h) && ScanOf(SystemAt(mode, h[0])).rank + Acceptances(mode, h) <= 0xFFFF_FFFE
    ensures RanksLast(mode, h)
    decreases |h|
  {
    hide Layout, Happens, SystemAt, Run, RanksSuffice, Ready, Accepts, TearsRank, NeverRewrites, Fallback, ScanSlots;
    if |h| > 1 {
      var before := h[..|h| - 1];
      assert forall k :: 0 <= k < |before| ==> before[k] == h[k];
      RanksLastWhen(p, mode, before);
      var events := HistoryAsRun(p, mode, before);
      FallbackIsInv(mode, h[0]);
      RanksSufficeWhen(SystemAt(mode, h[0]), events);
    }
  }

  /** Over any history of the device there is a slot to fall back to, at every point and whatever a session cut off just then,
      even in its very first erase, has left behind. */
  lemma FallbackForever(p: Plan, mode: Mode, h: seq<Device>)
    requires History(mode, h) && Layout(p, mode, h[0].f, h[0].active) && Fallback(SystemAt(mode, h[0])) && RanksLast(mode, h)
    ensures
      var d := h[|h| - 1];
      && Fallback(SystemAt(mode, d))
      && forall env: Env, f' :: env.mode == mode && env.active == d.active && TornErase(env, d.f, f') ==>
           Fallback(SystemAt(mode, d.(f := f')))
  {
    hide Layout, Happens, SystemAt, Run, RanksSuffice, RoomForRank, Fallback, Ready, TornErase, RanksLast, NeverRewrites;
    var d := h[|h| - 1];
    var events := HistoryAsRun(p, mode, h);
    FallbackIsInv(mode, h[0]);
    FallbackAlways(SystemAt(mode, h[0]), events);
    LayoutForever(p, mode, h);
    forall env: Env, f' | env.mode == mode && env.active == d.active && TornErase(env, d.f, f')
      ensures Fallback(SystemAt(mode, d.(f := f')))
    {
      FallbackSurvivesErase(p, env, d, f');
    }
  }

  /** The golden header never changes. */
  lemma GoldenHeaderForever(p: Plan, h: seq<Device>)
    requires History(GoldenPlusTwo, h) && Layout(p, GoldenPlusTwo, h[0].f, h[0].active) && Fallback(SystemAt(GoldenPlusTwo, h[0]))
    ensures SlotAt(h[|h| - 1].f, 0) == SlotAt(h[0].f, 0)
  {
    hide Layout, Happens, Run, Fallback, NeverRewrites, SlotAt;
    var events := HistoryAsRun(p, GoldenPlusTwo, h);
    FallbackIsInv(GoldenPlusTwo, h[0]);
    GoldenForever(SystemAt(GoldenPlusTwo, h[0]), events);
    assert SystemAt(GoldenPlusTwo, h[|h| - 1]).slots[0] == SlotAt(h[|h| - 1].f, 0);
  }

  /** A retired or rejected slot is neither current nor on trial until a session goes to it. */
  lemma RetiredUntilRewritten(p: Plan, mode: Mode, h: seq<Device>, fwd: nat)
    requires History(mode, h) && Layout(p, mode, h[0].f, h[0].active) && Fallback(SystemAt(mode, h[0])) && RanksLast(mode, h)
    requires fwd < MAX_FWD && !SlotAt(h[0].f, fwd).Bootable() && SparesSlot(mode, h, fwd)
    ensures
      var f := h[|h| - 1].f;
      && !SlotAt(f, fwd).Bootable()
      && ScanSlots(mode, Slots(f)).trial != fwd && ScanSlots(mode, Slots(f)).current != fwd
  {
    hide Layout, Happens, Run, Fallback, NeverRewrites, SlotAt, ScanSlots, RanksLast, RanksSuffice, SparesSlot;
    var events := HistoryAsRun(p, mode, h);
    FallbackIsInv(mode, h[0]);
    StaysOutUntilRewritten(SystemAt(mode, h[0]), events, fwd);
    assert SystemAt(mode, h[|h| - 1]).slots == Slots(h[|h| - 1].f);
  }

  lemma FallbackIsInv(mode: Mode, d: Device)
    requires Fallback(SystemAt(mode, d))
    ensures Inv(SystemAt(mode, d))
  {
    hide Fallback, SlotAt;
  }

  /** The slot fallen back to is never the one whose descriptor is being erased. */
  lemma FallbackSurvivesErase(p: Plan, env: Env, d: Device, f': seq<byte>)
    requires env.active == d.active && Layout(p, env.mode, d.f, d.active) && TornErase(env, d.f, f')
    requires Fallback(SystemAt(env.mode, d))
    ensures Fallback(SystemAt(env.mode, d.(f := f')))
  {
    hide Layout, Targets, Frame, ScanSlots, SlotAt, PartlyErased;
    var g: Geometry :| Targets(env, d.f, g) && PartlyErased(d.f, f', g.trial * BLOCK_SIZE, BLOCK_SIZE);
    PartlyErasedInFrame(p, env, d.f, g, f');
    TargetOfSelection(env, d.f, g);
    var s := SystemAt(env.mode, d);
    forall i | 0 <= i < MAX_FWD && i != g.trial
      ensures SlotAt(f', i) == SlotAt(d.f, i)
    {
      OtherDescriptorsUntouched(p, env, d.f, g, f', i);
    }
    if env.mode == TwoSlots {
      CurrentIsFallback(s);
    }
  }

  // What a session leaves alone

  /** No image of another slot that runs or may be booted is touched, whenever the session is cut off. */
  lemma OtherImagesUntouched(p: Plan, env: Env, f: seq<byte>, g: Geometry, f': seq<byte>, other: nat, k: nat)
    requires Layout(p, env.mode, f, env.active) && Targets(env, f, g) && Frame(g, f')
    requires other < SlotCount(env.mode) && other != g.trial && Matters(f, env.active, other)
    requires k < |TableOf(f, other)| && IsImage(TableOf(f, other)[k])
    ensures SameCells(f, f', TableOf(f, other)[k].start, TableOf(f, other)[k].size)
  {
    hide Find, ReservedEnd, Select, TableOf, Reserved, Precedes, PlanOk, Half, HoldsTable, SlotAt, Area, ImageSetEnd;
    var e := TableOf(f, other)[k];
    RegionOverlapsNothing(p, env.mode, f, env.active, other, k);
    ReservedPlaced(p, env.mode);
    AreaPlaced(p, env.mode, other);
    ReservedEndPlaced(p, env.mode, f, env.active);
    EndOfExtentOf(Find(f, env.active, FS2_IMG_ID));
    ReservedFound(p, env.mode, f, env.active);
    EndOfExtentOf(Find(f, env.active, RAMDUMP_IMG_ID));
    assert EntryFits(p, Area(p, env.mode, other), e);
    LayoutReadyTrial(p, env, f, g);
  }

  /** Nor are the running slot's first file system and user data. */
  lemma RunningDataUntouched(p: Plan, env: Env, f: seq<byte>, g: Geometry, f': seq<byte>)
    requires Layout(p, env.mode, f, env.active) && Targets(env, f, g) && Frame(g, f')
    ensures SameCells(f, f', g.fs1.start, g.fs1.size) && SameCells(f, f', g.userdata.start, g.userdata.size)
  {
    hide Find, Select, Layout;
    LayoutReady(p, env, f);
  }
}
