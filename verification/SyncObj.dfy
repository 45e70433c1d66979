/** One timeline sync object: any number of SyncObjSignal calls against
    single-handle SyncObjWait calls, interleaved at every lock section and event
    operation. */
module SyncObj {
  datatype Outcome = Ok | TimedOut | Failed

  /** Where a SyncObjWait call stands. */
  datatype Waiter =
    | Check(target: nat)      // first look at the counter, under the lock
    | Clear(target: nat)      // KeClearEvent
    | Recheck(target: nat)    // second look
    | Blocked(target: nat)    // in KeWaitForSingleObject
    | Returned(target: nat, outcome: Outcome)

  /** Where a SyncObjSignal call stands. */
  datatype Signaller = Update(point: nat) | SetEvent | Gone

  /** points lists what the signallers have offered so far. */
  datatype Sys = Sys(value: nat, event: bool, waiters: seq<Waiter>, signallers: seq<Signaller>, initial: nat, points: seq<nat>)

  datatype Action =
    | Wait(target: nat)
    | Signal(point: nat)
    | WaiterStep(i: nat)
    | WaiterTimeout(i: nat)
    | WaiterError(i: nat)
    | SignallerStep(i: nat)

  /** SyncObjCreate with or without an initial state */
  function Init(signalled: bool): Sys {
    Sys(if signalled then 1 else 0, signalled, [], [], if signalled then 1 else 0, [])
  }

  /** A notification event stays set when a wait on it succeeds. */
  function Advance(w: Waiter, value: nat, event: bool): Waiter {
    match w
    case Check(t) => if value >= t then Returned(t, Ok) else Clear(t)
    case Clear(t) => Recheck(t)
    case Recheck(t) => if value >= t then Returned(t, Ok) else Blocked(t)
    case Blocked(t) => if event then Check(t) else w
    case Returned(_, _) => w
  }

  function Next(s: Sys, a: Action): Sys {
    match a
    case Wait(t) => s.(waiters := s.waiters + [Check(t)])
    case Signal(p) => s.(signallers := s.signallers + [Update(p)])
    case WaiterStep(i) =>
      if i < |s.waiters| then
        s.(waiters := s.waiters[i := Advance(s.waiters[i], s.value, s.event)],
           event := s.event && !s.waiters[i].Clear?)
      else s
    case WaiterTimeout(i) =>
      if i < |s.waiters| && s.waiters[i].Blocked? then s.(waiters := s.waiters[i := Returned(s.waiters[i].target, TimedOut)]) else s
    case WaiterError(i) =>
      if i < |s.waiters| && s.waiters[i].Blocked? then s.(waiters := s.waiters[i := Returned(s.waiters[i].target, Failed)]) else s
    case SignallerStep(i) =>
      if i < |s.signallers| then
        match s.signallers[i]
        case Update(p) =>
          s.(value := if p > s.value then p else s.value, signallers := s.signallers[i := SetEvent], points := s.points + [p])
        case SetEvent => s.(event := true, signallers := s.signallers[i := Gone])
        case Gone => s
      else s
  }

  function Run(s: Sys, actions: seq<Action>): Sys
    decreases |actions|
  {
    if actions == [] then s else Next(Run(s, actions[..|actions| - 1]), actions[|actions| - 1])
  }

  // ------------------------------------------------------------- single calls

  /** An object created signalled stands at point 1 with its event set, another at 0; the
      first step of a wait for point 1 tells them apart. */
  lemma {:induction false} CreatedSignalled()
    ensures Init(true).value == 1 && Init(true).event && Init(false).value == 0 && !Init(false).event
    ensures Run(Init(true), [Wait(1), WaiterStep(0)]).waiters == [Returned(1, Ok)]
    ensures Run(Init(false), [Wait(1), WaiterStep(0)]).waiters == [Clear(1)]
  {
    assert [Wait(1), WaiterStep(0)][..1] == [Wait(1)] && [Wait(1)][..0] == [];
    assert Run(Init(true), [Wait(1)]).waiters == [Check(1)] && Run(Init(false), [Wait(1)]).waiters == [Check(1)];
  }

  function Steps(s: Sys, a: Action, n: nat): Sys
    decreases n
  {
    if n == 0 then s else Steps(Next(s, a), a, n - 1)
  }

  /** A wait by itself: it returns in its first step when the point has been reached,
      and otherwise clears the event and sleeps. */
  lemma {:induction false} WaitByItself(s: Sys, t: nat)
    ensures var i, u := |s.waiters|, Next(s, Wait(t));
            && (s.value >= t ==> Next(u, WaiterStep(i)) == s.(waiters := s.waiters + [Returned(t, Ok)]))
            && (s.value < t ==> Steps(u, WaiterStep(i), 3) == s.(waiters := s.waiters + [Blocked(t)], event := false))
  {
    var i, u := |s.waiters|, Next(s, Wait(t));
    assert u.waiters[i := Returned(t, Ok)] == s.waiters + [Returned(t, Ok)];
    if s.value < t {
      var v := Next(u, WaiterStep(i));
      assert v == s.(waiters := s.waiters + [Clear(t)]);
      var w := Next(v, WaiterStep(i));
      assert w == s.(waiters := s.waiters + [Recheck(t)], event := false);
      var x := Next(w, WaiterStep(i));
      assert x == s.(waiters := s.waiters + [Blocked(t)], event := false);
      hide Next;
      assert Steps(u, WaiterStep(i), 3) == Steps(v, WaiterStep(i), 2) == Steps(w, WaiterStep(i), 1) == Steps(x, WaiterStep(i), 0);
    }
  }

  /** A sleeper can always be ended by its timeout, or by a failed wait, and by nothing else
      than those and its event. */
  lemma {:induction false} SleepEnds(s: Sys, i: nat)
    requires i < |s.waiters| && s.waiters[i].Blocked?
    ensures Next(s, WaiterTimeout(i)) == s.(waiters := s.waiters[i := Returned(s.waiters[i].target, TimedOut)])
    ensures Next(s, WaiterError(i)) == s.(waiters := s.waiters[i := Returned(s.waiters[i].target, Failed)])
    ensures s.event ==> Next(s, WaiterStep(i)) == s.(waiters := s.waiters[i := Check(s.waiters[i].target)])
    ensures !s.event ==> Next(s, WaiterStep(i)) == s
  {
    assert s.waiters[i := s.waiters[i]] == s.waiters;
  }

  /** A signal by itself raises the counter to its point, unless it is there already, and
      then sets the event. */
  lemma {:induction false} SignalByItself(s: Sys, p: nat)
    ensures var i, u := |s.signallers|, Next(s, Signal(p));
            Next(Next(u, SignallerStep(i)), SignallerStep(i)) ==
              s.(value := if p > s.value then p else s.value, event := true,
                 signallers := s.signallers + [Gone], points := s.points + [p])
  {
    var i, u := |s.signallers|, Next(s, Signal(p));
    var v := Next(u, SignallerStep(i));
    assert v.signallers == s.signallers + [SetEvent];
    assert v.signallers[i := Gone] == s.signallers + [Gone];
  }

  // ------------------------------------------------------------- the counter

  ghost predicate IsLargest(v: nat, initial: nat, points: seq<nat>) {
    && initial <= v && (forall i | 0 <= i < |points| :: points[i] <= v)
    && (v == initial || v in points)
  }

  lemma {:induction false} NextKeepsLargest(s: Sys, a: Action)
    requires IsLargest(s.value, s.initial, s.points)
    ensures IsLargest(Next(s, a).value, s.initial, Next(s, a).points)
    ensures s.value <= Next(s, a).value && Next(s, a).initial == s.initial
  {
  }

  /** In every run the counter is the largest point offered so far, so it never goes back. */
  lemma {:induction false} ValueIsTheLargestPoint(signalled: bool, actions: seq<Action>)
    ensures var s := Run(Init(signalled), actions);
            IsLargest(s.value, if signalled then 1 else 0, s.points) && s.initial == if signalled then 1 else 0
    decreases |actions|
  {
    hide Next;
    if actions != [] {
      var before := actions[..|actions| - 1];
      ValueIsTheLargestPoint(signalled, before);
      NextKeepsLargest(Run(Init(signalled), before), actions[|actions| - 1]);
    }
  }

  lemma {:induction false} ValueNeverDecreases(signalled: bool, actions: seq<Action>, k: nat)
    requires k <= |actions|
    ensures Run(Init(signalled), actions[..k]).value <= Run(Init(signalled), actions).value
    decreases |actions|
  {
    hide Next;
    if k == |actions| {
      assert actions[..k] == actions;
    } else {
      var before := actions[..|actions| - 1];
      assert before[..k] == actions[..k];
      ValueNeverDecreases(signalled, before, k);
      ValueIsTheLargestPoint(signalled, before);
      NextKeepsLargest(Run(Init(signalled), before), actions[|actions| - 1]);
    }
  }

  // ------------------------------------------------------------- what OK means

  ghost predicate Honest(s: Sys) {
    forall i | 0 <= i < |s.waiters| ::
      s.waiters[i].Returned? && s.waiters[i].outcome.Ok? ==> s.value >= s.waiters[i].target
  }

  lemma {:induction false} NextKeepsHonest(s: Sys, a: Action)
    requires Honest(s)
    ensures Honest(Next(s, a))
  {
  }

  /** In every run, with any number of waiters, OK is returned only once the target is reached. */
  lemma {:induction false} OkMeansReached(signalled: bool, actions: seq<Action>)
    ensures Honest(Run(Init(signalled), actions))
    decreases |actions|
  {
    hide Next;
    hide Honest;
    if actions == [] {
      NobodyYet(signalled);
    } else {
      var before := actions[..|actions| - 1];
      OkMeansReached(signalled, before);
      NextKeepsHonest(Run(Init(signalled), before), actions[|actions| - 1]);
    }
  }

  lemma {:induction false} NobodyYet(signalled: bool)
    ensures Honest(Init(signalled)) && NoLostWakeup(Init(signalled))
  {
  }

  // ------------------------------------------------------------- no lost wakeup

  /** Whoever sleeps past its target has a wakeup: the event is set, or a signaller
      stands between its update and its KeSetEvent. */
  ghost predicate NoLostWakeup(s: Sys) {
    forall i | 0 <= i < |s.waiters| ::
      s.waiters[i].Blocked? && s.value >= s.waiters[i].target ==>
        s.event || exists k :: 0 <= k < |s.signallers| && s.signallers[k].SetEvent?
  }

  /** At most one SyncObjWait call is in progress. */
  ghost predicate OneWaiter(s: Sys) {
    forall i, j | 0 <= i < j < |s.waiters| :: s.waiters[i].Returned? || s.waiters[j].Returned?
  }

  ghost predicate AlwaysOneWaiter(s: Sys, actions: seq<Action>) {
    forall k | 0 <= k <= |actions| :: OneWaiter(Run(s, actions[..k]))
  }

  ghost predicate SomeoneSets(s: Sys) {
    exists k :: 0 <= k < |s.signallers| && s.signallers[k].SetEvent?
  }

  predicate PastTarget(w: Waiter, value: nat) {
    w.Blocked? && value >= w.target
  }

  /** A waiter's KeClearEvent while another one sleeps past its target and no
      signaller is about to set the event. */
  ghost predicate Steals(s: Sys, a: Action) {
    && a.WaiterStep? && a.i < |s.waiters| && s.waiters[a.i].Clear?
    && !SomeoneSets(s)
    && exists j :: 0 <= j < |s.waiters| && PastTarget(s.waiters[j], s.value)
  }

  lemma {:induction false} SignallerKeepsWakeups(s: Sys, j: nat)
    requires NoLostWakeup(s)
    ensures NoLostWakeup(Next(s, SignallerStep(j)))
  {
    var n := Next(s, SignallerStep(j));
    if j < |s.signallers| && s.signallers[j].Update? {
      assert n.signallers[j].SetEvent?;
    }
  }

  lemma {:induction false} CallKeepsWakeups(s: Sys, a: Action)
    requires NoLostWakeup(s) && !a.WaiterStep? && !a.SignallerStep?
    ensures NoLostWakeup(Next(s, a))
  {
    var n := Next(s, a);
    if k :| 0 <= k < |s.signallers| && s.signallers[k].SetEvent? { assert n.signallers[k].SetEvent?; }
  }

  lemma {:induction false} StealingLosesAWakeup(s: Sys, a: Action)
    requires Steals(s, a)
    ensures !NoLostWakeup(Next(s, a))
  {
    var n := Next(s, a);
    var j :| 0 <= j < |s.waiters| && PastTarget(s.waiters[j], s.value);
    assert n.waiters[j] == s.waiters[j];
  }

  lemma {:induction false} OtherWaiterStepsKeepWakeups(s: Sys, a: Action)
    requires NoLostWakeup(s) && a.WaiterStep? && !Steals(s, a)
    ensures NoLostWakeup(Next(s, a))
  {
    var n := Next(s, a);
    forall i | 0 <= i < |n.waiters| && PastTarget(n.waiters[i], n.value)
      ensures n.event || SomeoneSets(n)
    {
      assert s.waiters[i].Blocked? && PastTarget(s.waiters[i], s.value);
    }
  }

  /** A wakeup is lost by exactly one kind of step: a KeClearEvent that takes it from
      another sleeper. */
  lemma {:induction false} WakeupLostExactlyByStealing(s: Sys, a: Action)
    requires NoLostWakeup(s)
    ensures NoLostWakeup(Next(s, a)) <==> !Steals(s, a)
  {
    match a {
      case SignallerStep(i) => SignallerKeepsWakeups(s, i);
      case WaiterStep(i) =>
        hide NoLostWakeup;
        if Steals(s, a) { StealingLosesAWakeup(s, a); } else { OtherWaiterStepsKeepWakeups(s, a); }
      case _ => CallKeepsWakeups(s, a);
    }
  }

  ghost predicate NeverSteals(s: Sys, actions: seq<Action>) {
    forall k | 0 <= k < |actions| :: !Steals(Run(s, actions[..k]), actions[k])
  }

  /** In every run, with any number of waiters, in which no clear takes a wakeup from
      another sleeper, no wakeup is lost. */
  lemma {:induction false} WakeupsSurviveUnlessStolen(signalled: bool, actions: seq<Action>)
    requires NeverSteals(Init(signalled), actions)
    ensures NoLostWakeup(Run(Init(signalled), actions))
    decreases |actions|
  {
    hide Next;
    hide NoLostWakeup;
    hide Steals;
    if actions == [] {
      NobodyYet(signalled);
    } else {
      var n := |actions| - 1;
      var before := actions[..n];
      forall k | 0 <= k < n ensures !Steals(Run(Init(signalled), before[..k]), before[k]) {
        assert before[..k] == actions[..k];
      }
      WakeupsSurviveUnlessStolen(signalled, before);
      WakeupLostExactlyByStealing(Run(Init(signalled), before), actions[n]);
    }
  }

  /** As long as waits on the object come one at a time, nobody steals. */
  lemma {:induction false} WakeupsAreNeverLost(signalled: bool, actions: seq<Action>)
    requires AlwaysOneWaiter(Init(signalled), actions)
    ensures NeverSteals(Init(signalled), actions) && NoLostWakeup(Run(Init(signalled), actions))
  {
    hide NoLostWakeup;
    hide Next;
    forall k | 0 <= k < |actions| ensures !Steals(Run(Init(signalled), actions[..k]), actions[k]) {
      OneWaiterCannotSteal(Run(Init(signalled), actions[..k]), actions[k]);
    }
    WakeupsSurviveUnlessStolen(signalled, actions);
  }

  lemma {:induction false} OneWaiterCannotSteal(s: Sys, a: Action)
    requires OneWaiter(s)
    ensures !Steals(s, a)
  {
  }

  /** Once no signaller is under way, a sleeper whose target is reached returns OK in
      its next two steps, however many others wait, unless its wakeup was stolen. */
  lemma {:induction false} SettledSleeperReturns(signalled: bool, actions: seq<Action>, i: nat)
    requires NeverSteals(Init(signalled), actions)
    requires var s := Run(Init(signalled), actions);
             && i < |s.waiters| && s.waiters[i].Blocked? && s.value >= s.waiters[i].target
             && forall k | 0 <= k < |s.signallers| :: s.signallers[k].Gone?
    ensures var s := Run(Init(signalled), actions);
            Next(Next(s, WaiterStep(i)), WaiterStep(i)).waiters[i] == Returned(s.waiters[i].target, Ok)
  {
    WakeupsSurviveUnlessStolen(signalled, actions);
    var s := Run(Init(signalled), actions);
    assert s.event;
  }

  /** With two waiters the guarantee fails: the second one's KeClearEvent takes the
      wakeup the first one was due, and nobody is left to set it again. */
  const STOLEN: seq<Action> := [
    Wait(1), WaiterStep(0), WaiterStep(0), WaiterStep(0),
    Wait(2), WaiterStep(1),
    Signal(1), SignallerStep(0), SignallerStep(0),
    WaiterStep(1)]

  lemma {:induction false} FirstWaiterSleeps()
    ensures |STOLEN| == 10
    ensures Run(Init(false), STOLEN[..5]) == Sys(0, false, [Blocked(1), Check(2)], [], 0, [])
  {
    var s := Init(false);
    assert |STOLEN| == 10;
    Unfold(s, STOLEN, 0); Unfold(s, STOLEN, 1); Unfold(s, STOLEN, 2); Unfold(s, STOLEN, 3); Unfold(s, STOLEN, 4);
  }

  lemma {:induction false} TwoWaitersCanLoseAWakeup()
    ensures !NoLostWakeup(Run(Init(false), STOLEN))
    ensures var s := Run(Init(false), STOLEN);
            && |s.waiters| == 2 && s.waiters[..1] == [Blocked(1)] && s.value == 1 && !s.event && s.signallers == [Gone]
  {
    hide NoLostWakeup;
    var s := Init(false);
    FirstWaiterSleeps();
    Unfold(s, STOLEN, 5); Unfold(s, STOLEN, 6); Unfold(s, STOLEN, 7); Unfold(s, STOLEN, 8); Unfold(s, STOLEN, 9);
    assert STOLEN[..10] == STOLEN;
    LostWhen(Run(s, STOLEN));
  }

  lemma {:induction false} Unfold(s: Sys, actions: seq<Action>, k: nat)
    requires k < |actions|
    ensures Run(s, actions[..k + 1]) == Next(Run(s, actions[..k]), actions[k])
    ensures Run(s, actions[..0]) == s
  {
    assert actions[..k + 1][..k] == actions[..k];
  }

  lemma {:induction false} LostWhen(s: Sys)
    requires |s.waiters| > 0 && s.waiters[0] == Blocked(1) && s.value == 1 && !s.event && s.signallers == [Gone]
    ensures !NoLostWakeup(s)
  {
  }

  // ------------------------------------------------------------- how many waiters

  /** How many SyncObjWait calls are in progress. */
  function InProgress(ws: seq<Waiter>): (n: nat)
    ensures n <= |ws|
  {
    if ws == [] then 0 else InProgress(ws[..|ws| - 1]) + if ws[|ws| - 1].Returned? then 0 else 1
  }

  ghost predicate NeverMoreThan(s: Sys, actions: seq<Action>, n: nat) {
    forall k | 0 <= k <= |actions| :: InProgress(Run(s, actions[..k]).waiters) <= n
  }

  lemma {:induction false} TwoInProgress(ws: seq<Waiter>, i: nat, j: nat)
    requires i < j < |ws| && !ws[i].Returned? && !ws[j].Returned?
    ensures InProgress(ws) >= 2
  {
    if j == |ws| - 1 {
      OneInProgress(ws[..j], i);
    } else {
      TwoInProgress(ws[..|ws| - 1], i, j);
    }
  }

  lemma {:induction false} OneInProgress(ws: seq<Waiter>, i: nat)
    requires i < |ws| && !ws[i].Returned?
    ensures InProgress(ws) >= 1
  {
    if i < |ws| - 1 { OneInProgress(ws[..|ws| - 1], i); }
  }

  lemma {:induction false} AtMostOneIsOneWaiter(s: Sys)
    requires InProgress(s.waiters) <= 1
    ensures OneWaiter(s)
  {
    forall i, j | 0 <= i < j < |s.waiters| ensures s.waiters[i].Returned? || s.waiters[j].Returned? {
      if !s.waiters[i].Returned? && !s.waiters[j].Returned? { TwoInProgress(s.waiters, i, j); }
    }
  }

  lemma {:induction false} WaitersOnlyGrow(s: Sys, actions: seq<Action>, k: nat)
    requires k <= |actions|
    ensures |Run(s, actions[..k]).waiters| <= |Run(s, actions).waiters|
    decreases |actions|
  {
    if k < |actions| {
      var before := actions[..|actions| - 1];
      assert before[..k] == actions[..k];
      WaitersOnlyGrow(s, before, k);
    } else {
      assert actions[..k] == actions;
    }
  }

  /** The guarantee holds over all runs with at most n waits in progress at a time
      exactly when n is at most one. */
  lemma {:induction false} NoLostWakeupIffOneWaiter(n: nat)
    ensures (forall signalled, actions | NeverMoreThan(Init(signalled), actions, n) ::
               NoLostWakeup(Run(Init(signalled), actions)))
            <==> n <= 1
  {
    hide NoLostWakeup;
    hide Next;
    hide Init;
    if n <= 1 {
      forall signalled, actions | NeverMoreThan(Init(signalled), actions, n)
        ensures NoLostWakeup(Run(Init(signalled), actions))
      {
        forall k | 0 <= k <= |actions| ensures OneWaiter(Run(Init(signalled), actions[..k])) {
          AtMostOneIsOneWaiter(Run(Init(signalled), actions[..k]));
        }
        WakeupsAreNeverLost(signalled, actions);
      }
    } else {
      TwoWaitersCanLoseAWakeup();
      forall k | 0 <= k <= |STOLEN| ensures InProgress(Run(Init(false), STOLEN[..k]).waiters) <= n {
        WaitersOnlyGrow(Init(false), STOLEN, k);
      }
      assert NeverMoreThan(Init(false), STOLEN, n);
    }
  }
}
