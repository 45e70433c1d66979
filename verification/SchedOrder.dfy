/** In which order the scheduler's entries are completed, and what preempt markers
    report, in every run: with resets and with callers that complete their entry
    themselves. */
module SchedOrder {
  import opened SchedRings
  import opened Sched
  import opened Shuffles

  // ------------------------------------------------- who holds an entry

  /** How far whoever took an entry has got with it. */
  datatype Stage = Free | Reading(job: Job) | Exchanging(job: Job) | Pushing(notice: Notice)

  function StageOf(pc: Pc): Stage {
    match pc
    case InlineExchange(job) => Exchanging(job)
    case InlineRead(job) => Reading(job)
    case InlinePush(n) => Pushing(n)
    case ResetExchange(job, _) => Exchanging(job)
    case ResetPush(n) => Pushing(n)
    case _ => Free
  }

  function WorkerStage(w: WorkerPc): Stage {
    match w
    case Read(job) => Reading(job)
    case Exchange(job) => Exchanging(job)
    case Push(n) => Pushing(n)
    case _ => Free
  }

  function Hand(st: Stage): seq<Job> {
    match st
    case Free => []
    case Reading(job) => [job]
    case Exchanging(job) => [job]
    case Pushing(n) => [n.job]
  }

  datatype Holder = Nobody | TheWorker | TheThread(i: nat)

  /** Nobody but h is between taking an entry and pushing it. */
  ghost predicate OnlyHolder(s: Sys, h: Holder) {
    && (h.TheThread? ==> h.i < |s.threads|)
    && (h.TheWorker? || WorkerStage(s.worker).Free?)
    && forall i | 0 <= i < |s.threads| :: h == TheThread(i) || StageOf(s.threads[i]).Free?
  }

  function HeldStage(s: Sys, h: Holder): Stage {
    match h
    case Nobody => Free
    case TheWorker => WorkerStage(s.worker)
    case TheThread(i) => if i < |s.threads| then StageOf(s.threads[i]) else Free
  }

  ghost predicate Busy(s: Sys) {
    || !WorkerStage(s.worker).Free?
    || exists i :: 0 <= i < |s.threads| && !StageOf(s.threads[i]).Free?
  }

  // ------------------------------------------------- overlaps

  predicate FallsBack(s: Sys, pc: Pc) {
    || (pc.Check? && !(s.threadUp && !s.stop))
    || (pc.Insert? && !HasRoom(s.ring))
  }

  /** The move takes a submission off the ring, or the caller's own entry, into its hand. */
  predicate Takes(s: Sys, pc: Pc) {
    FallsBack(s, pc) || (pc.ResetTake? && s.ring != [] && !s.ring[0].isPreempt)
  }

  predicate WorkerTakes(s: Sys) { s.worker.Take? && s.ring != [] }

  /** An entry is taken while another one is still in somebody's hand, or a caller takes
      its own while others wait in the ring. */
  ghost predicate Overlaps(s: Sys, a: Action) {
    match a
    case Worker => WorkerTakes(s) && Busy(s)
    case Thread(i) =>
      i < |s.threads| && Takes(s, s.threads[i]) && (Busy(s) || (FallsBack(s, s.threads[i]) && s.ring != []))
    case _ => false
  }

  // ------------------------------------------------- the invariant

  /** Every pushed marker reports the last submission pushed before it. */
  ghost predicate MarkersExact(pushed: seq<Notice>) {
    forall i | 0 <= i < |pushed| && pushed[i].job.isPreempt :: pushed[i].last == LastReal(Jobs(pushed[..i]))
  }

  ghost predicate HandExact(st: Stage, pushed: seq<Notice>, boundary: U32) {
    match st
    case Pushing(n) =>
      if n.job.isPreempt then n.last == boundary == LastReal(Jobs(pushed)) else boundary == n.job.fence
    case Reading(job) => job.isPreempt && boundary == LastReal(Jobs(pushed))
    case Exchanging(job) => !job.isPreempt && boundary == LastReal(Jobs(pushed))
    case Free => boundary == LastReal(Jobs(pushed))
  }

  /** What the order depends on. */
  datatype Core = Core(ring: seq<Job>, boundary: U32, arrived: seq<Job>, pushed: seq<Notice>, dropped: seq<Job>)

  function CoreOf(s: Sys): Core {
    Core(s.ring, s.boundary, s.log.arrived, s.log.pushed, s.log.dropped)
  }

  /** The ring is the end of the arrivals; what came before was pushed, in this order,
      or is in hand, or was dropped. */
  ghost predicate InLine(c: Core, st: Stage) {
    && |c.ring| <= |c.arrived| && c.ring == c.arrived[|c.arrived| - |c.ring|..]
    && Shuffle(Jobs(c.pushed) + Hand(st), c.dropped, c.arrived[..|c.arrived| - |c.ring|])
    && HandExact(st, c.pushed, c.boundary)
    && MarkersExact(c.pushed)
  }

  ghost predicate Ordered(s: Sys, h: Holder) {
    OnlyHolder(s, h) && InLine(CoreOf(s), HeldStage(s, h))
  }

  // ------------------------------------------------- what the effects keep

  lemma {:induction false} PushKeepsMarkers(pushed: seq<Notice>, n: Notice)
    requires MarkersExact(pushed)
    requires n.job.isPreempt ==> n.last == LastReal(Jobs(pushed))
    ensures MarkersExact(pushed + [n])
    ensures Jobs(pushed + [n]) == Jobs(pushed) + [n.job]
    ensures LastReal(Jobs(pushed + [n])) == if n.job.isPreempt then LastReal(Jobs(pushed)) else n.job.fence
  {
    var all := pushed + [n];
    forall i | 0 <= i < |all| && all[i].job.isPreempt ensures all[i].last == LastReal(Jobs(all[..i])) {
      assert all[..i] == if i < |pushed| then pushed[..i] else pushed;
    }
    assert Jobs(all)[..|pushed|] == Jobs(pushed);
  }

  lemma {:induction false} ArriveKeeps(c: Core, st: Stage, x: Job)
    requires InLine(c, st)
    ensures InLine(c.(ring := c.ring + [x], arrived := c.arrived + [x]), st)
  {
    hide HandExact, MarkersExact, Shuffle;
    var n := |c.arrived| - |c.ring|;
    assert (c.arrived + [x])[..n] == c.arrived[..n];
  }

  function Started(x: Job): Stage {
    if x.isPreempt then Reading(x) else Exchanging(x)
  }

  lemma {:induction false} TakeKeeps(c: Core)
    requires InLine(c, Free) && c.ring != []
    ensures InLine(c.(ring := c.ring[1..]), Started(c.ring[0]))
  {
    hide MarkersExact, Shuffle;
    var n := |c.arrived| - |c.ring|;
    assert Jobs(c.pushed) + [] == Jobs(c.pushed);
    ShuffleLeft(Jobs(c.pushed), c.dropped, c.arrived[..n], c.ring[0]);
    assert c.arrived[..n + 1] == c.arrived[..n] + [c.ring[0]];
  }

  lemma {:induction false} DropKeeps(c: Core, st: Stage)
    requires InLine(c, st) && c.ring != []
    ensures InLine(c.(ring := c.ring[1..], dropped := c.dropped + [c.ring[0]]), st)
  {
    hide HandExact, MarkersExact, Shuffle;
    var n := |c.arrived| - |c.ring|;
    ShuffleRight(Jobs(c.pushed) + Hand(st), c.dropped, c.arrived[..n], c.ring[0]);
    assert c.arrived[..n + 1] == c.arrived[..n] + [c.ring[0]];
  }

  lemma {:induction false} FallKeeps(c: Core, x: Job)
    requires InLine(c, Free) && c.ring == []
    ensures InLine(c.(arrived := c.arrived + [x]), Started(x))
  {
    hide MarkersExact, Shuffle;
    assert Jobs(c.pushed) + [] == Jobs(c.pushed) && c.arrived[..|c.arrived|] == c.arrived;
    ShuffleLeft(Jobs(c.pushed), c.dropped, c.arrived, x);
    assert (c.arrived + [x])[..|c.arrived| + 1] == c.arrived + [x];
  }

  lemma {:induction false} ExchangeKeeps(c: Core, job: Job)
    requires InLine(c, Exchanging(job))
    ensures InLine(c.(boundary := job.fence), Pushing(Notice(job, 0)))
  {
    hide MarkersExact, Shuffle;
  }

  lemma {:induction false} ReadKeeps(c: Core, job: Job)
    requires InLine(c, Reading(job))
    ensures InLine(c, Pushing(Notice(job, c.boundary)))
  {
    hide MarkersExact, Shuffle;
  }

  lemma {:induction false} PushKeeps(c: Core, n: Notice)
    requires InLine(c, Pushing(n))
    ensures InLine(c.(pushed := c.pushed + [n]), Free)
  {
    hide MarkersExact, Shuffle, LastReal, Jobs;
    PushKeepsMarkers(c.pushed, n);
    assert Jobs(c.pushed + [n]) + [] == Jobs(c.pushed) + [n.job];
  }

  // ------------------------------------------------- moves

  /** A move by whoever holds an entry. */
  lemma {:induction false} BusyMove(s: Sys, pc: Pc)
    requires !StageOf(pc).Free? && InLine(CoreOf(s), StageOf(pc))
    ensures var m := Move(s, pc);
            InLine(CoreOf(m.s), StageOf(m.pc)) && m.s.worker == s.worker && m.s.threads == s.threads
  {
    hide InLine, HasRoom, PushNewest;
    match StageOf(pc) {
      case Exchanging(job) => ExchangeKeeps(CoreOf(s), job);
      case Reading(job) => ReadKeeps(CoreOf(s), job);
      case Pushing(n) => PushKeeps(CoreOf(s), n);
      case Free =>
    }
  }

  lemma {:induction false} TakingMove(s: Sys, pc: Pc)
    requires Takes(s, pc) && (FallsBack(s, pc) ==> s.ring == []) && InLine(CoreOf(s), Free)
    ensures var m := Move(s, pc);
            InLine(CoreOf(m.s), StageOf(m.pc)) && m.s.worker == s.worker && m.s.threads == s.threads
  {
    hide InLine, PushNewest;
    if FallsBack(s, pc) { FallKeeps(CoreOf(s), pc.job); } else { TakeKeeps(CoreOf(s)); }
  }

  lemma {:induction false} QuietMove(s: Sys, pc: Pc, st: Stage)
    requires StageOf(pc).Free? && !Takes(s, pc) && InLine(CoreOf(s), st)
    ensures var m := Move(s, pc);
            && InLine(CoreOf(m.s), st) && StageOf(m.pc).Free?
            && m.s.worker == s.worker && m.s.threads == s.threads
  {
    hide InLine, PushNewest;
    if pc.Insert? {
      ArriveKeeps(CoreOf(s), st, pc.job);
    } else if pc.ResetTake? && s.ring != [] {
      DropKeeps(CoreOf(s), st);
    }
  }

  lemma {:induction false} ThreadKeepsOrder(s: Sys, h: Holder, i: nat) returns (h': Holder)
    requires Ordered(s, h) && i < |s.threads| && !Overlaps(s, Thread(i))
    ensures Ordered(ThreadStep(s, i), h')
  {
    hide InLine, Move;
    var pc := s.threads[i];
    if !StageOf(pc).Free? {
      BusyMove(s, pc);
      h' := h;
    } else if Takes(s, pc) {
      hide Takes;
      assert HeldStage(s, h) == Free;
      TakingMove(s, pc);
      h' := TheThread(i);
    } else {
      hide Takes;
      QuietMove(s, pc, HeldStage(s, h));
      h' := if h == TheThread(i) then Nobody else h;
    }
  }

  lemma {:induction false} WorkerKeepsOrder(s: Sys, h: Holder) returns (h': Holder)
    requires Ordered(s, h) && !Overlaps(s, Worker)
    ensures Ordered(WorkerStep(s), h')
  {
    hide InLine, HasRoom, PushNewest;
    h' := h;
    match WorkerStage(s.worker) {
      case Exchanging(job) => ExchangeKeeps(CoreOf(s), job);
      case Reading(job) => ReadKeeps(CoreOf(s), job);
      case Pushing(n) => PushKeeps(CoreOf(s), n);
      case Free =>
        if WorkerTakes(s) {
          assert HeldStage(s, h) == Free;
          TakeKeeps(CoreOf(s));
          h' := TheWorker;
        }
    }
  }

  lemma {:induction false} CallKeepsOrder(s: Sys, h: Holder, a: Action)
    requires Ordered(s, h) && (a.Submit? || a.Reset? || a.Teardown? || a.DpcStart? || a.Dpc?)
    ensures Ordered(Next(s, a), h)
  {
    hide InLine, HasRoom, PushNewest;
    DpcLeaves(s);
    hide DpcStep, WorkerStep, Move;
    assert CoreOf(Next(s, a)) == CoreOf(s);
  }

  lemma {:induction false} NextKeepsOrder(s: Sys, h: Holder, a: Action) returns (h': Holder)
    requires Ordered(s, h) && !Overlaps(s, a)
    ensures Ordered(Next(s, a), h')
  {
    hide Ordered, ThreadStep, WorkerStep;
    match a {
      case Thread(i) => if i < |s.threads| { h' := ThreadKeepsOrder(s, h, i); } else { h' := h; }
      case Worker => h' := WorkerKeepsOrder(s, h);
      case _ =>
        hide Next;
        CallKeepsOrder(s, h, a);
        h' := h;
    }
  }

  // ------------------------------------------------- runs without overlaps

  ghost predicate Orderly(actions: seq<Action>) {
    forall k | 0 <= k < |actions| :: !Overlaps(Run(actions[..k]), actions[k])
  }

  lemma {:induction false} OrderlyPrefix(actions: seq<Action>)
    requires Orderly(actions) && actions != []
    ensures Orderly(actions[..|actions| - 1])
    ensures !Overlaps(Run(actions[..|actions| - 1]), actions[|actions| - 1])
  {
    hide Overlaps, Run;
    var before := actions[..|actions| - 1];
    forall k | 0 <= k < |before| ensures !Overlaps(Run(before[..k]), before[k]) { assert before[..k] == actions[..k]; }
  }

  lemma {:induction false} InitialOrder()
    ensures Ordered(INIT, Nobody)
  {
    assert Jobs([]) == [];
  }

  lemma {:induction false} OrderlyRunsAreOrdered(actions: seq<Action>) returns (h: Holder)
    requires Orderly(actions)
    ensures Ordered(Run(actions), h)
    decreases |actions|
  {
    hide Ordered, Next, Overlaps, Orderly;
    if actions == [] {
      InitialOrder();
      h := Nobody;
    } else {
      OrderlyPrefix(actions);
      h := OrderlyRunsAreOrdered(actions[..|actions| - 1]);
      h := NextKeepsOrder(Run(actions[..|actions| - 1]), h, actions[|actions| - 1]);
    }
  }

  /** What has been pushed is the beginning of the arrivals with the dropped ones taken out. */
  ghost predicate InArrivalOrder(s: Sys) {
    exists rest :: Shuffle(Jobs(s.log.pushed) + rest, s.log.dropped, s.log.arrived)
  }

  /** Pushed, in hand and queued entries, in this order, are the arrivals with the
      dropped ones taken out. */
  lemma {:induction false} OrderedIsArrivalOrder(s: Sys, h: Holder)
    requires Ordered(s, h)
    ensures Shuffle(Jobs(s.log.pushed) + Hand(HeldStage(s, h)) + s.ring, s.log.dropped, s.log.arrived)
    ensures InArrivalOrder(s)
  {
    hide OnlyHolder, InLine, HeldStage, Shuffle, Hand, Jobs;
    LineIsArrivalOrder(CoreOf(s), HeldStage(s, h));
    var p, rest := Jobs(s.log.pushed), Hand(HeldStage(s, h)) + s.ring;
    assert p + Hand(HeldStage(s, h)) + s.ring == p + rest;
  }

  lemma {:induction false} LineIsArrivalOrder(c: Core, st: Stage)
    requires InLine(c, st)
    ensures Shuffle(Jobs(c.pushed) + Hand(st) + c.ring, c.dropped, c.arrived)
  {
    hide HandExact, MarkersExact, Shuffle, Hand, Jobs;
    var done := c.arrived[..|c.arrived| - |c.ring|];
    ShuffleAppend(Jobs(c.pushed) + Hand(st), c.dropped, done, c.ring);
    assert done + c.ring == c.arrived;
  }

  lemma {:induction false} DroppedAreMarkers(actions: seq<Action>)
    ensures forall x | x in Run(actions).log.dropped :: x.isPreempt
  {
    forall x | x in Run(actions).log.dropped ensures x.isPreempt {
      EveryFenceIsAccounted(actions, x);
      hide Run, HeldByAll, SettledIn;
      assert Count(Run(actions).log.dropped, x) > 0;
    }
  }

  lemma {:induction false} MarkersDoNotCount(a: seq<Job>, b: seq<Job>, c: seq<Job>)
    requires Shuffle(a, b, c) && forall x | x in b :: x.isPreempt
    ensures LastReal(c) == LastReal(a)
    decreases |c|
  {
    if c != [] {
      var z, rest := c[|c| - 1], c[..|c| - 1];
      if a != [] && a[|a| - 1] == z && Shuffle(a[..|a| - 1], b, rest) {
        MarkersDoNotCount(a[..|a| - 1], b, rest);
      } else {
        assert z in b;
        MarkersDoNotCount(a, b[..|b| - 1], rest);
      }
    }
  }

  /** In every run without an overlap, resets and inline completions included: what was
      pushed, is in hand and waits in the ring is the order of arrival with the dropped
      markers taken out, and a pushed marker reports exactly the last submission that
      arrived before it, or 0. */
  lemma {:induction false} OrderlyRunsKeepOrder(actions: seq<Action>, i: nat) returns (h: Holder, j: nat)
    requires Orderly(actions) && i < |Run(actions).log.pushed|
    ensures var s := Run(actions);
            && Shuffle(Jobs(s.log.pushed) + Hand(HeldStage(s, h)) + s.ring, s.log.dropped, s.log.arrived)
            && j < |s.log.arrived| && s.log.arrived[j] == s.log.pushed[i].job
            && (s.log.pushed[i].job.isPreempt ==> s.log.pushed[i].last == LastReal(s.log.arrived[..j]))
  {
    h := OrderlyRunsAreOrdered(actions);
    DroppedAreMarkers(actions);
    var s := Run(actions);
    OrderedIsArrivalOrder(s, h);
    hide Run, Orderly, Shuffle, OnlyHolder, HandExact;
    var a := Jobs(s.log.pushed) + Hand(HeldStage(s, h)) + s.ring;
    assert a[i] == s.log.pushed[i].job && a[..i] == Jobs(s.log.pushed[..i]);
    var k;
    j, k := ShufflePlace(a, s.log.dropped, s.log.arrived, i);
    assert forall x | x in s.log.dropped[..k] :: x in s.log.dropped;
    MarkersDoNotCount(a[..i], s.log.dropped[..k], s.log.arrived[..j]);
  }

  // ------------------------------------------------- overlaps lose the order

  function ActorStage(s: Sys, a: Action): Stage {
    match a
    case Worker => WorkerStage(s.worker)
    case Thread(i) => if i < |s.threads| then StageOf(s.threads[i]) else Free
    case _ => Free
  }

  predicate TakesOwn(s: Sys, a: Action) {
    a.Thread? && a.i < |s.threads| && FallsBack(s, s.threads[a.i])
  }

  lemma {:induction false} MoveTakes(s: Sys, pc: Pc)
    requires Takes(s, pc)
    ensures var m := Move(s, pc);
            && m.s.log.pushed == s.log.pushed && m.s.log.dropped == s.log.dropped
            && (StageOf(m.pc).Reading? || StageOf(m.pc).Exchanging?)
            && (if FallsBack(s, pc) then m.s.log.arrived == s.log.arrived + [StageOf(m.pc).job]
                else s.ring != [] && m.s.log.arrived == s.log.arrived && StageOf(m.pc).job == s.ring[0])
  {
    hide PushNewest;
  }

  lemma {:induction false} MoveAdvances(s: Sys, pc: Pc)
    requires StageOf(pc).Reading? || StageOf(pc).Exchanging?
    ensures var m := Move(s, pc);
            && m.s.log == s.log && StageOf(m.pc).Pushing? && StageOf(m.pc).notice.job == StageOf(pc).job && !Takes(s, pc)
  {
    hide PushNewest, HasRoom;
  }

  lemma {:induction false} MovePushes(s: Sys, pc: Pc)
    requires StageOf(pc).Pushing?
    ensures var m := Move(s, pc);
            && m.s.log.pushed == s.log.pushed + [StageOf(pc).notice] && m.s.log.dropped == s.log.dropped
            && m.s.log.arrived == s.log.arrived && !Takes(s, pc)
  {
    hide PushNewest, HasRoom;
  }

  lemma {:induction false} ActorTakes(s: Sys, a: Action)
    requires Overlaps(s, a)
    ensures var t, st := Next(s, a), ActorStage(Next(s, a), a);
            && t.log.pushed == s.log.pushed && t.log.dropped == s.log.dropped
            && (st.Reading? || st.Exchanging?)
            && (if TakesOwn(s, a) then t.log.arrived == s.log.arrived + [st.job]
                else s.ring != [] && t.log.arrived == s.log.arrived && st.job == s.ring[0])
  {
    hide HasRoom, PushNewest;
    if a.Thread? {
      hide Takes, FallsBack;
      MoveTakes(s, s.threads[a.i]);
      hide Move;
    }
  }

  lemma {:induction false} ActorAdvances(s: Sys, a: Action)
    requires ActorStage(s, a).Reading? || ActorStage(s, a).Exchanging?
    ensures var t := Next(s, a);
            t.log == s.log && ActorStage(t, a).Pushing? && ActorStage(t, a).notice.job == ActorStage(s, a).job
    ensures !Overlaps(s, a)
  {
    hide HasRoom, PushNewest;
    if a.Thread? {
      MoveAdvances(s, s.threads[a.i]);
      hide Move, Takes;
    }
  }

  lemma {:induction false} ActorPushes(s: Sys, a: Action)
    requires ActorStage(s, a).Pushing?
    ensures var t := Next(s, a);
            && t.log.pushed == s.log.pushed + [ActorStage(s, a).notice] && t.log.dropped == s.log.dropped
            && t.log.arrived == s.log.arrived
    ensures !Overlaps(s, a)
  {
    hide HasRoom, PushNewest;
    if a.Thread? {
      MovePushes(s, s.threads[a.i]);
      hide Move, Takes;
    }
  }

  /** The rest of a run takes nothing while something is in hand. */
  ghost predicate OrderlyFrom(actions: seq<Action>, more: seq<Action>) {
    forall k | 0 <= k < |more| :: !Overlaps(Run(actions + more[..k]), more[k])
  }

  /** Whoever took an entry in an overlap can push it next. */
  lemma {:induction false} Overtake(actions: seq<Action>, a: Action)
    requires Overlaps(Run(actions), a)
    ensures OrderlyFrom(actions + [a], [a, a])
    ensures var s, t := Run(actions), Run(actions + [a] + [a, a]);
            && |t.log.pushed| == |s.log.pushed| + 1 && t.log.pushed[..|s.log.pushed|] == s.log.pushed
            && t.log.dropped == s.log.dropped
            && var x := t.log.pushed[|s.log.pushed|].job;
               if TakesOwn(s, a) then t.log.arrived == Run(actions + [a]).log.arrived == s.log.arrived + [x]
               else s.ring != [] && t.log.arrived == Run(actions + [a]).log.arrived == s.log.arrived && x == s.ring[0]
  {
    hide Run, Next, Overlaps, ActorStage, TakesOwn;
    var p0 := actions + [a];
    var p1, p2 := p0 + [a], p0 + [a] + [a];
    RunSnoc(actions, a);
    RunSnoc(p0, a);
    RunSnoc(p1, a);
    ActorTakes(Run(actions), a);
    ActorAdvances(Run(p0), a);
    ActorPushes(Run(p1), a);
    assert p0 + [a, a] == p2 && p0 + [a, a][..0] == p0 && p0 + [a, a][..1] == p1;
    forall k | 0 <= k < 2 ensures !Overlaps(Run(p0 + [a, a][..k]), [a, a][k]) {
      if k == 0 { assert [a, a][..0] == []; } else { assert [a, a][..1] == [a]; }
    }
  }

  /** Somebody is ahead of an entry taken in an overlap. */
  lemma {:induction false} SomeoneIsAhead(s: Sys, h: Holder, a: Action)
    requires OnlyHolder(s, h) && Overlaps(s, a)
    ensures TakesOwn(s, a) ==> Hand(HeldStage(s, h)) + s.ring != []
    ensures !TakesOwn(s, a) ==> Hand(HeldStage(s, h)) != []
  {
    hide HasRoom;
  }

  /** Two different beginnings cannot both be the arrival order. */
  lemma {:induction false} WrongNext(p: seq<Job>, x: Job, kept: seq<Job>, at: nat, dropped: seq<Job>, arrived: seq<Job>)
    requires NoRepeats(arrived) && Shuffle(kept, dropped, arrived)
    requires |p| < at < |kept| && kept[at] == x
    ensures forall rest :: !Shuffle(p + [x] + rest, dropped, arrived)
  {
    ShuffleNoRepeats(kept, dropped, arrived);
    forall rest ensures !Shuffle(p + [x] + rest, dropped, arrived) {
      assert (p + [x] + rest)[|p|] == x && kept[|p|] != x;
      if Shuffle(p + [x] + rest, dropped, arrived) { ShuffleUnique(kept, p + [x] + rest, dropped, arrived); }
    }
  }

  /** p pushed, hand and ring to come, but x pushed next: the caller's own entry past
      others, or the head of the ring past the one in hand. */
  lemma {:induction false} NextIsWrong(p: seq<Job>, hand: seq<Job>, ring: seq<Job>, x: Job, own: bool,
      dropped: seq<Job>, before: seq<Job>, arrived: seq<Job>)
    requires Shuffle(p + hand + ring, dropped, before) && NoRepeats(arrived)
    requires own ==> arrived == before + [x] && hand + ring != []
    requires !own ==> arrived == before && hand != [] && ring != [] && x == ring[0]
    ensures forall rest :: !Shuffle(p + [x] + rest, dropped, arrived)
  {
    hide Shuffle, NoRepeats;
    var kept := p + hand + ring;
    if own {
      ShuffleLeft(kept, dropped, before, x);
      WrongNext(p, x, kept + [x], |kept|, dropped, arrived);
    } else {
      WrongNext(p, x, kept, |p + hand|, dropped, arrived);
    }
  }

  lemma {:induction false} OverlapLosesOrder(actions: seq<Action>, a: Action)
    requires Orderly(actions) && Overlaps(Run(actions), a) && NoRepeats(Run(actions + [a]).log.arrived)
    ensures !InArrivalOrder(Run(actions + [a] + [a, a]))
  {
    hide Run, Orderly, Overlaps, TakesOwn, NoRepeats, Ordered, InArrivalOrder;
    var h := OrderlyRunsAreOrdered(actions);
    Overtake(actions, a);
    OvertakenIsOutOfOrder(Run(actions), h, a, Run(actions + [a] + [a, a]));
  }

  /** t has pushed, next after what s had, the entry taken in an overlap. */
  lemma {:induction false} OvertakenIsOutOfOrder(s: Sys, h: Holder, a: Action, t: Sys)
    requires Ordered(s, h) && Overlaps(s, a) && NoRepeats(t.log.arrived)
    requires |t.log.pushed| == |s.log.pushed| + 1 && t.log.pushed[..|s.log.pushed|] == s.log.pushed
    requires t.log.dropped == s.log.dropped
    requires var x := t.log.pushed[|s.log.pushed|].job;
             if TakesOwn(s, a) then t.log.arrived == s.log.arrived + [x]
             else s.ring != [] && t.log.arrived == s.log.arrived && x == s.ring[0]
    ensures !InArrivalOrder(t)
  {
    SomeoneIsAhead(s, h, a);
    OrderedIsArrivalOrder(s, h);
    hide Overlaps, TakesOwn, Shuffle, NoRepeats, OnlyHolder, InLine, HeldStage, Hand;
    var p, x := Jobs(s.log.pushed), t.log.pushed[|s.log.pushed|].job;
    NextIsWrong(p, Hand(HeldStage(s, h)), s.ring, x, TakesOwn(s, a), s.log.dropped, s.log.arrived, t.log.arrived);
    assert Jobs(t.log.pushed) == p + [x] by { assert t.log.pushed == s.log.pushed + [t.log.pushed[|s.log.pushed|]]; }
  }

  lemma {:induction false} OrderlyConcat(actions: seq<Action>, a: Action, more: seq<Action>)
    requires Orderly(actions) && !Overlaps(Run(actions), a) && OrderlyFrom(actions + [a], more)
    ensures Orderly(actions + [a] + more)
  {
    hide Overlaps, Run;
    var all := actions + [a] + more;
    forall k | 0 <= k < |all| ensures !Overlaps(Run(all[..k]), all[k]) {
      if k < |actions| {
        assert all[..k] == actions[..k];
      } else if k == |actions| {
        assert all[..k] == actions;
      } else {
        var m := k - |actions| - 1;
        assert all[..k] == actions + [a] + more[..m] && all[k] == more[m];
      }
    }
  }

  /** After a run without overlaps, and as long as no two arrivals are the same entry:
      all ways to go on from a step that overlap no further keep the order of arrival
      exactly when the step itself is no overlap. */
  lemma {:induction false} OrderLostExactlyByOverlap(actions: seq<Action>, a: Action)
    requires Orderly(actions) && NoRepeats(Run(actions + [a]).log.arrived)
    ensures (forall more | OrderlyFrom(actions + [a], more) :: InArrivalOrder(Run(actions + [a] + more)))
            <==> !Overlaps(Run(actions), a)
  {
    if Overlaps(Run(actions), a) {
      Overtake(actions, a);
      OverlapLosesOrder(actions, a);
      assert OrderlyFrom(actions + [a], [a, a]);
    } else {
      hide Overlaps;
      forall more | OrderlyFrom(actions + [a], more)
        ensures InArrivalOrder(Run(actions + [a] + more))
      {
        OrderlyConcat(actions, a, more);
        hide Orderly, OrderlyFrom, InArrivalOrder, Ordered;
        var h := OrderlyRunsAreOrdered(actions + [a] + more);
        OrderedIsArrivalOrder(Run(actions + [a] + more), h);
      }
    }
  }

  // ------------------------------------------------- runs without bypasses

  /** Neither the inline fallback nor a reset has been entered. */
  predicate InOrder(s: Sys) { !s.log.inlineUsed && !s.log.resetUsed }

  ghost predicate NoBypass(s: Sys) {
    && (forall i | 0 <= i < |s.threads| :: !IsInline(s.threads[i]) && !IsReset(s.threads[i]))
    && s.log.arrived == s.log.enqueued
  }

  lemma {:induction false} MoveWithoutBypass(s: Sys, pc: Pc)
    requires !IsInline(pc) && !IsReset(pc) && InOrder(Move(s, pc).s) && s.log.arrived == s.log.enqueued
    ensures var m := Move(s, pc);
            && InOrder(s) && !IsInline(m.pc) && !IsReset(m.pc) && m.s.log.arrived == m.s.log.enqueued
            && m.s.threads == s.threads && StageOf(pc).Free? && !Takes(s, pc)
  {
    hide PushNewest;
  }

  lemma {:induction false} NextWithoutBypass(s: Sys, a: Action)
    requires NoBypass(s) && InOrder(Next(s, a))
    ensures NoBypass(Next(s, a)) && !Overlaps(s, a)
  {
    WorkerLeaves(s);
    DpcLeaves(s);
    hide WorkerStep, DpcStep;
    if a.Thread? && a.i < |s.threads| {
      MoveWithoutBypass(s, s.threads[a.i]);
      hide Move, Takes;
    } else {
      hide Move, Takes, IsInline, IsReset;
      NobodyHolds(s);
    }
  }

  lemma {:induction false} NobodyHolds(s: Sys)
    requires NoBypass(s)
    ensures !(WorkerTakes(s) && Busy(s))
    ensures !IsReset(StopFlag) && !IsInline(StopFlag)
    ensures forall job :: !IsInline(Check(job)) && !IsReset(Check(job))
  {
    assert forall i | 0 <= i < |s.threads| :: StageOf(s.threads[i]).Free?;
  }

  lemma {:induction false} FlagsStay(s: Sys, a: Action)
    requires InOrder(Next(s, a))
    ensures InOrder(s)
  {
    WorkerLeaves(s);
    DpcLeaves(s);
    if a.Thread? && a.i < |s.threads| { MoveKeepsFlags(s, s.threads[a.i]); }
    hide Move, WorkerStep, DpcStep;
  }

  lemma {:induction false} MoveKeepsFlags(s: Sys, pc: Pc)
    requires InOrder(Move(s, pc).s)
    ensures InOrder(s)
  {
    hide HasRoom, PushNewest;
  }

  lemma {:induction false} PlainRunsAreOrderly(actions: seq<Action>)
    requires InOrder(Run(actions))
    ensures Orderly(actions) && NoBypass(Run(actions))
    decreases |actions|
  {
    hide Next, Overlaps, NoBypass, InOrder;
    if actions == [] {
      NobodyYet();
    } else {
      var n := |actions| - 1;
      FlagsStay(Run(actions[..n]), actions[n]);
      PlainRunsAreOrderly(actions[..n]);
      NextWithoutBypass(Run(actions[..n]), actions[n]);
      forall k | 0 <= k < |actions| ensures !Overlaps(Run(actions[..k]), actions[k]) {
        if k < n { assert actions[..n][..k] == actions[..k]; }
      }
    }
  }

  lemma {:induction false} NobodyYet()
    ensures NoBypass(INIT)
  {
  }

  ghost predicate QueueOrder(s: Sys) {
    s.log.enqueued == Jobs(s.log.pushed) + HeldByWorker(s.worker) + s.ring
  }

  lemma {:induction false} OnlyWorkerHolds(s: Sys, h: Holder)
    requires NoBypass(s) && OnlyHolder(s, h)
    ensures Hand(HeldStage(s, h)) == HeldByWorker(s.worker)
  {
  }

  /** Without inline fallback and reset completions leave in the order in which they
      were queued. */
  lemma {:induction false} PlainRunsKeepQueueOrder(actions: seq<Action>)
    requires InOrder(Run(actions))
    ensures QueueOrder(Run(actions))
  {
    PlainRunsAreOrderly(actions);
    DropsComeFromResets(actions);
    var h := OrderlyRunsAreOrdered(actions);
    var s := Run(actions);
    OrderedIsArrivalOrder(s, h);
    OnlyWorkerHolds(s, h);
    hide Run, Orderly, HeldStage, Hand, OnlyHolder, InLine;
    ShuffleWithNothing(Jobs(s.log.pushed) + Hand(HeldStage(s, h)) + s.ring, s.log.arrived);
  }

  /** ... and a marker reports exactly the last submission queued before it, or 0. */
  lemma {:induction false} CompletionsFollowQueueOrder(actions: seq<Action>, i: nat)
    requires InOrder(Run(actions)) && i < |Run(actions).log.pushed|
    ensures var s := Run(actions);
            && QueueOrder(s) && i < |s.log.enqueued|
            && s.log.pushed[i].job == s.log.enqueued[i]
            && (s.log.pushed[i].job.isPreempt ==> s.log.pushed[i].last == LastReal(s.log.enqueued[..i]))
  {
    PlainRunsKeepQueueOrder(actions);
    PlainRunsAreOrderly(actions);
    var h := OrderlyRunsAreOrdered(actions);
    var s := Run(actions);
    hide Run, Orderly, OnlyHolder, HandExact, Shuffle;
    assert MarkersExact(s.log.pushed);
    assert s.log.enqueued[..i] == Jobs(s.log.pushed[..i]);
  }

  /** The first completion is not the first arrival. */
  lemma {:induction false} FirstIsWrong(s: Sys)
    requires s.log.dropped == [] && s.log.pushed != [] && s.log.arrived != []
    requires s.log.pushed[0].job != s.log.arrived[0]
    ensures !InArrivalOrder(s)
  {
    hide Shuffle;
    forall rest ensures !Shuffle(Jobs(s.log.pushed) + rest, s.log.dropped, s.log.arrived) {
      assert (Jobs(s.log.pushed) + rest)[0] == s.log.pushed[0].job;
      if Shuffle(Jobs(s.log.pushed) + rest, s.log.dropped, s.log.arrived) {
        ShuffleWithNothing(Jobs(s.log.pushed) + rest, s.log.arrived);
      }
    }
  }

  /** One entry queued, and the stop flag set before the worker took it. */
  lemma {:induction false} StoppedWithOneQueued(j: Job) returns (actions: seq<Action>, s: Sys)
    ensures Run(actions) == s
    ensures s.ring == [j] && s.threads == [Wake, StopWake] && s.stop && s.worker == Waiting && s.boundary == 0
    ensures s.log == Log([j], [j], [j], [], [], [], 0, false, false)
  {
    hide Run, PushNewest;
    actions, s := Then([], Run([]), Submit(j));
    assert Run([]) == INIT by { RunStart(); }
    actions, s := Then(actions, s, Thread(0));
    actions, s := Then(actions, s, Thread(0));
    assert s.ring == [j] && s.threads == [Wake] && s.threadUp && s.worker == Waiting && s.boundary == 0;
    assert s.log == Log([j], [j], [j], [], [], [], 0, false, false);
    actions, s := Then(actions, s, Teardown);
    actions, s := Then(actions, s, Thread(1));
  }

  /** With an inline fallback the order can break: a caller that finds the
      scheduler stopping completes its fence before one already queued. */
  lemma {:induction false} InlineFallbackOvertakes() returns (actions: seq<Action>)
    ensures var s := Run(actions);
            && !s.log.resetUsed && s.log.dropped == []
            && s.log.arrived == [Job(1, 0, 0, false), Job(2, 0, 0, false)]
            && s.log.enqueued == [Job(1, 0, 0, false)] && HeldByWorker(s.worker) == []
            && s.ring == [Job(1, 0, 0, false)] && Jobs(s.log.pushed) == [Job(2, 0, 0, false)]
            && !InArrivalOrder(s)
  {
    hide Run, PushNewest, InArrivalOrder;
    var j1, j2 := Job(1, 0, 0, false), Job(2, 0, 0, false);
    var s;
    actions, s := StoppedWithOneQueued(j1);
    actions, s := Then(actions, s, Submit(j2));
    actions, s := Then(actions, s, Thread(2));
    assert s.threads == [Wake, StopWake, InlineExchange(j2)];
    actions, s := Then(actions, s, Thread(2));
    actions, s := Then(actions, s, Thread(2));
    assert s.log.pushed == [Notice(j2, 0)];
    FirstIsWrong(s);
  }

  lemma {:induction false} OneQueued(j: Job) returns (actions: seq<Action>, s: Sys)
    ensures Run(actions) == s
    ensures s.ring == [j] && s.threads == [Finished] && s.wake && s.worker == Waiting && !s.stop && s.threadUp
    ensures s.boundary == 0 && s.log == Log([j], [j], [j], [], [], [], 0, false, false)
  {
    hide Run, PushNewest;
    actions, s := Then([], Run([]), Submit(j));
    assert Run([]) == INIT by { RunStart(); }
    actions, s := Then(actions, s, Thread(0));
    actions, s := Then(actions, s, Thread(0));
    actions, s := Then(actions, s, Thread(0));
  }

  lemma {:induction false} TwoQueued(j1: Job, j2: Job) returns (actions: seq<Action>, s: Sys)
    ensures Run(actions) == s
    ensures s.ring == [j1, j2] && s.threads == [Finished, Wake] && s.wake && s.worker == Waiting && !s.stop
    ensures s.boundary == 0 && s.log == Log([j1, j2], [j1, j2], [j1, j2], [], [], [], 0, false, false)
  {
    hide Run, PushNewest;
    actions, s := OneQueued(j1);
    actions, s := Then(actions, s, Submit(j2));
    actions, s := Then(actions, s, Thread(1));
    actions, s := Then(actions, s, Thread(1));
  }

  /** The worker has taken the first of two entries. */
  lemma {:induction false} WorkerHoldsFirst(j1: Job, j2: Job) returns (actions: seq<Action>, s: Sys)
    requires !j1.isPreempt
    ensures Run(actions) == s
    ensures s.ring == [j2] && s.threads == [Finished, Wake] && s.worker == Exchange(j1)
    ensures s.log == Log([j1, j2], [j1, j2], [j1, j2], [], [], [], 0, false, false)
  {
    hide Run, PushNewest;
    actions, s := TwoQueued(j1, j2);
    actions, s := Then(actions, s, Worker);
    actions, s := Then(actions, s, Worker);
    actions, s := Then(actions, s, Worker);
  }

  /** A reset overtakes a fence the worker has already taken. */
  lemma {:induction false} ResetOvertakes() returns (actions: seq<Action>)
    ensures var s := Run(actions);
            && !s.log.inlineUsed && s.log.dropped == []
            && s.log.arrived == s.log.enqueued == [Job(1, 0, 0, false), Job(2, 0, 0, false)]
            && s.worker == Exchange(Job(1, 0, 0, false)) && s.ring == [] && Jobs(s.log.pushed) == [Job(2, 0, 0, false)]
            && !InArrivalOrder(s)
  {
    hide Run, PushNewest, InArrivalOrder;
    var j1, j2 := Job(1, 0, 0, false), Job(2, 0, 0, false);
    var s;
    actions, s := WorkerHoldsFirst(j1, j2);
    actions, s := Then(actions, s, Reset);
    actions, s := Then(actions, s, Thread(2));
    assert s.threads == [Finished, Wake, ResetExchange(j2, false)];
    actions, s := Then(actions, s, Thread(2));
    actions, s := Then(actions, s, Thread(2));
    assert s.log.pushed[0].job == j2;
    FirstIsWrong(s);
  }

  /** The run uses no call it may not. */
  predicate Within(s: Sys, inlineOk: bool, resetOk: bool) {
    (s.log.inlineUsed ==> inlineOk) && (s.log.resetUsed ==> resetOk)
  }

  /** All runs that may use the inline fallback, or resets, or both, complete in the
      order of arrival exactly when they may use neither. */
  lemma {:induction false} ArrivalOrderIffNoBypass(inlineOk: bool, resetOk: bool)
    ensures (forall actions | Within(Run(actions), inlineOk, resetOk) :: InArrivalOrder(Run(actions)))
            <==> !inlineOk && !resetOk
  {
    hide Run, InArrivalOrder;
    if !inlineOk && !resetOk {
      forall actions | Within(Run(actions), inlineOk, resetOk) ensures InArrivalOrder(Run(actions)) {
        PlainRunsAreOrderly(actions);
        hide Orderly, Ordered;
        var h := OrderlyRunsAreOrdered(actions);
        OrderedIsArrivalOrder(Run(actions), h);
      }
    } else if inlineOk {
      var actions := InlineFallbackOvertakes();
      assert Within(Run(actions), inlineOk, resetOk);
    } else {
      var actions := ResetOvertakes();
      assert Within(Run(actions), inlineOk, resetOk);
    }
  }
}
