/** The asynchronous submit scheduler as a transition system: any number of
    threads in SubmitCommand, PreemptCommand, ResetEngine and SchedTeardown, the
    worker thread and the DPC, interleaved at every lock section, interlocked
    operation, event operation and callback. The rings are those of SchedRings. */
module Sched {
  import opened SchedRings

  /** Where a thread stands; each case names what it will do next. */
  datatype Pc =
    | Check(job: Job)                       // Enqueue: is there a worker, was stop requested?
    | Insert(job: Job)                      // Enqueue: the lock section
    | Wake                                  // Enqueue: KeSetEvent
    | InlineExchange(job: Job)              // no room or no worker, a submission: NOP job, then set the boundary
    | InlineRead(job: Job)                  // no room or no worker, a marker: read the boundary
    | InlinePush(notice: Notice)
    | InlineDpc
    | ResetTake(drained: bool)              // ResetEngine: the lock section
    | ResetExchange(job: Job, drained: bool)
    | ResetPush(notice: Notice)
    | ResetDpc
    | StopFlag                              // SchedTeardown
    | StopWake
    | StopJoin
    | Finished

  datatype WorkerPc =
    | Waiting | CheckStop | Take
    | Read(job: Job) | Exchange(job: Job) | Push(notice: Notice) | QueueDpc
    | Exited

  datatype DpcPc = Idle | Taking | Notifying(notice: Notice) | Completing(notice: Notice)

  /** What happened so far: calls made, entries that went through the submit
      ring, entries in the order in which they entered the ring or a caller took them
      to complete them itself, entries pushed to the completion ring, notifications delivered,
      markers dropped by a reset, and entries lost to a full completion ring. */
  datatype Log = Log(
    submitted: seq<Job>, enqueued: seq<Job>, arrived: seq<Job>, pushed: seq<Notice>, notified: seq<Notice>,
    dropped: seq<Job>, overwritten: nat, inlineUsed: bool, resetUsed: bool)

  datatype Sys = Sys(
    ring: seq<Job>, wake: bool, stop: bool, threadUp: bool, boundary: U32,
    worker: WorkerPc, threads: seq<Pc>,
    fences: seq<Notice>, dpcQueued: bool, dpc: DpcPc, completed: U32,
    log: Log)

  /** State after WinMaliSchedInit */
  const INIT: Sys := Sys([], false, false, true, 0, Waiting, [], [], false, Idle, 0, Log([], [], [], [], [], [], 0, false, false))

  datatype Action =
    | Submit(job: Job)        // a new call of SubmitCommand[Virtual] or PreemptCommand
    | Reset                   // a new call of ResetEngine
    | Teardown                // a new call of SchedTeardown
    | Thread(i: nat)
    | Worker
    | DpcStart                // the DPC runs; nothing forbids a spurious run
    | Dpc

  /** WinMaliSchedPushFence_ */
  function PushFence(s: Sys, n: Notice): Sys {
    s.(fences := PushNewest(s.fences, n),
       log := s.log.(pushed := s.log.pushed + [n],
                     overwritten := if HasRoom(s.fences) then s.log.overwritten else s.log.overwritten + 1))
  }

  /** The effect of one step of a thread on the shared state, and where the thread goes. */
  datatype Moved = Moved(s: Sys, pc: Pc)

  function Arrive(log: Log, job: Job): Log {
    log.(enqueued := log.enqueued + [job], arrived := log.arrived + [job])
  }

  function FallBack(s: Sys, job: Job): Moved {
    Moved(s.(log := s.log.(inlineUsed := true, arrived := s.log.arrived + [job])),
          if job.isPreempt then InlineRead(job) else InlineExchange(job))
  }

  function Move(s: Sys, pc: Pc): Moved {
    match pc
    // WinMaliSchedEnqueue_
    case Check(job) => if s.threadUp && !s.stop then Moved(s, Insert(job)) else FallBack(s, job)
    case Insert(job) =>
      if HasRoom(s.ring) then Moved(s.(ring := s.ring + [job], log := Arrive(s.log, job)), Wake)
      else FallBack(s, job)
    case Wake => Moved(s.(wake := true), Finished)
    // SubmitCommand and PreemptCommand when Enqueue returned FALSE
    case InlineExchange(job) => Moved(s.(boundary := job.fence), InlinePush(Notice(job, 0)))
    case InlineRead(job) => Moved(s, InlinePush(Notice(job, s.boundary)))
    case InlinePush(n) => Moved(PushFence(s, n), InlineDpc)
    case InlineDpc => Moved(s.(dpcQueued := true), Finished)
    // WinMaliKmdResetEngine
    case ResetTake(drained) =>
      if s.ring == [] then Moved(s, if drained then ResetDpc else Finished)
      else if s.ring[0].isPreempt
      then Moved(s.(ring := s.ring[1..], log := s.log.(dropped := s.log.dropped + [s.ring[0]])), pc)
      else Moved(s.(ring := s.ring[1..]), ResetExchange(s.ring[0], drained))
    case ResetExchange(job, _) => Moved(s.(boundary := job.fence), ResetPush(Notice(job, 0)))
    case ResetPush(n) => Moved(PushFence(s, n), ResetTake(true))
    case ResetDpc => Moved(s.(dpcQueued := true), Finished)
    // WinMaliSchedTeardown
    case StopFlag => Moved(s.(stop := true), StopWake)
    case StopWake => Moved(s.(wake := true), StopJoin)
    case StopJoin => if s.worker.Exited? then Moved(s.(threadUp := false), Finished) else Moved(s, pc)
    case Finished => Moved(s, pc)
  }

  function ThreadStep(s: Sys, i: nat): Sys
    requires i < |s.threads|
  {
    var m := Move(s, s.threads[i]);
    m.s.(threads := s.threads[i := m.pc])
  }

  /** WinMaliSchedWorker_ */
  function WorkerStep(s: Sys): Sys {
    match s.worker
    case Waiting => if s.wake then s.(wake := false, worker := CheckStop) else s
    case CheckStop => s.(worker := if s.stop then Exited else Take)
    case Take =>
      if s.ring == [] then s.(worker := Waiting)
      else
        var job := s.ring[0];
        s.(ring := s.ring[1..], worker := if job.isPreempt then Read(job) else Exchange(job))
    case Read(job) => s.(worker := Push(Notice(job, s.boundary)))
    case Exchange(job) => s.(worker := Push(Notice(job, 0)), boundary := job.fence)
    case Push(n) => PushFence(s.(worker := QueueDpc), n)
    case QueueDpc => s.(worker := Take, dpcQueued := true)
    case Exited => s
  }

  /** WinMaliKmdDpcRoutine */
  function DpcStep(s: Sys): Sys {
    match s.dpc
    case Idle => s
    case Taking =>
      if s.fences == [] then s.(dpc := Idle)
      else s.(dpc := Notifying(s.fences[0]), fences := s.fences[1..])
    case Notifying(n) =>
      s.(dpc := if n.job.isPreempt then Taking else Completing(n), log := s.log.(notified := s.log.notified + [n]))
    case Completing(n) => s.(dpc := Taking, completed := n.job.fence)
  }

  function Next(s: Sys, a: Action): Sys {
    match a
    case Submit(job) => s.(threads := s.threads + [Check(job)], log := s.log.(submitted := s.log.submitted + [job]))
    case Reset => s.(threads := s.threads + [ResetTake(false)], log := s.log.(resetUsed := true))
    case Teardown => s.(threads := s.threads + [StopFlag])
    case Thread(i) => if i < |s.threads| then ThreadStep(s, i) else s
    case Worker => WorkerStep(s)
    case DpcStart => if s.dpc.Idle? then s.(dpc := Taking, dpcQueued := false) else s
    case Dpc => DpcStep(s)
  }

  ghost function Run(actions: seq<Action>): Sys
    decreases |actions|
  {
    if actions == [] then INIT else Next(Run(actions[..|actions| - 1]), actions[|actions| - 1])
  }

  // ------------------------------------------------- 1. nothing lost, nothing twice

  function HeldBy(pc: Pc): seq<Job> {
    match pc
    case Check(job) => [job]
    case Insert(job) => [job]
    case InlineExchange(job) => [job]
    case InlineRead(job) => [job]
    case InlinePush(n) => [n.job]
    case ResetExchange(job, _) => [job]
    case ResetPush(n) => [n.job]
    case _ => []
  }

  function HeldByWorker(pc: WorkerPc): seq<Job> {
    match pc
    case Read(job) => [job]
    case Exchange(job) => [job]
    case Push(n) => [n.job]
    case _ => []
  }

  function Jobs(ns: seq<Notice>): (js: seq<Job>)
    ensures |js| == |ns| && forall i | 0 <= i < |ns| :: js[i] == ns[i].job
  {
    seq(|ns|, i requires 0 <= i < |ns| => ns[i].job)
  }

  function Count(q: seq<Job>, x: Job): nat {
    multiset(q)[x]
  }

  function HeldByAll(pcs: seq<Pc>, x: Job): nat {
    if pcs == [] then 0 else HeldByAll(pcs[..|pcs| - 1], x) + Count(HeldBy(pcs[|pcs| - 1]), x)
  }

  lemma {:induction false} HeldUpdate(pcs: seq<Pc>, i: nat, pc: Pc, x: Job)
    requires i < |pcs|
    ensures HeldByAll(pcs[i := pc], x) == HeldByAll(pcs, x) - Count(HeldBy(pcs[i]), x) + Count(HeldBy(pc), x)
    decreases |pcs|
  {
    hide HeldBy, Count;
    var n := |pcs| - 1;
    if i == n {
      assert pcs[i := pc][..n] == pcs[..n];
    } else {
      HeldUpdate(pcs[..n], i, pc, x);
      assert pcs[i := pc][..n] == pcs[..n][i := pc];
    }
  }

  lemma {:induction false} HeldAppend(pcs: seq<Pc>, pc: Pc, x: Job)
    ensures HeldByAll(pcs + [pc], x) == HeldByAll(pcs, x) + Count(HeldBy(pc), x)
  {
  }

  lemma {:induction false} CountCons(q: seq<Job>, x: Job)
    requires q != []
    ensures Count(q, x) == Count([q[0]], x) + Count(q[1..], x)
  {
    assert q == [q[0]] + q[1..];
  }

  lemma {:induction false} CountSnoc(q: seq<Job>, y: Job, x: Job)
    ensures Count(q + [y], x) == Count(q, x) + Count([y], x)
  {
  }

  lemma {:induction false} CountPushed(ns: seq<Notice>, n: Notice, x: Job)
    ensures Count(Jobs(ns + [n]), x) == Count(Jobs(ns), x) + Count([n.job], x)
  {
    assert Jobs(ns + [n]) == Jobs(ns) + [n.job];
  }

  /** Where x is, threads aside: queued, held by the worker, pushed, or dropped by a reset. */
  function Settled(ring: seq<Job>, hand: seq<Job>, pushed: seq<Notice>, dropped: seq<Job>, x: Job): nat {
    Count(ring, x) + Count(hand, x) + Count(Jobs(pushed), x) + Count(dropped, x)
  }

  function SettledIn(s: Sys, x: Job): nat {
    Settled(s.ring, HeldByWorker(s.worker), s.log.pushed, s.log.dropped, x)
  }

  /** As often as x was submitted it is held by a thread or settled, and only markers are dropped. */
  ghost predicate Accounted(s: Sys, x: Job) {
    && Count(s.log.submitted, x) == HeldByAll(s.threads, x) + SettledIn(s, x)
    && (Count(s.log.dropped, x) > 0 ==> x.isPreempt)
  }

  lemma {:induction false} CountOne(y: Job, x: Job)
    ensures Count([y], x) == if x == y then 1 else 0
    ensures Count([], x) == 0
  {
  }

  /** The head of the ring dropped, or taken by whoever resets. */
  lemma {:induction false} HeadBalances(ring: seq<Job>, hand: seq<Job>, pushed: seq<Notice>, dropped: seq<Job>, x: Job)
    requires ring != []
    ensures Settled(ring[1..], hand, pushed, dropped + [ring[0]], x) == Settled(ring, hand, pushed, dropped, x)
    ensures Settled(ring[1..], hand, pushed, dropped, x) + Count([ring[0]], x) == Settled(ring, hand, pushed, dropped, x)
    ensures Count(dropped + [ring[0]], x) > 0 && Count(dropped, x) == 0 ==> x == ring[0]
  {
    hide Jobs, Count;
    CountCons(ring, x);
    CountSnoc(dropped, ring[0], x);
    CountOne(ring[0], x);
  }

  lemma {:induction false} TakeBalances(s: Sys, drained: bool, x: Job)
    ensures var m := Move(s, ResetTake(drained));
            && SettledIn(m.s, x) + Count(HeldBy(m.pc), x) == SettledIn(s, x)
            && (Count(s.log.dropped, x) == 0 && Count(m.s.log.dropped, x) > 0 ==> x.isPreempt)
  {
    hide Jobs, Count, HeldByWorker, Settled, PushFence, HasRoom;
    CountOne(x, x);
    if s.ring != [] { HeadBalances(s.ring, HeldByWorker(s.worker), s.log.pushed, s.log.dropped, x); }
  }

  lemma {:induction false} PushBalances(ring: seq<Job>, hand: seq<Job>, pushed: seq<Notice>, dropped: seq<Job>,
      n: Notice, x: Job)
    ensures Settled(ring, hand, pushed + [n], dropped, x) == Settled(ring, hand, pushed, dropped, x) + Count([n.job], x)
  {
    hide Jobs, Count;
    CountPushed(pushed, n, x);
  }

  lemma {:induction false} InsertBalances(ring: seq<Job>, hand: seq<Job>, pushed: seq<Notice>, dropped: seq<Job>,
      job: Job, x: Job)
    ensures Settled(ring + [job], hand, pushed, dropped, x) == Settled(ring, hand, pushed, dropped, x) + Count([job], x)
  {
  }

  lemma {:induction false} MoveBalances(s: Sys, pc: Pc, x: Job)
    ensures var m := Move(s, pc);
            && SettledIn(m.s, x) + Count(HeldBy(m.pc), x) == SettledIn(s, x) + Count(HeldBy(pc), x)
            && m.s.log.submitted == s.log.submitted
            && (Count(s.log.dropped, x) == 0 && Count(m.s.log.dropped, x) > 0 ==> x.isPreempt)
  {
    CountOne(x, x);
    if pc.ResetTake? {
      hide Settled, Count, HeldByWorker, HasRoom;
      TakeBalances(s, pc.drained, x);
    } else if pc.Insert? || pc.InlinePush? || pc.ResetPush? {
      hide Settled, Count, HeldByWorker, HasRoom, PushNewest;
      match pc {
        case Insert(job) => InsertBalances(s.ring, HeldByWorker(s.worker), s.log.pushed, s.log.dropped, job, x);
        case InlinePush(n) => PushBalances(s.ring, HeldByWorker(s.worker), s.log.pushed, s.log.dropped, n, x);
        case ResetPush(n) => PushBalances(s.ring, HeldByWorker(s.worker), s.log.pushed, s.log.dropped, n, x);
      }
    } else {
      hide Move, Settled, Count, HeldByWorker, HeldBy;
      MoveHoldsOn(s, pc);
    }
  }

  /** What the accounting depends on. */
  datatype Holdings = Holdings(ring: seq<Job>, worker: WorkerPc, submitted: seq<Job>, pushed: seq<Notice>, dropped: seq<Job>)

  function HoldingsOf(s: Sys): Holdings {
    Holdings(s.ring, s.worker, s.log.submitted, s.log.pushed, s.log.dropped)
  }

  lemma {:induction false} MoveHoldsOn(s: Sys, pc: Pc)
    requires !pc.ResetTake? && !pc.Insert? && !pc.InlinePush? && !pc.ResetPush?
    ensures HoldingsOf(Move(s, pc).s) == HoldingsOf(s) && HeldBy(Move(s, pc).pc) == HeldBy(pc)
  {
    hide HasRoom, PushNewest;
    match pc {
      case Check(_) => case Wake => case InlineExchange(_) => case InlineRead(_) => case InlineDpc =>
      case ResetExchange(_, _) => case ResetDpc => case StopFlag => case StopWake => case StopJoin =>
      case Finished =>
    }
  }

  lemma {:induction false} ThreadStepAccounts(s: Sys, i: nat, x: Job)
    requires Accounted(s, x) && i < |s.threads|
    ensures Accounted(ThreadStep(s, i), x)
  {
    hide HeldByAll, HeldBy, Settled, Count, Move;
    MoveBalances(s, s.threads[i], x);
    HeldUpdate(s.threads, i, Move(s, s.threads[i]).pc, x);
  }

  lemma {:induction false} HandBalances(ring: seq<Job>, pushed: seq<Notice>, dropped: seq<Job>, x: Job)
    requires ring != []
    ensures Settled(ring[1..], [ring[0]], pushed, dropped, x) == Settled(ring, [], pushed, dropped, x)
  {
    hide Jobs, Count;
    CountCons(ring, x);
    CountOne(x, x);
  }

  lemma {:induction false} ReleaseBalances(ring: seq<Job>, pushed: seq<Notice>, n: Notice, dropped: seq<Job>, x: Job)
    ensures Settled(ring, [], pushed + [n], dropped, x) == Settled(ring, [n.job], pushed, dropped, x)
  {
    hide Jobs, Count;
    CountPushed(pushed, n, x);
    CountOne(x, x);
  }

  /** What the accounting of an entry depends on. */
  datatype Ledger = Ledger(threads: seq<Pc>, ring: seq<Job>, hand: seq<Job>,
                           submitted: seq<Job>, pushed: seq<Notice>, dropped: seq<Job>)

  function LedgerOf(s: Sys): Ledger {
    Ledger(s.threads, s.ring, HeldByWorker(s.worker), s.log.submitted, s.log.pushed, s.log.dropped)
  }

  lemma {:induction false} SameLedger(s: Sys, t: Sys, x: Job)
    requires Accounted(s, x) && LedgerOf(t) == LedgerOf(s)
    ensures Accounted(t, x)
  {
    hide HeldByAll, Count, Settled, HeldByWorker;
  }

  /** The worker moves an entry only when it pushes one or takes one off the ring. */
  lemma {:induction false} WorkerMovesNothing(s: Sys)
    requires !s.worker.Push? && !(s.worker.Take? && s.ring != [])
    ensures LedgerOf(WorkerStep(s)) == LedgerOf(s)
  {
    hide PushFence;
    match s.worker {
      case Waiting => case CheckStop => case Take => case Read(_) => case Exchange(_) =>
      case QueueDpc => case Exited =>
    }
  }

  lemma {:induction false} PushAccounts(s: Sys, n: Notice, x: Job)
    requires Accounted(s, x) && s.worker == Push(n)
    ensures Accounted(WorkerStep(s), x)
  {
    hide HeldByAll, Count, PushNewest, HasRoom, Settled;
    ReleaseBalances(s.ring, s.log.pushed, n, s.log.dropped, x);
  }

  lemma {:induction false} TakeAccounts(s: Sys, x: Job)
    requires Accounted(s, x) && s.worker == Take && s.ring != []
    ensures Accounted(WorkerStep(s), x)
  {
    hide HeldByAll, Count, PushFence, Settled;
    HandBalances(s.ring, s.log.pushed, s.log.dropped, x);
  }

  lemma {:induction false} WorkerStepAccounts(s: Sys, x: Job)
    requires Accounted(s, x)
    ensures Accounted(WorkerStep(s), x)
  {
    hide Accounted, WorkerStep, LedgerOf;
    if s.worker.Push? {
      PushAccounts(s, s.worker.notice, x);
    } else if s.worker.Take? && s.ring != [] {
      TakeAccounts(s, x);
    } else {
      WorkerMovesNothing(s);
      SameLedger(s, WorkerStep(s), x);
    }
  }

  lemma {:induction false} CallAccounts(s: Sys, a: Action, x: Job)
    requires Accounted(s, x) && (a.Submit? || a.Reset? || a.Teardown?)
    ensures Accounted(Next(s, a), x)
  {
    hide HeldByAll, Settled, Count;
    CountOne(x, x);
    match a
    case Submit(job) =>
      HeldAppend(s.threads, Check(job), x);
      CountSnoc(s.log.submitted, job, x);
    case Reset => HeldAppend(s.threads, ResetTake(false), x);
    case Teardown => HeldAppend(s.threads, StopFlag, x);
  }

  lemma {:induction false} DpcStepAccounts(s: Sys, x: Job)
    requires Accounted(s, x)
    ensures Accounted(DpcStep(s), x)
  {
    hide HeldByAll, Settled, Count, HeldByWorker;
  }

  lemma {:induction false} NextAccounts(s: Sys, a: Action, x: Job)
    requires Accounted(s, x)
    ensures Accounted(Next(s, a), x)
  {
    match a
    case Submit(job) => CallAccounts(s, a, x);
    case Reset => CallAccounts(s, a, x);
    case Teardown => CallAccounts(s, a, x);
    case Thread(i) => if i < |s.threads| { hide ThreadStep, Accounted; ThreadStepAccounts(s, i, x); }
    case Worker => hide WorkerStep, Accounted; WorkerStepAccounts(s, x);
    case DpcStart =>
    case Dpc => hide DpcStep, Accounted; DpcStepAccounts(s, x);
  }

  /** In every interleaving: a fence is completed at most once per submission,
      it does not vanish before it is pushed, and only markers are ever dropped. */
  lemma {:induction false} EveryFenceIsAccounted(actions: seq<Action>, x: Job)
    ensures Accounted(Run(actions), x)
    decreases |actions|
  {
    if actions != [] {
      EveryFenceIsAccounted(actions[..|actions| - 1], x);
      hide Accounted, Next;
      NextAccounts(Run(actions[..|actions| - 1]), actions[|actions| - 1], x);
    }
  }

  predicate IsInline(pc: Pc) { pc.InlineExchange? || pc.InlineRead? || pc.InlinePush? || pc.InlineDpc? }
  predicate IsReset(pc: Pc) { pc.ResetTake? || pc.ResetExchange? || pc.ResetPush? || pc.ResetDpc? }

  ghost predicate ResetsLogged(s: Sys) {
    s.log.resetUsed || (s.log.dropped == [] && forall i | 0 <= i < |s.threads| :: !IsReset(s.threads[i]))
  }

  lemma {:induction false} MoveOutsideReset(s: Sys, pc: Pc)
    requires !IsReset(pc)
    ensures var m := Move(s, pc); !IsReset(m.pc) && m.s.log.dropped == s.log.dropped && m.s.log.resetUsed == s.log.resetUsed
  {
    hide HasRoom, PushNewest;
  }

  lemma {:induction false} NextLogsResets(s: Sys, a: Action)
    requires ResetsLogged(s)
    ensures ResetsLogged(Next(s, a))
  {
    WorkerLeaves(s);
    DpcLeaves(s);
    hide Move, IsReset, WorkerStep, DpcStep;
    if a.Thread? && a.i < |s.threads| {
      ResetIsSticky(s, s.threads[a.i]);
      if !s.log.resetUsed { MoveOutsideReset(s, s.threads[a.i]); }
    } else if a.Reset? || a.Submit? || a.Teardown? {
      NewCallLogsResets(s, a);
    }
  }

  lemma {:induction false} NewCallLogsResets(s: Sys, a: Action)
    requires ResetsLogged(s) && (a.Reset? || a.Submit? || a.Teardown?)
    ensures ResetsLogged(Next(s, a))
  {
    hide Move, WorkerStep, DpcStep;
  }

  /** What the worker has nothing to do with. */
  lemma {:induction false} WorkerLeaves(s: Sys)
    ensures var t := WorkerStep(s);
            && t.threads == s.threads && t.log.arrived == s.log.arrived && t.log.enqueued == s.log.enqueued
            && t.log.dropped == s.log.dropped && t.log.inlineUsed == s.log.inlineUsed && t.log.resetUsed == s.log.resetUsed
  {
    hide HasRoom, PushNewest;
    match s.worker {
      case Waiting => case CheckStop => case Take => case Read(_) => case Exchange(_) => case Push(_) =>
      case QueueDpc => case Exited =>
    }
  }

  /** What the DPC has nothing to do with. */
  lemma {:induction false} DpcLeaves(s: Sys)
    ensures var t := DpcStep(s);
            && t.threads == s.threads && t.worker == s.worker && t.ring == s.ring && t.boundary == s.boundary
            && t.log == s.log.(notified := t.log.notified)
  {
  }

  lemma {:induction false} ResetIsSticky(s: Sys, pc: Pc)
    ensures s.log.resetUsed ==> Move(s, pc).s.log.resetUsed
  {
    hide HasRoom, PushNewest;
  }

  /** Only a reset discards a marker. */
  lemma {:induction false} DropsComeFromResets(actions: seq<Action>)
    ensures ResetsLogged(Run(actions))
    decreases |actions|
  {
    if actions != [] {
      DropsComeFromResets(actions[..|actions| - 1]);
      hide ResetsLogged, Next;
      NextLogsResets(Run(actions[..|actions| - 1]), actions[|actions| - 1]);
    }
  }

  // ------------------------------------------------- runs step by step

  /** The last submission among jobs, or 0. */
  function LastReal(jobs: seq<Job>): U32 {
    if jobs == [] then 0
    else if jobs[|jobs| - 1].isPreempt then LastReal(jobs[..|jobs| - 1])
    else jobs[|jobs| - 1].fence
  }

  lemma {:induction false} RunSnoc(actions: seq<Action>, a: Action)
    ensures Run(actions + [a]) == Next(Run(actions), a)
  {
  }

  /** Continue a run from a known state. */
  lemma {:induction false} Then(actions: seq<Action>, s: Sys, a: Action) returns (more: seq<Action>, t: Sys)
    requires Run(actions) == s
    ensures more == actions + [a] && Run(more) == t == Next(s, a)
  {
    RunSnoc(actions, a);
    more, t := actions + [a], Next(s, a);
  }

  lemma {:induction false} RunStart()
    ensures Run([]) == INIT
  {
  }

  // ------------------------------------------------- 3. no lost wakeup

  ghost predicate SomeoneWakes(pcs: seq<Pc>) {
    exists i :: 0 <= i < |pcs| && pcs[i].Wake?
  }

  /** The worker is about to look at the ring or still working through it. */
  predicate Draining(w: WorkerPc) { !w.Waiting? && !w.Exited? }

  ghost predicate WillDrain(s: Sys) {
    && (s.worker.Exited? ==> s.stop)
    && (s.stop || s.ring == [] || s.wake || Draining(s.worker) || SomeoneWakes(s.threads))
  }

  /** An insertion leaves the thread owing a wake-up; paying it sets the event. */
  lemma {:induction false} MoveAndWake(s: Sys, pc: Pc)
    ensures var m := Move(s, pc);
            && m.s.worker == s.worker
            && (s.stop ==> m.s.stop) && (s.wake ==> m.s.wake)
            && (s.ring == [] && m.s.ring != [] ==> m.pc.Wake?)
            && (pc.Wake? ==> m.s.wake)
  {
    hide PushNewest, HasRoom;
  }

  lemma {:induction false} MoveKeepsDrain(s: Sys, i: nat)
    requires WillDrain(s) && i < |s.threads|
    ensures WillDrain(ThreadStep(s, i))
  {
    hide Move;
    MoveAndWake(s, s.threads[i]);
    var t := ThreadStep(s, i);
    if SomeoneWakes(s.threads) && !s.threads[i].Wake? {
      var j :| 0 <= j < |s.threads| && s.threads[j].Wake?;
      assert t.threads[j].Wake?;
    }
    if t.threads[i].Wake? {
      assert SomeoneWakes(t.threads);
    }
  }

  lemma {:induction false} WorkerKeepsDrain(s: Sys)
    requires WillDrain(s)
    ensures WillDrain(WorkerStep(s))
  {
    hide PushNewest, HasRoom, SomeoneWakes;
  }

  lemma {:induction false} WakersRemain(pcs: seq<Pc>, pc: Pc)
    ensures SomeoneWakes(pcs) ==> SomeoneWakes(pcs + [pc])
  {
    if SomeoneWakes(pcs) {
      var j :| 0 <= j < |pcs| && pcs[j].Wake?;
      assert (pcs + [pc])[j].Wake?;
    }
  }

  lemma {:induction false} NextKeepsDrain(s: Sys, a: Action)
    requires WillDrain(s)
    ensures WillDrain(Next(s, a))
  {
    hide SomeoneWakes, ThreadStep, WorkerStep, DpcStep;
    DpcKeepsRing(s);
    match a
    case Thread(i) => if i < |s.threads| { hide WillDrain; MoveKeepsDrain(s, i); }
    case Worker => hide WillDrain; WorkerKeepsDrain(s);
    case Submit(job) => WakersRemain(s.threads, Check(job));
    case Reset => WakersRemain(s.threads, ResetTake(false));
    case Teardown => WakersRemain(s.threads, StopFlag);
    case DpcStart =>
    case Dpc =>
  }

  lemma {:induction false} DpcKeepsRing(s: Sys)
    ensures var t := DpcStep(s);
            && t.ring == s.ring && t.wake == s.wake && t.stop == s.stop && t.worker == s.worker && t.threads == s.threads
  {
  }

  /** Until stop is requested, a non-empty submit ring is being drained, or the
      event is set, or some caller has inserted and not yet called KeSetEvent. */
  lemma {:induction false} NoLostWakeup(actions: seq<Action>)
    ensures WillDrain(Run(actions))
    decreases |actions|
  {
    if actions != [] {
      NoLostWakeup(actions[..|actions| - 1]);
      hide WillDrain, Next;
      NextKeepsDrain(Run(actions[..|actions| - 1]), actions[|actions| - 1]);
    }
  }

  // ------------------------------------------------- 4. no stranded completion

  /** The thread has pushed a completion and its QueueDpc is still to come. */
  predicate OwesDpc(pc: Pc) {
    pc.InlineDpc? || pc.ResetPush? || pc.ResetDpc?
    || (pc.ResetTake? && pc.drained) || (pc.ResetExchange? && pc.drained)
  }

  ghost predicate SomeoneOwesDpc(pcs: seq<Pc>) {
    exists i :: 0 <= i < |pcs| && OwesDpc(pcs[i])
  }

  ghost predicate WillNotify(s: Sys) {
    s.fences == [] || s.dpcQueued || !s.dpc.Idle? || s.worker.QueueDpc? || SomeoneOwesDpc(s.threads)
  }

  /** A push leaves the thread owing a DPC; paying it queues one. */
  lemma {:induction false} MoveAndOwe(s: Sys, pc: Pc)
    ensures var m := Move(s, pc);
            && m.s.worker == s.worker && m.s.dpc == s.dpc
            && (s.dpcQueued ==> m.s.dpcQueued)
            && (s.fences == [] && m.s.fences != [] ==> OwesDpc(m.pc))
            && (OwesDpc(pc) ==> OwesDpc(m.pc) || m.s.dpcQueued)
  {
    hide PushNewest, HasRoom;
    match pc {
      case Check(_) => case Insert(_) => case Wake => case InlineExchange(_) => case InlineRead(_) =>
      case InlinePush(_) => case InlineDpc => case ResetTake(_) => case ResetExchange(_, _) => case ResetPush(_) =>
      case ResetDpc => case StopFlag => case StopWake => case StopJoin => case Finished =>
    }
  }

  lemma {:induction false} MoveKeepsNotify(s: Sys, i: nat)
    requires WillNotify(s) && i < |s.threads|
    ensures WillNotify(ThreadStep(s, i))
  {
    hide Move, OwesDpc;
    MoveAndOwe(s, s.threads[i]);
    var t := ThreadStep(s, i);
    if SomeoneOwesDpc(s.threads) && !OwesDpc(s.threads[i]) {
      var j :| 0 <= j < |s.threads| && OwesDpc(s.threads[j]);
      assert OwesDpc(t.threads[j]);
    }
    if OwesDpc(t.threads[i]) {
      assert SomeoneOwesDpc(t.threads);
    }
  }

  lemma {:induction false} WorkerKeepsNotify(s: Sys)
    requires WillNotify(s)
    ensures WillNotify(WorkerStep(s))
  {
    hide PushNewest, HasRoom, SomeoneOwesDpc;
  }

  lemma {:induction false} DebtorsRemain(pcs: seq<Pc>, pc: Pc)
    ensures SomeoneOwesDpc(pcs) ==> SomeoneOwesDpc(pcs + [pc])
  {
    if SomeoneOwesDpc(pcs) {
      var j :| 0 <= j < |pcs| && OwesDpc(pcs[j]);
      assert OwesDpc((pcs + [pc])[j]);
    }
  }

  lemma {:induction false} NextKeepsNotify(s: Sys, a: Action)
    requires WillNotify(s)
    ensures WillNotify(Next(s, a))
  {
    match a
    case Thread(i) => if i < |s.threads| { hide ThreadStep, WillNotify; MoveKeepsNotify(s, i); }
    case Worker => hide WorkerStep, WillNotify; WorkerKeepsNotify(s);
    case Submit(job) => hide SomeoneOwesDpc; DebtorsRemain(s.threads, Check(job));
    case Reset => hide SomeoneOwesDpc; DebtorsRemain(s.threads, ResetTake(false));
    case Teardown => hide SomeoneOwesDpc; DebtorsRemain(s.threads, StopFlag);
    case DpcStart => hide SomeoneOwesDpc;
    case Dpc => hide SomeoneOwesDpc;
  }

  /** A completion waiting in the ring always has a DPC run coming: one is queued
      or under way, or whoever pushed has yet to queue it. */
  lemma {:induction false} NoStrandedCompletion(actions: seq<Action>)
    ensures WillNotify(Run(actions))
    decreases |actions|
  {
    if actions != [] {
      NoStrandedCompletion(actions[..|actions| - 1]);
      hide WillNotify, Next;
      NextKeepsNotify(Run(actions[..|actions| - 1]), actions[|actions| - 1]);
    }
  }

  // ------------------------------------------------- 5. the completion ring

  /** a can be read off b in order, skipping entries. */
  ghost predicate Subsequence(a: seq<Notice>, b: seq<Notice>)
    decreases |b|
  {
    a == [] ||
    (b != [] &&
     ((a[|a| - 1] == b[|b| - 1] && Subsequence(a[..|a| - 1], b[..|b| - 1])) || Subsequence(a, b[..|b| - 1])))
  }

  function InHand(d: DpcPc): seq<Notice> {
    match d
    case Notifying(n) => [n]
    case _ => []
  }

  function LastNotified(ns: seq<Notice>): U32 {
    LastReal(Jobs(ns))
  }

  /** The ring holds the newest entries; what left it is a subsequence of what was pushed before them. */
  ghost predicate KeepsNewest(fences: seq<Notice>, gone: seq<Notice>, pushed: seq<Notice>, overwritten: nat) {
    && |fences| <= CAPACITY && |fences| <= |pushed|
    && fences == pushed[|pushed| - |fences|..]
    && Subsequence(gone, pushed[..|pushed| - |fences|])
    && |gone| + |fences| + overwritten == |pushed|
  }

  ghost predicate Delivered(s: Sys) {
    && KeepsNewest(s.fences, s.log.notified + InHand(s.dpc), s.log.pushed, s.log.overwritten)
    && (if s.dpc.Completing? then
          && s.log.notified != [] && s.log.notified[|s.log.notified| - 1] == s.dpc.notice
          && !s.dpc.notice.job.isPreempt
          && s.completed == LastNotified(s.log.notified[..|s.log.notified| - 1])
        else s.completed == LastNotified(s.log.notified))
  }

  lemma {:induction false} PushKeepsNewest(fences: seq<Notice>, gone: seq<Notice>, pushed: seq<Notice>,
      overwritten: nat, n: Notice)
    requires KeepsNewest(fences, gone, pushed, overwritten)
    ensures KeepsNewest(PushNewest(fences, n), gone, pushed + [n], if HasRoom(fences) then overwritten else overwritten + 1)
  {
    var k := |pushed| - |fences|;
    if HasRoom(fences) {
      assert (pushed + [n])[..k] == pushed[..k];
      assert (pushed + [n])[k..] == pushed[k..] + [n];
    } else {
      assert (pushed + [n])[..k + 1][..k] == pushed[..k];
      assert (pushed + [n])[k + 1..] == pushed[k..][1..] + [n];
    }
  }

  lemma {:induction false} PopKeepsNewest(fences: seq<Notice>, gone: seq<Notice>, pushed: seq<Notice>, overwritten: nat)
    requires KeepsNewest(fences, gone, pushed, overwritten) && fences != []
    ensures KeepsNewest(fences[1..], gone + [fences[0]], pushed, overwritten)
  {
    var k := |pushed| - |fences|;
    assert pushed[..k + 1][..k] == pushed[..k] && pushed[..k + 1][k] == fences[0];
    assert (gone + [fences[0]])[..|gone|] == gone;
  }

  lemma {:induction false} PushKeepsDelivered(s: Sys, n: Notice)
    requires Delivered(s)
    ensures Delivered(PushFence(s, n))
  {
    hide KeepsNewest, LastNotified, PushNewest, HasRoom;
    PushKeepsNewest(s.fences, s.log.notified + InHand(s.dpc), s.log.pushed, s.log.overwritten, n);
  }

  /** Delivered depends on nothing else. */
  lemma {:induction false} SameDelivery(s: Sys, t: Sys)
    requires Delivered(s) && DeliveryOf(t) == DeliveryOf(s)
    ensures Delivered(t)
  {
    hide KeepsNewest, LastNotified;
  }

  lemma {:induction false} MoveKeepsDelivered(s: Sys, pc: Pc)
    requires Delivered(s)
    ensures Delivered(Move(s, pc).s)
  {
    hide Delivered, PushFence;
    if pc.InlinePush? || pc.ResetPush? {
      PushKeepsDelivered(s, pc.notice);
    } else {
      MoveOutsidePush(s, pc);
      hide Move;
      SameDelivery(s, Move(s, pc).s);
    }
  }

  lemma {:induction false} MoveOutsidePush(s: Sys, pc: Pc)
    requires !pc.InlinePush? && !pc.ResetPush?
    ensures DeliveryOf(Move(s, pc).s) == DeliveryOf(s)
  {
    hide HasRoom, PushNewest;
    match pc {
      case Check(_) => case Insert(_) => case Wake => case InlineExchange(_) => case InlineRead(_) =>
      case InlinePush(_) => case InlineDpc => case ResetTake(_) => case ResetExchange(_, _) => case ResetPush(_) =>
      case ResetDpc => case StopFlag => case StopWake => case StopJoin => case Finished =>
    }
  }

  /** What delivery depends on. */
  datatype Delivery = Delivery(fences: seq<Notice>, dpc: DpcPc, completed: U32,
                               notified: seq<Notice>, pushed: seq<Notice>, overwritten: nat)

  function DeliveryOf(s: Sys): Delivery {
    Delivery(s.fences, s.dpc, s.completed, s.log.notified, s.log.pushed, s.log.overwritten)
  }

  lemma {:induction false} LastNotifiedSnoc(ns: seq<Notice>, n: Notice)
    ensures LastNotified(ns + [n]) == if n.job.isPreempt then LastNotified(ns) else n.job.fence
    ensures (ns + [n])[..|ns|] == ns
  {
    assert Jobs(ns + [n])[..|ns|] == Jobs(ns);
  }

  lemma {:induction false} NotifyKeepsDelivered(s: Sys, n: Notice)
    requires Delivered(s) && s.dpc == Notifying(n)
    ensures Delivered(DpcStep(s))
  {
    hide KeepsNewest, LastNotified;
    LastNotifiedSnoc(s.log.notified, n);
    assert (s.log.notified + [n]) + [] == s.log.notified + [n];
  }

  lemma {:induction false} DpcKeepsDelivered(s: Sys)
    requires Delivered(s)
    ensures Delivered(DpcStep(s))
  {
    hide KeepsNewest, LastNotified;
    var done := s.log.notified;
    assert done + [] == done;
    match s.dpc {
      case Taking =>
        if s.fences != [] {
          PopKeepsNewest(s.fences, done, s.log.pushed, s.log.overwritten);
        }
      case Notifying(n) =>
        NotifyKeepsDelivered(s, n);
      case Completing(n) =>
        LastNotifiedSnoc(done[..|done| - 1], n);
        assert done == done[..|done| - 1] + [n];
      case Idle =>
    }
  }

  lemma {:induction false} WorkerKeepsDelivered(s: Sys)
    requires Delivered(s)
    ensures Delivered(WorkerStep(s))
  {
    hide Delivered, DeliveryOf, WorkerStep, PushFence;
    WorkerDelivers(s);
    if s.worker.Push? {
      var t := s.(worker := QueueDpc);
      SameDelivery(s, t);
      PushKeepsDelivered(t, s.worker.notice);
    } else {
      SameDelivery(s, WorkerStep(s));
    }
  }

  /** The worker's step has to do with delivery only when it pushes. */
  lemma {:induction false} WorkerDelivers(s: Sys)
    ensures DeliveryOf(s.(worker := QueueDpc)) == DeliveryOf(s)
    ensures s.worker.Push? ==> WorkerStep(s) == PushFence(s.(worker := QueueDpc), s.worker.notice)
    ensures !s.worker.Push? ==> DeliveryOf(WorkerStep(s)) == DeliveryOf(s)
  {
    hide PushFence;
    match s.worker {
      case Waiting => case CheckStop => case Take => case Read(_) => case Exchange(_) => case Push(_) =>
      case QueueDpc => case Exited =>
    }
  }

  lemma {:induction false} NextKeepsDelivered(s: Sys, a: Action)
    requires Delivered(s)
    ensures Delivered(Next(s, a))
  {
    hide Move, WorkerStep, DpcStep, Delivered;
    match a
    case Thread(i) =>
      if i < |s.threads| {
        MoveKeepsDelivered(s, s.threads[i]);
        SameDelivery(Move(s, s.threads[i]).s, Next(s, a));
      }
    case Worker => WorkerKeepsDelivered(s);
    case Dpc => DpcKeepsDelivered(s);
    case DpcStart => StartKeepsDelivered(s);
    case Submit(_) => SameDelivery(s, Next(s, a));
    case Reset => SameDelivery(s, Next(s, a));
    case Teardown => SameDelivery(s, Next(s, a));
  }

  lemma {:induction false} StartKeepsDelivered(s: Sys)
    requires Delivered(s)
    ensures Delivered(Next(s, DpcStart))
  {
    hide Move, WorkerStep, DpcStep, KeepsNewest, LastNotified;
  }

  lemma {:induction false} RunsDeliver(actions: seq<Action>)
    ensures Delivered(Run(actions))
    decreases |actions|
  {
    if actions == [] {
      RunStart();
    } else {
      RunsDeliver(actions[..|actions| - 1]);
      hide Delivered, Next;
      NextKeepsDelivered(Run(actions[..|actions| - 1]), actions[|actions| - 1]);
    }
  }

  lemma {:induction false} FullSubsequence(a: seq<Notice>, b: seq<Notice>)
    requires Subsequence(a, b)
    ensures |a| <= |b| && (|a| == |b| ==> a == b)
    decreases |b|
  {
    if a != [] {
      var a', b' := a[..|a| - 1], b[..|b| - 1];
      if a[|a| - 1] == b[|b| - 1] && Subsequence(a', b') {
        FullSubsequence(a', b');
        assert a == a' + [a[|a| - 1]] && b == b' + [b[|b| - 1]];
      } else {
        FullSubsequence(a, b');
      }
    }
  }

  /** Delivered, in delivery, and pending are everything that was pushed, in
      order, exactly as long as no push met a full ring. */
  lemma {:induction false} EverythingArrivesUnlessOverwritten(actions: seq<Action>)
    ensures var s := Run(actions);
            s.log.notified + InHand(s.dpc) + s.fences == s.log.pushed <==> s.log.overwritten == 0
  {
    RunsDeliver(actions);
    var s := Run(actions);
    hide Run;
    var gone := s.log.notified + InHand(s.dpc);
    var k := |s.log.pushed| - |s.fences|;
    FullSubsequence(gone, s.log.pushed[..k]);
    if s.log.overwritten == 0 {
      assert s.log.pushed == s.log.pushed[..k] + s.log.pushed[k..];
    }
  }

  /** Once stop is requested a caller completes its own submission: three steps later
      its fence is in the completion ring. */
  lemma {:induction false} CompletesItself(actions: seq<Action>, job: Job) returns (more: seq<Action>)
    requires Run(actions).stop && !job.isPreempt
    ensures var s, t := Run(actions), Run(more);
            && t.stop && t.fences == PushNewest(s.fences, Notice(job, 0))
            && t.log.overwritten == s.log.overwritten + if HasRoom(s.fences) then 0 else 1
  {
    hide Run, HasRoom, PushNewest;
    var s0 := Run(actions);
    var i := |s0.threads|;
    var s;
    more, s := Then(actions, s0, Submit(job));
    assert s.threads[i] == Check(job);
    more, s := Then(more, s, Thread(i));
    assert s.threads[i] == InlineExchange(job) && |s.threads| == i + 1;
    more, s := Then(more, s, Thread(i));
    assert s.threads[i] == InlinePush(Notice(job, 0)) && s.fences == s0.fences;
    more, s := Then(more, s, Thread(i));
  }

  lemma {:induction false} Stopping() returns (actions: seq<Action>)
    ensures var s := Run(actions); s.stop && s.fences == [] && s.log.overwritten == 0
  {
    hide Run;
    var s;
    actions, s := Then([], Run([]), Teardown);
    assert Run([]) == INIT by { RunStart(); }
    actions, s := Then(actions, s, Thread(0));
  }

  lemma {:induction false} FillsTo(n: nat) returns (actions: seq<Action>)
    requires n <= CAPACITY
    ensures var s := Run(actions); s.stop && |s.fences| == n && s.log.overwritten == 0
  {
    hide Run;
    if n == 0 {
      actions := Stopping();
    } else {
      actions := FillsTo(n - 1);
      actions := CompletesItself(actions, Job(n, 0, 0, false));
    }
  }

  /** Notifications are lost: any number of pushes can meet a full completion ring. */
  lemma {:induction false} AnyNumberIsLost(k: nat) returns (actions: seq<Action>)
    ensures var s := Run(actions); s.stop && |s.fences| == CAPACITY && s.log.overwritten == k
  {
    hide Run;
    if k == 0 {
      actions := FillsTo(CAPACITY);
    } else {
      actions := AnyNumberIsLost(k - 1);
      actions := CompletesItself(actions, Job(0, 0, 0, false));
    }
  }
}
