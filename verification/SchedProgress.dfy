/** What the parts of the scheduler get done when they run: the DPC empties the
    completion ring, the worker the submit ring, a reset as well, and every call returns. */
module SchedProgress {
  import opened SchedRings
  import opened Sched

  /** n steps of one actor. */
  ghost function Go(s: Sys, a: Action, n: nat): Sys
    decreases n
  {
    if n == 0 then s else Go(Next(s, a), a, n - 1)
  }

  function Repeat(a: Action, n: nat): (r: seq<Action>)
    ensures |r| == n && forall i | 0 <= i < n :: r[i] == a
  {
    seq(n, _ => a)
  }

  lemma {:induction false} RunGo(actions: seq<Action>, a: Action, n: nat)
    ensures Run(actions + Repeat(a, n)) == Go(Run(actions), a, n)
    decreases n
  {
    hide Next, Run;
    if n == 0 {
      assert actions + Repeat(a, 0) == actions;
    } else {
      RunSnoc(actions, a);
      RunGo(actions + [a], a, n - 1);
      assert actions + [a] + Repeat(a, n - 1) == actions + Repeat(a, n);
    }
  }

  /** A step that changes nothing changes nothing however often it is taken. */
  lemma {:induction false} GoStays(s: Sys, a: Action, n: nat)
    requires Next(s, a) == s
    ensures Go(s, a, n) == s
    decreases n
  {
    hide Next;
    if n > 0 { GoStays(s, a, n - 1); }
  }

  lemma {:induction false} GoOne(s: Sys, a: Action, n: nat)
    requires n > 0
    ensures Go(s, a, n) == Go(Next(s, a), a, n - 1)
  {
  }

  // ------------------------------------------------- the last submission

  /** LastReal by position. */
  lemma {:induction false} LastRealIs(jobs: seq<Job>, k: nat)
    requires k < |jobs| && !jobs[k].isPreempt && forall j | k < j < |jobs| :: jobs[j].isPreempt
    ensures LastReal(jobs) == jobs[k].fence
    decreases |jobs|
  {
    if k < |jobs| - 1 { LastRealIs(jobs[..|jobs| - 1], k); }
  }

  lemma {:induction false} NoReal(jobs: seq<Job>)
    requires forall j | 0 <= j < |jobs| :: jobs[j].isPreempt
    ensures LastReal(jobs) == 0
    decreases |jobs|
  {
    if jobs != [] { NoReal(jobs[..|jobs| - 1]); }
  }

  /** fence is the last submission among the notices, or 0 when there is none. */
  ghost predicate IsLastNotified(ns: seq<Notice>, fence: U32) {
    && (forall k | 0 <= k < |ns| && !ns[k].job.isPreempt && (forall j | k < j < |ns| :: ns[j].job.isPreempt) ::
          fence == ns[k].job.fence)
    && ((forall k | 0 <= k < |ns| :: ns[k].job.isPreempt) ==> fence == 0)
  }

  lemma {:induction false} LastNotifiedIs(ns: seq<Notice>)
    ensures IsLastNotified(ns, LastNotified(ns))
  {
    hide LastReal;
    forall k: nat | k < |ns| && !ns[k].job.isPreempt && (forall j | k < j < |ns| :: ns[j].job.isPreempt)
      ensures LastNotified(ns) == ns[k].job.fence
    {
      LastRealIs(Jobs(ns), k);
    }
    if forall k | 0 <= k < |ns| :: ns[k].job.isPreempt { NoReal(Jobs(ns)); }
  }

  // ------------------------------------------------- the DPC

  /** One turn of the loop of the DPC: the oldest entry is taken and notified. */
  lemma {:induction false} DpcTakesOne(s: Sys)
    requires s.dpc.Taking? && s.fences != []
    ensures var n := s.fences[0];
            var k := if n.job.isPreempt then 2 else 3;
            Go(s, Dpc, k) == s.(fences := s.fences[1..], log := s.log.(notified := s.log.notified + [n]),
                                completed := if n.job.isPreempt then s.completed else n.job.fence)
  {
    var n := s.fences[0];
    var t := Next(s, Dpc);
    assert t == s.(dpc := Notifying(n), fences := s.fences[1..]);
    var u := Next(t, Dpc);
    GoOne(s, Dpc, 2);
    GoOne(s, Dpc, 3);
    GoOne(t, Dpc, 1);
    GoOne(t, Dpc, 2);
    GoOne(u, Dpc, 1);
  }

  lemma {:induction false} GoSplits(s: Sys, a: Action, m: nat, n: nat)
    requires m <= n
    ensures Go(s, a, n) == Go(Go(s, a, m), a, n - m)
    decreases m
  {
    hide Next;
    if m > 0 { GoSplits(Next(s, a), a, m - 1, n - 1); }
  }

  lemma {:induction false} DpcEnds(s: Sys, n: nat)
    requires s.dpc.Taking? && s.fences == [] && n > 0
    ensures Go(s, Dpc, n) == s.(dpc := Idle)
  {
    hide Go;
    GoOne(s, Dpc, n);
    GoStays(Next(s, Dpc), Dpc, n - 1);
  }

  /** From the top of its loop the DPC empties the ring, notifying every entry in order,
      and ends. */
  lemma {:induction false} DpcDrains(s: Sys, n: nat)
    requires s.dpc.Taking? && n > 3 * |s.fences|
    ensures var t := Go(s, Dpc, n);
            t == s.(dpc := Idle, fences := [], completed := t.completed,
                    log := s.log.(notified := s.log.notified + s.fences))
    decreases |s.fences|
  {
    hide Go;
    if s.fences == [] {
      DpcEnds(s, n);
      assert s.log.notified + s.fences == s.log.notified;
    } else {
      hide Next;
      var k := if s.fences[0].job.isPreempt then 2 else 3;
      DpcTakesOne(s);
      GoSplits(s, Dpc, k, n);
      var u := Go(s, Dpc, k);
      DpcDrains(u, n - k);
      assert s.log.notified + [s.fences[0]] + s.fences[1..] == s.log.notified + s.fences;
    }
  }

  /** From every reachable state with the DPC idle: once it runs it ends, the ring is
      empty, everything that was in it has been notified, in order, and GpuCompletedFence is
      the last submission notified. */
  lemma {:induction false} DpcDelivers(actions: seq<Action>, n: nat)
    requires Run(actions).dpc.Idle? && n > 3 * |Run(actions).fences|
    ensures var s, t := Run(actions), Run(actions + [DpcStart] + Repeat(Dpc, n));
            && t.dpc.Idle? && t.fences == []
            && t.log.notified == s.log.notified + s.fences
            && t == s.(dpcQueued := false, fences := [], completed := t.completed, log := t.log)
            && IsLastNotified(t.log.notified, t.completed)
  {
    var s := Run(actions);
    var u := Next(s, DpcStart);
    RunSnoc(actions, DpcStart);
    RunGo(actions + [DpcStart], Dpc, n);
    DpcDrains(u, n);
    RunsDeliver(actions + [DpcStart] + Repeat(Dpc, n));
    hide Run, Go, Next, LastNotified, KeepsNewest;
    LastNotifiedIs(Run(actions + [DpcStart] + Repeat(Dpc, n)).log.notified);
  }

  // ------------------------------------------------- the worker

  lemma {:induction false} Regroup<T>(a: seq<T>, x: T, b: seq<T>)
    ensures a + [x] + b == a + ([x] + b) && [x] + b != []
  {
  }

  /** The completed-fence boundary after these entries. */
  function BoundaryAfter(b: U32, jobs: seq<Job>): U32
    decreases |jobs|
  {
    if jobs == [] then b else BoundaryAfter(if jobs[0].isPreempt then b else jobs[0].fence, jobs[1..])
  }

  /** What is reported for these entries, starting from boundary b: a marker carries the
      boundary of its place. */
  function NoticesFor(b: U32, jobs: seq<Job>): (r: seq<Notice>)
    ensures |r| == |jobs| && forall i | 0 <= i < |jobs| :: r[i].job == jobs[i]
    decreases |jobs|
  {
    if jobs == [] then []
    else
      [Notice(jobs[0], if jobs[0].isPreempt then b else 0)] +
      NoticesFor(if jobs[0].isPreempt then b else jobs[0].fence, jobs[1..])
  }

  /** The completion ring after these pushes. */
  function PushAll(q: seq<Notice>, ns: seq<Notice>): seq<Notice>
    decreases |ns|
  {
    if ns == [] then q else PushAll(PushNewest(q, ns[0]), ns[1..])
  }

  /** One turn of the worker's loop. */
  lemma {:induction false} WorkerTakesOne(s: Sys)
    requires s.worker == Take && s.ring != []
    ensures var job := s.ring[0];
            var n := Notice(job, if job.isPreempt then s.boundary else 0);
            var t := Go(s, Worker, 4);
            t == s.(ring := s.ring[1..], boundary := if job.isPreempt then s.boundary else job.fence,
                    fences := PushNewest(s.fences, n), dpcQueued := true,
                    log := s.log.(pushed := s.log.pushed + [n], overwritten := t.log.overwritten))
  {
    hide PushNewest, HasRoom;
    var job := s.ring[0];
    var n := Notice(job, if job.isPreempt then s.boundary else 0);
    var t := Next(s, Worker);
    assert t == s.(ring := s.ring[1..], worker := if job.isPreempt then Read(job) else Exchange(job));
    var u := Next(t, Worker);
    assert u == t.(worker := Push(n), boundary := if job.isPreempt then s.boundary else job.fence);
    var v := Next(u, Worker);
    assert v == PushFence(u.(worker := QueueDpc), n);
    var w := Next(v, Worker);
    assert w == v.(worker := Take, dpcQueued := true);
    hide Next;
    GoOne(s, Worker, 4);
    GoOne(t, Worker, 3);
    GoOne(u, Worker, 2);
    GoOne(v, Worker, 1);
  }

  /** s with its ring worked off and the worker waiting; over entries were overwritten. */
  function WorkedOff(s: Sys, over: nat): Sys {
    var ns := NoticesFor(s.boundary, s.ring);
    s.(worker := Waiting, ring := [], boundary := BoundaryAfter(s.boundary, s.ring),
       fences := PushAll(s.fences, ns), dpcQueued := s.dpcQueued || s.ring != [],
       log := s.log.(pushed := s.log.pushed + ns, overwritten := over))
  }

  lemma {:induction false} WorkedOffAfterOne(s: Sys, u: Sys, over: nat)
    requires s.ring != []
    requires var job := s.ring[0];
             var n := Notice(job, if job.isPreempt then s.boundary else 0);
             u == s.(ring := s.ring[1..], boundary := if job.isPreempt then s.boundary else job.fence,
                     fences := PushNewest(s.fences, n), dpcQueued := true,
                     log := s.log.(pushed := s.log.pushed + [n], overwritten := u.log.overwritten))
    ensures WorkedOff(u, over) == WorkedOff(s, over)
  {
    hide PushNewest;
    HeadWorked(s.boundary, s.ring, s.fences);
    hide NoticesFor, BoundaryAfter, PushAll;
    Regroup(s.log.pushed, u.log.pushed[|s.log.pushed|], NoticesFor(u.boundary, u.ring));
  }

  lemma {:induction false} HeadWorked(b: U32, jobs: seq<Job>, q: seq<Notice>)
    requires jobs != []
    ensures var n := Notice(jobs[0], if jobs[0].isPreempt then b else 0);
            var c := if jobs[0].isPreempt then b else jobs[0].fence;
            && NoticesFor(b, jobs) == [n] + NoticesFor(c, jobs[1..])
            && BoundaryAfter(b, jobs) == BoundaryAfter(c, jobs[1..])
            && PushAll(q, NoticesFor(b, jobs)) == PushAll(PushNewest(q, n), NoticesFor(c, jobs[1..]))
  {
    hide PushNewest;
    var ns := NoticesFor(b, jobs);
    assert ns[1..] == NoticesFor(if jobs[0].isPreempt then b else jobs[0].fence, jobs[1..]);
  }

  /** From the top of its loop the worker empties the ring, pushing every entry in order,
      and waits. */
  lemma {:induction false} WorkerDrains(s: Sys, n: nat)
    requires s.worker == Take && !s.wake && n > 4 * |s.ring|
    ensures Go(s, Worker, n) == WorkedOff(s, Go(s, Worker, n).log.overwritten)
    decreases |s.ring|
  {
    hide Go, PushNewest, WorkedOff;
    if s.ring == [] {
      GoOne(s, Worker, n);
      GoStays(Next(s, Worker), Worker, n - 1);
      NothingToDo(s);
    } else {
      WorkerTakesOne(s);
      GoSplits(s, Worker, 4, n);
      var u := Go(s, Worker, 4);
      WorkedOffAfterOne(s, u, Go(s, Worker, n).log.overwritten);
      hide Next;
      WorkerDrains(u, n - 4);
    }
  }

  lemma {:induction false} NothingToDo(s: Sys)
    requires s.ring == []
    ensures WorkedOff(s, s.log.overwritten) == s.(worker := Waiting)
  {
    assert s.log.pushed + [] == s.log.pushed;
  }

  /** Woken from its wait with no stop requested, the worker by itself empties the submit
      ring and waits again: every entry is pushed, in order, markers with the boundary of
      their place. */
  lemma {:induction false} WokenWorkerDelivers(actions: seq<Action>, n: nat)
    requires var s := Run(actions); s.worker == Waiting && s.wake && !s.stop && n > 4 * |s.ring| + 2
    ensures var s, t := Run(actions), Run(actions + Repeat(Worker, n));
            && t.worker == Waiting && !t.wake && t.ring == []
            && t.log.pushed == s.log.pushed + NoticesFor(s.boundary, s.ring)
            && t.boundary == BoundaryAfter(s.boundary, s.ring)
            && t.fences == PushAll(s.fences, NoticesFor(s.boundary, s.ring))
            && (s.ring != [] ==> t.dpcQueued)
            && t == s.(wake := false, ring := [], boundary := t.boundary, fences := t.fences, dpcQueued := t.dpcQueued,
                       log := s.log.(pushed := t.log.pushed, overwritten := t.log.overwritten))
  {
    var s := Run(actions);
    RunGo(actions, Worker, n);
    hide Run;
    var u := Next(Next(s, Worker), Worker);
    GoOne(s, Worker, n);
    GoOne(Next(s, Worker), Worker, n - 1);
    assert u == s.(wake := false, worker := Take);
    hide Go, Next, PushNewest;
    WorkerDrains(u, n - 2);
  }

  /** Nothing is overwritten while everything fits. */
  lemma {:induction false} PushAllFits(q: seq<Notice>, ns: seq<Notice>)
    requires |q| + |ns| <= CAPACITY
    ensures PushAll(q, ns) == q + ns
    decreases |ns|
  {
    if ns == [] {
      assert q + ns == q;
    } else {
      PushAllFits(q + [ns[0]], ns[1..]);
      assert q + [ns[0]] + ns[1..] == q + ns;
    }
  }

  /** From the submit ring to the notification: the worker runs, then the DPC. As long as
      the completion ring holds them all, every queued entry is notified, in order, behind
      what was waiting to be notified already. */
  lemma {:induction false} QueuedEntriesAreNotified(actions: seq<Action>, m: nat, n: nat)
    requires var s := Run(actions);
             && s.worker == Waiting && s.wake && !s.stop && s.dpc.Idle?
             && |s.fences| + |s.ring| <= CAPACITY && m > 4 * |s.ring| + 2 && n > 3 * (|s.fences| + |s.ring|)
    ensures var s, t := Run(actions), Run(actions + Repeat(Worker, m) + [DpcStart] + Repeat(Dpc, n));
            && t.worker == Waiting && t.ring == [] && t.dpc.Idle? && t.fences == []
            && t.log.notified == s.log.notified + (s.fences + NoticesFor(s.boundary, s.ring))
            && IsLastNotified(t.log.notified, t.completed)
  {
    var s := Run(actions);
    hide Run, Repeat, IsLastNotified;
    WokenWorkerDelivers(actions, m);
    PushAllFits(s.fences, NoticesFor(s.boundary, s.ring));
    DpcDelivers(actions + Repeat(Worker, m), n);
  }

  /** Asked to stop and woken from its wait, the worker ends. */
  lemma {:induction false} StoppedWorkerEnds(s: Sys, n: nat)
    requires s.worker == Waiting && s.wake && s.stop && n >= 2
    ensures Go(s, Worker, n) == s.(wake := false, worker := Exited)
  {
    var t := Next(s, Worker);
    var u := Next(t, Worker);
    GoOne(s, Worker, n);
    GoOne(t, Worker, n - 1);
    assert t == s.(wake := false, worker := CheckStop) && u == t.(worker := Exited);
    GoStays(u, Worker, n - 2);
  }

  // ------------------------------------------------- ResetEngine

  function Reals(jobs: seq<Job>): (r: seq<Job>)
    ensures forall i | 0 <= i < |r| :: !r[i].isPreempt && r[i] in jobs
    ensures |r| <= |jobs|
  {
    if jobs == [] then [] else (if jobs[0].isPreempt then [] else [jobs[0]]) + Reals(jobs[1..])
  }

  function Markers(jobs: seq<Job>): (r: seq<Job>)
    ensures forall i | 0 <= i < |r| :: r[i].isPreempt && r[i] in jobs
    ensures |r| + |Reals(jobs)| == |jobs|
  {
    if jobs == [] then [] else (if jobs[0].isPreempt then [jobs[0]] else []) + Markers(jobs[1..])
  }

  /** A reset reports each submission as completed, with no boundary. */
  function ResetNotices(jobs: seq<Job>): (r: seq<Notice>)
    ensures |r| == |jobs| && forall i | 0 <= i < |jobs| :: r[i] == Notice(jobs[i], 0)
  {
    seq(|jobs|, i requires 0 <= i < |jobs| => Notice(jobs[i], 0))
  }

  /** s after thread i, resetting, has swept the ring and returned. */
  function SweptBy(s: Sys, i: nat, drained: bool, over: nat): Sys
    requires i < |s.threads|
  {
    var ns := ResetNotices(Reals(s.ring));
    s.(ring := [], boundary := BoundaryAfter(s.boundary, s.ring), threads := s.threads[i := Finished],
       fences := PushAll(s.fences, ns), dpcQueued := s.dpcQueued || drained || ns != [],
       log := s.log.(pushed := s.log.pushed + ns, dropped := s.log.dropped + Markers(s.ring), overwritten := over))
  }

  lemma {:induction false} SweepEnds(s: Sys, i: nat, drained: bool, n: nat)
    requires i < |s.threads| && s.threads[i] == ResetTake(drained) && s.ring == [] && n >= 2
    ensures Go(s, Thread(i), n) == s.(threads := s.threads[i := Finished], dpcQueued := s.dpcQueued || drained)
  {
    hide PushFence, HasRoom;
    var t := Next(s, Thread(i));
    assert t == s.(threads := s.threads[i := if drained then ResetDpc else Finished]);
    GoOne(s, Thread(i), n);
    if drained {
      var u := Next(t, Thread(i));
      GoOne(t, Thread(i), n - 1);
      assert u == s.(threads := s.threads[i := Finished], dpcQueued := true);
      FinishedStays(u, i, n - 2);
    } else {
      FinishedStays(t, i, n - 1);
    }
  }

  lemma {:induction false} NothingToSweep(s: Sys, i: nat, drained: bool)
    requires i < |s.threads| && s.ring == []
    ensures SweptBy(s, i, drained, s.log.overwritten) ==
            s.(threads := s.threads[i := Finished], dpcQueued := s.dpcQueued || drained)
  {
    assert s.log.pushed + [] == s.log.pushed && s.log.dropped + [] == s.log.dropped;
  }

  lemma {:induction false} FinishedStays(s: Sys, i: nat, n: nat)
    requires i < |s.threads| && s.threads[i] == Finished
    ensures Go(s, Thread(i), n) == s
  {
    assert s.threads[i := Finished] == s.threads;
    GoStays(s, Thread(i), n);
  }

  /** A marker is dropped. */
  lemma {:induction false} MarkerTaken(s: Sys, i: nat, drained: bool)
    requires i < |s.threads| && s.threads[i] == ResetTake(drained) && s.ring != [] && s.ring[0].isPreempt
    ensures Go(s, Thread(i), 1) == s.(ring := s.ring[1..], log := s.log.(dropped := s.log.dropped + [s.ring[0]]))
  {
    assert s.threads[i := ResetTake(drained)] == s.threads;
    GoOne(s, Thread(i), 1);
  }

  /** s after a reset has completed the submission at the head of the ring. */
  ghost predicate HeadCompleted(s: Sys, u: Sys, i: nat)
    requires i < |s.threads| && s.ring != []
  {
    u == s.(ring := s.ring[1..], boundary := s.ring[0].fence, threads := s.threads[i := ResetTake(true)],
            fences := PushNewest(s.fences, Notice(s.ring[0], 0)),
            log := s.log.(pushed := s.log.pushed + [Notice(s.ring[0], 0)], overwritten := u.log.overwritten))
  }

  /** Out of the ring, and the boundary moved to its fence. */
  lemma {:induction false} TakeAndExchange(s: Sys, i: nat, drained: bool)
    requires i < |s.threads| && s.threads[i] == ResetTake(drained) && s.ring != [] && !s.ring[0].isPreempt
    ensures Next(Next(s, Thread(i)), Thread(i)) ==
            s.(ring := s.ring[1..], boundary := s.ring[0].fence,
               threads := s.threads[i := ResetPush(Notice(s.ring[0], 0))])
  {
    hide PushFence, HasRoom;
    var job := s.ring[0];
    var t := Next(s, Thread(i));
    assert t == s.(ring := s.ring[1..], threads := s.threads[i := ResetExchange(job, drained)]);
    var u := Next(t, Thread(i));
    assert u == t.(boundary := job.fence, threads := s.threads[i := ResetPush(Notice(job, 0))]);
  }

  lemma {:induction false} ResetPushes(u: Sys, i: nat, n: Notice)
    requires i < |u.threads| && u.threads[i] == ResetPush(n)
    ensures Next(u, Thread(i)) == PushFence(u, n).(threads := u.threads[i := ResetTake(true)])
  {
    hide PushFence, HasRoom;
  }

  lemma {:induction false} PushedHead(s: Sys, u: Sys, i: nat)
    requires i < |s.threads| && s.ring != []
    requires u == s.(ring := s.ring[1..], boundary := s.ring[0].fence,
                     threads := s.threads[i := ResetPush(Notice(s.ring[0], 0))])
    ensures HeadCompleted(s, PushFence(u, Notice(s.ring[0], 0)).(threads := u.threads[i := ResetTake(true)]), i)
  {
    hide PushNewest, HasRoom;
    assert u.threads[i := ResetTake(true)] == s.threads[i := ResetTake(true)];
  }

  lemma {:induction false} GoThree(s: Sys, a: Action)
    ensures Go(s, a, 3) == Next(Next(Next(s, a), a), a)
  {
    hide Next;
    var t := Next(s, a);
    GoOne(t, a, 2);
    GoOne(Next(t, a), a, 1);
  }

  /** A submission is completed. */
  lemma {:induction false} RealTaken(s: Sys, i: nat, drained: bool)
    requires i < |s.threads| && s.threads[i] == ResetTake(drained) && s.ring != [] && !s.ring[0].isPreempt
    ensures HeadCompleted(s, Go(s, Thread(i), 3), i)
  {
    TakeAndExchange(s, i, drained);
    hide Next, Go, PushFence, HeadCompleted;
    var u := Next(Next(s, Thread(i)), Thread(i));
    ResetPushes(u, i, Notice(s.ring[0], 0));
    PushedHead(s, u, i);
    GoThree(s, Thread(i));
  }

  lemma {:induction false} HeadMarker(b: U32, jobs: seq<Job>)
    requires jobs != [] && jobs[0].isPreempt
    ensures Reals(jobs) == Reals(jobs[1..]) && Markers(jobs) == [jobs[0]] + Markers(jobs[1..])
    ensures BoundaryAfter(b, jobs) == BoundaryAfter(b, jobs[1..])
  {
  }

  lemma {:induction false} HeadReal(b: U32, jobs: seq<Job>, q: seq<Notice>)
    requires jobs != [] && !jobs[0].isPreempt
    ensures Reals(jobs) == [jobs[0]] + Reals(jobs[1..]) && Markers(jobs) == Markers(jobs[1..])
    ensures ResetNotices(Reals(jobs)) == [Notice(jobs[0], 0)] + ResetNotices(Reals(jobs[1..]))
    ensures BoundaryAfter(b, jobs) == BoundaryAfter(jobs[0].fence, jobs[1..])
    ensures PushAll(q, ResetNotices(Reals(jobs))) ==
            PushAll(PushNewest(q, Notice(jobs[0], 0)), ResetNotices(Reals(jobs[1..])))
  {
    hide PushNewest;
    var ns := ResetNotices(Reals(jobs));
    assert ns == [Notice(jobs[0], 0)] + ResetNotices(Reals(jobs[1..]));
    assert ns[1..] == ResetNotices(Reals(jobs[1..]));
  }

  lemma {:induction false} MarkerSwept(s: Sys, u: Sys, i: nat, drained: bool, over: nat)
    requires i < |s.threads| && s.ring != [] && s.ring[0].isPreempt
    requires u == s.(ring := s.ring[1..], log := s.log.(dropped := s.log.dropped + [s.ring[0]]))
    ensures SweptBy(u, i, drained, over) == SweptBy(s, i, drained, over)
  {
    HeadMarker(s.boundary, s.ring);
    hide Reals, Markers, BoundaryAfter, PushAll, ResetNotices;
    assert s.log.dropped + [s.ring[0]] + Markers(s.ring[1..]) == s.log.dropped + Markers(s.ring);
  }

  lemma {:induction false} RealSweptParts(s: Sys, u: Sys, i: nat)
    requires i < |s.threads| && s.ring != [] && !s.ring[0].isPreempt && HeadCompleted(s, u, i)
    ensures var ns, rest := ResetNotices(Reals(s.ring)), ResetNotices(Reals(u.ring));
            && ns != [] && u.log.pushed + rest == s.log.pushed + ns
            && u.log.dropped + Markers(u.ring) == s.log.dropped + Markers(s.ring)
            && PushAll(u.fences, rest) == PushAll(s.fences, ns)
            && BoundaryAfter(u.boundary, u.ring) == BoundaryAfter(s.boundary, s.ring)
  {
    HeadReal(s.boundary, s.ring, s.fences);
    hide Reals, Markers, BoundaryAfter, PushAll, ResetNotices, PushNewest;
    Regroup(s.log.pushed, Notice(s.ring[0], 0), ResetNotices(Reals(u.ring)));
  }

  lemma {:induction false} SameOtherwise(s: Sys, u: Sys, i: nat)
    requires i < |s.threads| && s.ring != [] && HeadCompleted(s, u, i)
    ensures i < |u.threads| && u.threads[i := Finished] == s.threads[i := Finished]
    ensures u == s.(ring := u.ring, boundary := u.boundary, threads := u.threads, fences := u.fences,
                    log := s.log.(pushed := u.log.pushed, overwritten := u.log.overwritten))
  {
    hide PushNewest;
  }

  lemma {:induction false} RealSwept(s: Sys, u: Sys, i: nat, drained: bool, over: nat)
    requires i < |s.threads| && s.ring != [] && !s.ring[0].isPreempt && HeadCompleted(s, u, i)
    ensures i < |u.threads| && SweptBy(u, i, true, over) == SweptBy(s, i, drained, over)
  {
    RealSweptParts(s, u, i);
    SameOtherwise(s, u, i);
    hide HeadCompleted, Reals, Markers, BoundaryAfter, PushAll, ResetNotices, PushNewest;
  }

  /** A reset by itself empties the submit ring: submissions are pushed in order, markers
      dropped in order, and the call returns. */
  lemma {:induction false} ResetSweeps(s: Sys, i: nat, drained: bool, n: nat)
    requires i < |s.threads| && s.threads[i] == ResetTake(drained) && n >= 3 * |s.ring| + 2
    ensures Go(s, Thread(i), n) == SweptBy(s, i, drained, Go(s, Thread(i), n).log.overwritten)
    decreases |s.ring|
  {
    hide Go, PushNewest, SweptBy;
    if s.ring == [] {
      SweepEnds(s, i, drained, n);
      hide Next;
      NothingToSweep(s, i, drained);
    } else {
      var k := if s.ring[0].isPreempt then 1 else 3;
      hide Next;
      GoSplits(s, Thread(i), k, n);
      var u, over := Go(s, Thread(i), k), Go(s, Thread(i), n).log.overwritten;
      if s.ring[0].isPreempt {
        MarkerTaken(s, i, drained);
        MarkerSwept(s, u, i, drained, over);
        ResetSweeps(u, i, drained, n - k);
      } else {
        RealTaken(s, i, drained);
        RealSwept(s, u, i, drained, over);
        ResetSweeps(u, i, true, n - k);
      }
    }
  }

  // ------------------------------------------------- SubmitCommand and PreemptCommand

  /** A call by itself returns: its entry is queued and the worker woken when there is a
      worker, no stop was requested and there is room; otherwise the caller completes it. */
  lemma {:induction false} CallReturns(s: Sys, job: Job, n: nat)
    requires n >= 5
    ensures var i, t := |s.threads|, Go(Next(s, Submit(job)), Thread(|s.threads|), n);
            && t.threads == s.threads + [Finished]
            && t.log.submitted == s.log.submitted + [job] && t.log.arrived == s.log.arrived + [job]
            && (if s.threadUp && !s.stop && HasRoom(s.ring) then
                  t.ring == s.ring + [job] && t.wake && t.log.pushed == s.log.pushed && t.boundary == s.boundary
                else
                  && t.ring == s.ring && t.wake == s.wake && t.dpcQueued
                  && t.log.pushed == s.log.pushed + [Notice(job, if job.isPreempt then s.boundary else 0)]
                  && t.boundary == if job.isPreempt then s.boundary else job.fence)
  {
    hide Go, PushNewest;
    var i, a := |s.threads|, Thread(|s.threads|);
    var s0 := Next(s, Submit(job));
    assert s0.threads[i] == Check(job);
    GoOne(s0, a, n);
    if s.threadUp && !s.stop {
      var s1 := Next(s0, a);
      assert s1.threads[i] == Insert(job) && s1 == s0.(threads := s0.threads[i := Insert(job)]);
      GoOne(s1, a, n - 1);
      if HasRoom(s.ring) {
        var s2 := Next(s1, a);
        assert s2.threads[i] == Wake;
        GoOne(s2, a, n - 2);
        var s3 := Next(s2, a);
        assert s3.threads == s.threads + [Finished];
        FinishedStays(s3, i, n - 3);
      } else {
        FallBackReturns(s1, Next(s1, a), i, job, n - 2);
      }
    } else {
      FallBackReturns(s0, Next(s0, a), i, job, n - 1);
    }
  }

  /** A caller that could not queue its entry. */
  lemma {:induction false} FallBackReturns(s: Sys, t: Sys, i: nat, job: Job, n: nat)
    requires i < |s.threads| && n >= 3
    requires t == FallBack(s, job).s.(threads := s.threads[i := FallBack(s, job).pc])
    ensures var u := Go(t, Thread(i), n);
            && u.threads == s.threads[i := Finished] && u.dpcQueued
            && u.ring == s.ring && u.wake == s.wake && u.log.submitted == s.log.submitted
            && u.log.arrived == s.log.arrived + [job]
            && u.log.pushed == s.log.pushed + [Notice(job, if job.isPreempt then s.boundary else 0)]
            && u.boundary == if job.isPreempt then s.boundary else job.fence
  {
    hide Go, PushNewest, HasRoom;
    var a := Thread(i);
    var n1 := Notice(job, if job.isPreempt then s.boundary else 0);
    var t1 := Next(t, a);
    assert t1.threads == s.threads[i := InlinePush(n1)];
    var t2 := Next(t1, a);
    assert t2.threads == s.threads[i := InlineDpc];
    var t3 := Next(t2, a);
    assert t3.threads == s.threads[i := Finished];
    GoOne(t, a, n);
    GoOne(t1, a, n - 1);
    GoOne(t2, a, n - 2);
    FinishedStays(t3, i, n - 3);
  }

  // ------------------------------------------------- SchedTeardown

  /** A teardown sets the stop flag and then the event, and returns once the worker has
      ended; from then on there is no worker. */
  lemma {:induction false} TeardownReturns(s: Sys)
    ensures var i, t := |s.threads|, Next(s, Teardown);
            var u := Go(t, Thread(i), 2);
            && u == s.(stop := true, wake := true, threads := s.threads + [StopJoin])
            && Next(u, Thread(i)) == (if s.worker.Exited? then s.(stop := true, wake := true, threadUp := false,
                                                                  threads := s.threads + [Finished])
                                      else u)
  {
    hide PushFence, HasRoom;
    var i, t := |s.threads|, Next(s, Teardown);
    var t1 := Next(t, Thread(i));
    assert t1 == s.(stop := true, threads := s.threads + [StopWake]);
    var u := Next(t1, Thread(i));
    assert u == s.(stop := true, wake := true, threads := s.threads + [StopJoin]);
    GoOne(t, Thread(i), 2);
    GoOne(t1, Thread(i), 1);
    assert u.threads[i := StopJoin] == u.threads && u.threads[i := Finished] == s.threads + [Finished];
  }
}
