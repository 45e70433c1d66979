/** Whole runs of submissions, trampolines and streams around the one sequence number.
    Every group VM maps the page that holds it read-write, so a stream, once called,
    can store to it. When does a full sequence number mean that all jobs have ended? */
module CsfRuns {
  import opened CsfReqAck
  import opened Trampoline
  import opened CsfJobs

  /** given is the newest number given out, KqJobSeq. */
  datatype Sys = Sys(given: nat, jobs: seq<Job>, seqno: nat)

  datatype Action =
    | Submit(j: Job, room: bool)              // takes a number; appends only when the ring has room
    | Perform(i: nat, back: Registers)        // the next effect of trampoline i
    | Scribble(i: nat, back: Registers, v: nat)  // the stream that trampoline i called stores to the page

  const IDLE: Sys := Sys(0, [], 0)

  /** The trampoline has made its CALL. */
  ghost predicate HasCalled(j: Job, back: Registers) {
    exists k :: 0 <= k < j.performed && k < |Trace(j, back)| && Trace(j, back)[k].Called?
  }

  /** The sequence number after one effect of a trampoline. */
  function Bumped(seqno: nat, e: Effect): nat {
    if e.Added? && e.va == SYNC_GPU_VA then seqno + e.amount as int else seqno
  }

  ghost function After(s: Sys, a: Action): Sys {
    match a
    case Submit(j, room) =>
      Sys(s.given + 1, if room then s.jobs + [j.(performed := 0)] else s.jobs, s.seqno)
    case Perform(i, back) =>
      if i < |s.jobs| && s.jobs[i].performed < |Trace(s.jobs[i], back)| then
        Sys(s.given, s.jobs[i := s.jobs[i].(performed := s.jobs[i].performed + 1)],
            Bumped(s.seqno, Trace(s.jobs[i], back)[s.jobs[i].performed]))
      else s
    case Scribble(i, back, v) =>
      if i < |s.jobs| && !s.jobs[i].clean && HasCalled(s.jobs[i], back) then s.(seqno := v) else s
  }

  ghost function Run(acts: seq<Action>): Sys
    decreases |acts|
  {
    if acts == [] then IDLE else After(Run(acts[..|acts| - 1]), acts[|acts| - 1])
  }

  /** When the wait for the newest number succeeds, every job's trampoline has counted,
      and no number was lost. */
  ghost predicate Trustworthy(s: Sys) {
    s.seqno >= s.given ==> AllCounted(s.jobs) && s.given == |s.jobs|
  }

  // ------------------------------------------------- sound runs

  /** Only the sixth effect touches the sequence number, and adds one. */
  lemma {:induction false} OnlySixthBumps(j: Job, back: Registers, k: nat, seqno: nat)
    requires Encodable(j.q) && k < EFFECTS
    ensures |Trace(j, back)| == EFFECTS
    ensures Bumped(seqno, Trace(j, back)[k]) == if k == 5 then seqno + 1 else seqno
  {
    TraceOf(j, back);
    assert TAG_GPU_VA != SYNC_GPU_VA;
    hide Trace, Encodable, Widen, SbWaitMask;
    if k == 0 {} else if k == 1 {} else if k == 2 {} else if k == 3 {} else if k == 4 {} else if k == 5 {}
  }

  /** A stream that may store to the page has been called: the call is the third effect. */
  ghost predicate DirtyCalled(jobs: seq<Job>) {
    exists i :: 0 <= i < |jobs| && !jobs[i].clean && jobs[i].performed > 2
  }

  /** The number is the count of the jobs that have counted until such a call. */
  ghost predicate Honest(s: Sys) {
    && (forall i | 0 <= i < |s.jobs| :: Encodable(s.jobs[i].q) && s.jobs[i].performed <= EFFECTS)
    && |s.jobs| <= s.given && (s.seqno == CountedIn(s.jobs) || DirtyCalled(s.jobs))
  }

  lemma {:induction false} DirtyStays(s: Sys, a: Action)
    ensures DirtyCalled(s.jobs) ==> DirtyCalled(After(s, a).jobs)
  {
    hide Trace, Bumped, HasCalled;
    if i :| 0 <= i < |s.jobs| && !s.jobs[i].clean && s.jobs[i].performed > 2 {
      var u := After(s, a);
      assert !u.jobs[i].clean && u.jobs[i].performed > 2;
    }
  }

  lemma {:induction false} CalledIff(j: Job, back: Registers)
    requires Encodable(j.q)
    ensures HasCalled(j, back) <==> j.performed > 2
  {
    TraceOf(j, back);
    hide Trace, Encodable, Widen, SbWaitMask;
    if j.performed > 2 { assert Trace(j, back)[2].Called?; }
    if k :| 0 <= k < j.performed && k < |Trace(j, back)| && Trace(j, back)[k].Called? {
      assert k == 0 || k == 1 || k == 2 || k == 3 || k == 4 || k == 5 || k == 6;
    }
  }

  lemma {:induction false} PerformKeepsHonest(s: Sys, i: nat, back: Registers)
    requires Honest(s)
    ensures Honest(After(s, Perform(i, back)))
  {
    hide Encodable, CountedIn, Trace, Bumped, DirtyCalled;
    DirtyStays(s, Perform(i, back));
    if i < |s.jobs| {
      var j := s.jobs[i];
      TraceOf(j, back);
      if j.performed < EFFECTS {
        OnlySixthBumps(j, back, j.performed, s.seqno);
        UpdateCounts(s.jobs, i, j.(performed := j.performed + 1));
      }
    }
  }

  lemma {:induction false} ScribbleKeepsHonest(s: Sys, i: nat, back: Registers, v: nat)
    requires Honest(s)
    ensures Honest(After(s, Scribble(i, back, v)))
  {
    hide Encodable, CountedIn, HasCalled;
    if i < |s.jobs| { CalledIff(s.jobs[i], back); }
  }

  lemma {:induction false} SubmitKeepsHonest(s: Sys, j: Job, room: bool)
    requires Honest(s) && (room ==> Encodable(j.q))
    ensures Honest(After(s, Submit(j, room)))
  {
    hide Encodable, CountedIn, DirtyCalled;
    DirtyStays(s, Submit(j, room));
    NewJobCountsNothing(s.jobs, j.(performed := 0));
  }

  lemma {:induction false} AfterKeepsHonest(s: Sys, a: Action)
    requires Honest(s)
    requires a.Submit? && a.room ==> Encodable(a.j.q)
    ensures Honest(After(s, a))
  {
    hide Honest, After, Encodable;
    match a {
      case Submit(j, room) => SubmitKeepsHonest(s, j, room);
      case Perform(i, back) => PerformKeepsHonest(s, i, back);
      case Scribble(i, back, v) => ScribbleKeepsHonest(s, i, back, v);
    }
  }

  lemma {:induction false} HonestIsTrustworthy(s: Sys)
    requires Honest(s) && AllClean(StreamsOf(s.jobs))
    ensures Trustworthy(s)
  {
    hide Encodable, CountedIn;
    forall i | 0 <= i < |s.jobs| ensures s.jobs[i].clean {
      assert StreamsOf(s.jobs)[i].clean;
    }
    FullCountMeansAll(s.jobs);
  }

  /** Some stream can put v there in one step. */
  ghost predicate CanStore(s: Sys, v: nat) {
    exists i, back :: After(s, Scribble(i, back, v)).seqno == v
  }

  /** In every run the number is exactly the count of the finished jobs until a stream that
      may store to the page has been called, and from then on, and only then, a stream
      can put any other number there. */
  lemma {:induction false} CountIsExactUntilADirtyCall(acts: seq<Action>)
    requires AllEncodable(StreamsOf(Run(acts).jobs))
    ensures var s := Run(acts);
            && (s.seqno == CountedIn(s.jobs) || DirtyCalled(s.jobs))
            && ((forall v: nat :: CanStore(s, v)) <==> DirtyCalled(s.jobs))
  {
    hide AllEncodable, Run, After, CountedIn, Encodable, StreamsOf;
    RunsAreHonest(acts);
    var s := Run(acts);
    if DirtyCalled(s.jobs) {
      var i :| 0 <= i < |s.jobs| && !s.jobs[i].clean && s.jobs[i].performed > 2;
      CalledIff(s.jobs[i], map[]);
      forall v: nat ensures CanStore(s, v) {
        StoreHappens(s, i, map[], v);
      }
    } else if CanStore(s, s.seqno + 1) {
      var i, back :| After(s, Scribble(i, back, s.seqno + 1)).seqno == s.seqno + 1;
      MovedByDirty(s, i, back, s.seqno + 1);
    }
  }

  lemma {:induction false} MovedByDirty(s: Sys, i: nat, back: Registers, v: nat)
    requires Honest(s)
    ensures After(s, Scribble(i, back, v)).seqno != s.seqno ==> DirtyCalled(s.jobs)
  {
    hide Encodable, CountedIn, HasCalled;
    if i < |s.jobs| { CalledIff(s.jobs[i], back); }
  }

  // ------------------------------------------------- which streams may be called

  /** What a submission asks for: the request, and whether its stream keeps off the page. */
  datatype Stream = Stream(q: Request, clean: bool)

  function StreamsOf(jobs: seq<Job>): (r: seq<Stream>)
    ensures |r| == |jobs|
  {
    seq(|jobs|, i requires 0 <= i < |jobs| => Stream(jobs[i].q, jobs[i].clean))
  }

  lemma {:induction false} RunSnoc(acts: seq<Action>, a: Action)
    ensures Run(acts + [a]) == After(Run(acts), a)
  {
    hide After;
    assert (acts + [a])[..|acts|] == acts;
  }

  lemma {:induction false} StreamsStay(s: Sys, a: Action)
    ensures StreamsOf(s.jobs) <= StreamsOf(After(s, a).jobs)
  {
    hide Trace, Bumped, HasCalled;
  }

  ghost predicate AllClean(streams: seq<Stream>) {
    forall i | 0 <= i < |streams| :: streams[i].clean
  }

  ghost predicate AllEncodable(streams: seq<Stream>) {
    forall i | 0 <= i < |streams| :: Encodable(streams[i].q)
  }

  lemma {:induction false} RunsAreHonest(acts: seq<Action>)
    requires AllEncodable(StreamsOf(Run(acts).jobs))
    ensures Honest(Run(acts))
    decreases |acts|
  {
    hide After, Encodable;
    if acts != [] {
      var front, a := acts[..|acts| - 1], acts[|acts| - 1];
      StreamsStay(Run(front), a);
      FewerAreEncodable(StreamsOf(Run(front).jobs), StreamsOf(Run(acts).jobs));
      RunsAreHonest(front);
      NewestIsLast(Run(front), a);
      hide Honest;
      AfterKeepsHonest(Run(front), a);
    }
  }

  lemma {:induction false} FewerAreEncodable(some: seq<Stream>, all: seq<Stream>)
    requires some <= all
    ensures (AllEncodable(all) ==> AllEncodable(some)) && (AllClean(all) ==> AllClean(some))
  {
    hide Encodable;
    assert forall i | 0 <= i < |some| :: some[i] == all[i];
  }

  lemma {:induction false} NewestIsLast(s: Sys, a: Action)
    requires AllEncodable(StreamsOf(After(s, a).jobs))
    ensures a.Submit? && a.room ==> Encodable(a.j.q)
  {
    hide Encodable;
    if a.Submit? && a.room {
      assert StreamsOf(After(s, a).jobs)[|s.jobs|].q == a.j.q;
    }
  }

  // ------------------------------------------------- a stream that stores to the page

  function NewJob(st: Stream): Job {
    Job(st.q, st.clean, Version(Word(START, false, 0), 0), true, 0)
  }

  function NewJobs(streams: seq<Stream>): seq<Job> {
    seq(|streams|, i requires 0 <= i < |streams| => NewJob(streams[i]))
  }

  /** All the streams submitted, none run. */
  lemma {:induction false} SubmitAll(streams: seq<Stream>) returns (acts: seq<Action>)
    ensures Run(acts) == Sys(|streams|, NewJobs(streams), 0)
    decreases |streams|
  {
    if streams == [] {
      acts := [];
    } else {
      var n := |streams| - 1;
      acts := SubmitAll(streams[..n]);
      RunSnoc(acts, Submit(NewJob(streams[n]), true));
      assert NewJobs(streams) == NewJobs(streams[..n]) + [NewJob(streams[n])];
      acts := acts + [Submit(NewJob(streams[n]), true)];
    }
  }

  /** One of the first three effects. */
  lemma {:induction false} PerformUpToCall(s: Sys, i: nat, back: Registers)
    requires i < |s.jobs| && Encodable(s.jobs[i].q) && s.jobs[i].performed < 3
    ensures After(s, Perform(i, back)) ==
            s.(jobs := s.jobs[i := s.jobs[i].(performed := s.jobs[i].performed + 1)])
  {
    OnlySixthBumps(s.jobs[i], back, s.jobs[i].performed, s.seqno);
  }

  /** Any history of streams with one that is not clean has a run in which the wait for
      the newest number succeeds although no other stream has even been called, clean
      ones after it included, and this one's trampoline has not counted. */
  lemma {:induction false} ScribbleFools(streams: seq<Stream>, i: nat) returns (acts: seq<Action>)
    requires AllEncodable(streams) && i < |streams| && !streams[i].clean
    ensures Run(acts) == Sys(|streams|, NewJobs(streams)[i := NewJob(streams[i]).(performed := 3)], |streams|)
    ensures StreamsOf(Run(acts).jobs) == streams && !Trustworthy(Run(acts))
  {
    hide After, Encodable, Trace;
    acts := SubmitAll(streams);
    var jobs, j := NewJobs(streams), NewJob(streams[i]);
    for k := 0 to 3
      invariant Run(acts) == Sys(|streams|, jobs[i := j.(performed := k)], 0)
    {
      PerformUpToCall(Run(acts), i, map[]);
      RunSnoc(acts, Perform(i, map[]));
      acts := acts + [Perform(i, map[])];
    }
    CalledIff(j.(performed := 3), map[]);
    StoreHappens(Run(acts), i, map[], |streams|);
    RunSnoc(acts, Scribble(i, map[], |streams|));
    acts := acts + [Scribble(i, map[], |streams|)];
    assert StreamsOf(Run(acts).jobs) == streams;
    assert !Counted(Run(acts).jobs[i]);
  }

  lemma {:induction false} StoreHappens(s: Sys, i: nat, back: Registers, v: nat)
    requires i < |s.jobs| && !s.jobs[i].clean && HasCalled(s.jobs[i], back)
    ensures After(s, Scribble(i, back, v)) == s.(seqno := v)
  {
  }

  /** For every history of requests: success is to be trusted in all runs that submit
      these streams, in this order, as many as they like, exactly when every one of
      them keeps off the page. */
  lemma {:induction false} TrustIffStreamsAreClean(streams: seq<Stream>)
    requires AllEncodable(streams)
    ensures (forall acts | StreamsOf(Run(acts).jobs) <= streams :: Trustworthy(Run(acts))) <==> AllClean(streams)
  {
    hide AllEncodable, Trustworthy, Run, StreamsOf;
    if AllClean(streams) {
      forall acts | StreamsOf(Run(acts).jobs) <= streams ensures Trustworthy(Run(acts)) {
        FewerAreEncodable(StreamsOf(Run(acts).jobs), streams);
        RunsAreHonest(acts);
        HonestIsTrustworthy(Run(acts));
      }
    } else {
      var i: nat :| i < |streams| && !streams[i].clean;
      var acts := ScribbleFools(streams, i);
    }
  }

  /** The runs whose streams all keep off the page, unless dirtyOk allows others. */
  ghost predicate Within(s: Sys, dirtyOk: bool) {
    AllEncodable(StreamsOf(s.jobs)) && (dirtyOk || AllClean(StreamsOf(s.jobs)))
  }

  /** As a class of runs: success is to be trusted in all of them exactly when no stream
      is let near the page. */
  lemma {:induction false} TrustIffNoDirtyStreams(dirtyOk: bool)
    ensures (forall acts | Within(Run(acts), dirtyOk) :: Trustworthy(Run(acts))) <==> !dirtyOk
  {
    hide Trustworthy, Run, StreamsOf, Encodable;
    if dirtyOk {
      var acts := CleanJobIsFooled();
    } else {
      forall acts | Within(Run(acts), dirtyOk) ensures Trustworthy(Run(acts)) {
        RunsAreHonest(acts);
        HonestIsTrustworthy(Run(acts));
      }
    }
  }

  const SMALL: Request := Request(92, 0x1000_0000, 64, 0, 8)

  /** A clean job submitted after one that is not: it is reported finished before its
      trampoline has performed anything. */
  lemma {:induction false} CleanJobIsFooled() returns (acts: seq<Action>)
    ensures var s := Run(acts);
            && |s.jobs| == s.given == s.seqno == 2 && !s.jobs[0].clean && s.jobs[1].clean
            && s.jobs[0].performed == 3 && s.jobs[1].performed == 0
            && Within(s, true) && !Trustworthy(s)
  {
    var streams := [Stream(SMALL, false), Stream(SMALL, true)];
    assert Encodable(SMALL);
    hide Encodable, Run, Trustworthy, SMALL;
    assert AllEncodable(streams);
    acts := ScribbleFools(streams, 0);
  }
}
