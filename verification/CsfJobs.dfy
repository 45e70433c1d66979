/** Jobs the driver has put in the ring and how far the GPU has run each of them. */
module CsfJobs {
  import opened CsfReqAck
  import opened Trampoline

  /** One appended trampoline. clean says that the stream it calls does not write the
      ring, sync and shader pages, which every group VM maps read-write; slot is the
      request the firmware had last acknowledged when it was appended, current says no
      newer one was outstanding, performed counts the effects the GPU has carried out. */
  datatype Job = Job(q: Request, clean: bool, slot: Version, current: bool, performed: nat)

  /** A trampoline runs at most once: it has at most seven effects to perform. */
  const EFFECTS: nat := 7

  /** What the job's trampoline does when the called stream leaves the registers as
      back has them. */
  function Trace(j: Job, back: Registers): seq<Effect> {
    Effects(DecodeAll(Encode(j.q)), map[], back)
  }

  /** The words are the documented program, and the stream keeps off the shared pages. */
  predicate Sound(j: Job) { Encodable(j.q) && j.clean }

  ghost predicate AllSound(jobs: seq<Job>) {
    forall i | 0 <= i < |jobs| :: Sound(jobs[i])
  }

  /** The job's sequence-number increment, its sixth effect, has been performed. */
  predicate Counted(j: Job) { j.performed >= 6 }

  ghost predicate AllCounted(jobs: seq<Job>) {
    forall i | 0 <= i < |jobs| :: Counted(jobs[i])
  }

  function CountedIn(jobs: seq<Job>): (n: nat)
    ensures n <= |jobs|
  {
    if jobs == [] then 0
    else CountedIn(jobs[..|jobs| - 1]) + if Counted(jobs[|jobs| - 1]) then 1 else 0
  }

  /** The same jobs, each at least as far along. */
  ghost predicate Later(before: seq<Job>, after: seq<Job>) {
    && |before| <= |after|
    && forall i | 0 <= i < |before| ::
         && after[i].(performed := 0) == before[i].(performed := 0)
         && before[i].performed <= after[i].performed
  }

  /** The seven effects of a job's trampoline, whatever registers the stream leaves: what
      was asked for is flushed and called, and the wait before the count names exactly the
      scoreboard slots there are, of sixteen, and always slot 0. */
  lemma {:induction false} TraceOf(j: Job, back: Registers)
    requires Encodable(j.q)
    ensures var t := Trace(j, back);
            && |t| == EFFECTS == 7
            && t[0] == Flushed(j.q.latestFlush as bv64) && t[1] == Waited(1)
            && t[2] == Called(j.q.streamVa, j.q.streamSize as bv64) && t[3] == Added(0x42_1040, 0xcafe_babe)
            && t[4] == Waited(Widen(SbWaitMask(j.q.sbSlots))) && t[5] == Added(0x42_1000, 1) && t[6] == Fenced
    ensures forall i: bv32 | i < 32 ::
              Names(SbWaitMask(j.q.sbSlots), i) <==> i < 16 && (i == 0 || i < j.q.sbSlots)
  {
    hide Effects, Encode, DecodeAll, Program, SbWaitMask, Encodable, Names;
    DecodesToProgram(j.q);
    ProgramEffects(j.q, map[], back);
    forall i: bv32 | i < 32
      ensures Names(SbWaitMask(j.q.sbSlots), i) <==> i < 16 && (i == 0 || i < j.q.sbSlots)
    {
      WaitAllNamesEverySlot(j.q.sbSlots, i);
    }
  }

  /** A counted job is one whose stream was called and returned, and whose
      scoreboards were waited for; an uncounted one has not touched the sequence number. */
  lemma {:induction false} CountedMeansFinished(j: Job, back: Registers)
    requires Encodable(j.q) && j.performed <= EFFECTS
    ensures |Trace(j, back)| == EFFECTS
    ensures Added(SYNC_GPU_VA, 1) in Trace(j, back)[..j.performed] <==> Counted(j)
    ensures Counted(j) ==> Called(j.q.streamVa, Widen(j.q.streamSize)) in Trace(j, back)[..j.performed]
    ensures Counted(j) ==> Waited(Widen(SbWaitMask(j.q.sbSlots))) in Trace(j, back)[..j.performed]
  {
    hide Effects;
    hide Encode;
    hide DecodeAll;
    hide Program;
    hide SbWaitMask;
    hide Widen;
    hide Encodable;
    DecodesToProgram(j.q);
    ProgramEffects(j.q, map[], back);
    var t := Trace(j, back);
    assert t[5] == Added(SYNC_GPU_VA, 1) && t[2] == Called(j.q.streamVa, Widen(j.q.streamSize));
    assert t[4] == Waited(Widen(SbWaitMask(j.q.sbSlots)));
    assert t[3] != t[5] by { assert TAG_GPU_VA != SYNC_GPU_VA; }
    if Counted(j) {
      assert t[..j.performed][5] == t[5] && t[..j.performed][2] == t[2] && t[..j.performed][4] == t[4];
    }
  }

  lemma {:induction false} UpdateCounts(jobs: seq<Job>, i: nat, j: Job)
    requires i < |jobs|
    requires Counted(jobs[i]) ==> Counted(j)
    ensures CountedIn(jobs[i := j]) == CountedIn(jobs) + if Counted(j) && !Counted(jobs[i]) then 1 else 0
  {
    var last := |jobs| - 1;
    if i == last {
      assert jobs[i := j][..last] == jobs[..last];
    } else {
      assert jobs[i := j][..last] == jobs[..last][i := j];
      UpdateCounts(jobs[..last], i, j);
    }
  }

  /** The count reaches the number of jobs only when every one of them has counted. */
  lemma {:induction false} FullCountMeansAll(jobs: seq<Job>)
    ensures CountedIn(jobs) == |jobs| <==> AllCounted(jobs)
  {
    if jobs != [] {
      var rest := jobs[..|jobs| - 1];
      FullCountMeansAll(rest);
      assert AllCounted(jobs) <==> AllCounted(rest) && Counted(jobs[|jobs| - 1]) by {
        if AllCounted(rest) && Counted(jobs[|jobs| - 1]) {
          forall i | 0 <= i < |jobs| ensures Counted(jobs[i]) { if i < |rest| { assert rest[i] == jobs[i]; } }
        }
        if AllCounted(jobs) {
          forall i | 0 <= i < |rest| ensures Counted(rest[i]) { assert rest[i] == jobs[i]; }
        }
      }
    }
  }

  lemma {:induction false} LaterComposes(a: seq<Job>, b: seq<Job>, c: seq<Job>)
    requires Later(a, b) && Later(b, c)
    ensures Later(a, c) && (AllSound(c) ==> AllSound(b))
  {
    LaterKeepsSound(b, c);
  }

  lemma {:induction false} LaterKeepsSound(a: seq<Job>, b: seq<Job>)
    requires Later(a, b)
    ensures AllSound(b) ==> AllSound(a)
  {
    hide Encodable;
    if AllSound(b) {
      forall i | 0 <= i < |a| ensures Sound(a[i]) {
        assert Sound(b[i]) && b[i].(performed := 0) == a[i].(performed := 0);
      }
    }
  }

  /** What the driver can tell from the sequence number after these jobs. */
  ghost predicate Counts(jobs: seq<Job>, seqno: nat) {
    AllSound(jobs) ==> seqno == CountedIn(jobs)
  }

  lemma {:induction false} LaterWhenAppended(jobs: seq<Job>, j: Job)
    ensures Later(jobs, jobs + [j])
  {
  }

  lemma {:induction false} NewJobCountsNothing(jobs: seq<Job>, j: Job)
    requires j.performed == 0
    ensures CountedIn(jobs + [j]) == CountedIn(jobs)
    ensures AllSound(jobs + [j]) ==> AllSound(jobs)
  {
    assert (jobs + [j])[..|jobs|] == jobs;
    LaterWhenAppended(jobs, j);
    LaterKeepsSound(jobs, jobs + [j]);
  }
}
