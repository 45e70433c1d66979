/** Submission through the single CSG slot: terminate, reprogram, start, append one
    trampoline, wake the slot, wait for the sequence number. The firmware and the GPU
    take any number of steps of their own wherever the driver polls. */
module Csf {
  import opened CsfReqAck
  import opened Trampoline
  import opened CsfJobs

  const RING_WORDS: nat := 8192
  const RING_BYTES: nat := 65536
  const SLOT_BYTES: nat := 128
  const AS_SLOT_MAX: nat := 16
  const UNPRESERVED_REGS: bv64 := 4

  const SHADER_GPU_VA: bv64 := 0x42_0000

  datatype Status = Success | NotReady | IoTimeout | BufferOverflow | InvalidParameter

  class Csf {
    // The driver's context.
    const csfJobs: bool
    const bootValid: bool
    const bringupAs: nat
    const ring: array<bv64>
    const regCount: bv64
    const sbSlots: bv32
    var config: nat
    var currentCsgAs: nat
    var csgStarted: bool
    var kqJobSeq: nat
    var req: Word
    var insert: nat
    var extractIn: nat

    // What the firmware and the GPU write.
    var ack: Word
    var endpoints: nat
    var extractOut: nat
    var seqno: nat
    /** The firmware's Extract only ever rests between two trampolines. */
    const wholeTrampolines: bool

    // The run so far.
    var hist: seq<Version>
    var acked: nat
    var jobs: seq<Job>
    /** Sequence numbers given out to submissions that then found the ring full. */
    var lost: nat

    /** Both words zero, the ring empty. */
    constructor (csfJobs: bool, bootValid: bool, bringupAs: nat, regCount: bv64, sbSlots: bv32, wholeTrampolines: bool)
      ensures Valid() && Settled() && !csgStarted && jobs == [] && lost == 0 && seqno == 0
      ensures this.csfJobs == csfJobs && this.bootValid == bootValid && this.bringupAs == bringupAs
      ensures this.regCount == regCount && this.sbSlots == sbSlots && this.wholeTrampolines == wholeTrampolines
      ensures fresh(ring)
    {
      this.csfJobs, this.bootValid, this.bringupAs := csfJobs, bootValid, bringupAs;
      this.regCount, this.sbSlots, this.wholeTrampolines := regCount, sbSlots, wholeTrampolines;
      ring := new bv64[RING_WORDS](i => 0);
      config, currentCsgAs, csgStarted, kqJobSeq := 0, 0, false, 0;
      req, ack := Word(0, false, 0), Word(0, false, 0);
      insert, extractIn, extractOut, endpoints, seqno := 0, 0, 0, 0, 0;
      hist, acked, jobs, lost := [Version(Word(0, false, 0), 0)], 0, [], 0;
    }

    predicate Aligned(x: nat) {
      x % 8 == 0 && (wholeTrampolines ==> x % SLOT_BYTES == 0)
    }

    ghost predicate SlotValid()
      reads `hist, `acked, `req, `ack, `config, `currentCsgAs, `csgStarted
    {
      && History(hist, acked)
      && Newest(hist).word == req
      && hist[acked].word.state == ack.state && hist[acked].word.ep == ack.ep
      && (csgStarted ==> config == currentCsgAs)
    }

    ghost predicate JobsValid()
      reads `jobs, `seqno, `kqJobSeq, `lost
    {
      && (forall i | 0 <= i < |jobs| :: jobs[i].performed <= EFFECTS)
      && Counts(jobs, seqno)
      && kqJobSeq == |jobs| + lost
    }

    ghost predicate Valid()
      reads this
    {
      ring.Length == RING_WORDS && SlotValid() && JobsValid() && Aligned(insert) && Aligned(extractOut)
    }

    /** No endpoint request is outstanding, as far as the two words show. */
    predicate Settled()
      reads `req, `ack
    {
      req.ep == ack.ep
    }

    /** The firmware has processed the newest request, a START for this space. */
    ghost predicate Serving(asSlot: nat)
      reads `hist, `acked
    {
      && acked + 1 == |hist|
      && hist[acked].word.state == START
      && hist[acked].asSlot == asSlot
    }

    // ------------------------------------------------- firmware and GPU

    method FirmwareAcks()
      requires Valid()
      modifies `ack, `acked
      ensures Valid() && old(acked) <= acked
    {
      hide Aligned;
      hide JobsValid;
      hide History;
      var b: nat := *;
      var events: nat := *;
      HistoryRange(hist, acked);
      if acked <= b < |hist| {
        AckKeepsHistory(hist, acked, b);
        acked := b;
        ack := hist[b].word.(events := events);
      }
    }

    /** One effect of one trampoline. A trampoline that is not the documented program,
        or calls a stream that does not keep off the shared pages, may do anything to
        the sequence number and the ring, at any time. */
    method GpuPerforms()
      requires Valid()
      modifies `jobs, `seqno, ring
      ensures Valid() && Later(old(jobs), jobs) && |jobs| == |old(jobs)|
      ensures AllSound(jobs) ==> ring[..] == old(ring[..])
    {
      hide Valid, Sound, Encodable, Later, AllSound;
      var i: int := *;
      LaterIsReflexive(jobs);
      if 0 <= i < |jobs| {
        if !Sound(jobs[i]) { Scribble(i); }
        if jobs[i].performed < EFFECTS { PerformNext(i); }
      }
    }

    /** What a trampoline that is not sound may do besides. */
    method Scribble(i: nat)
      requires Valid() && i < |jobs| && !Sound(jobs[i])
      modifies `seqno, ring
      ensures Valid() && !AllSound(jobs)
    {
      hide SlotValid, Aligned, Encodable, CountedIn;
      assert !AllSound(jobs);
      var value: nat := *;
      var word: bv64 := *;
      var at: int := *;
      seqno := value;
      if 0 <= at < ring.Length { ring[at] := word; }
    }

    method PerformNext(i: nat)
      requires Valid() && i < |jobs| && jobs[i].performed < EFFECTS
      modifies `jobs, `seqno
      ensures Valid() && Later(old(jobs), jobs) && |jobs| == |old(jobs)|
      ensures AllSound(jobs) <==> AllSound(old(jobs))
    {
      hide SlotValid, Aligned, Encodable, AllSound;
      var j := jobs[i].(performed := jobs[i].performed + 1);
      UpdateCounts(jobs, i, j);
      SameSoundness(jobs, i, j);
      hide CountedIn;
      if Sound(j) && j.performed == 6 { seqno := seqno + 1; }
      jobs := jobs[i := j];
    }

    method FirmwareMoves()
      requires Valid()
      modifies `extractOut, `endpoints
      ensures Valid()
    {
      hide SlotValid;
      hide JobsValid;
      var e: nat := *;
      var n: nat := *;
      endpoints := n;
      if Aligned(e) { extractOut := e; }
    }

    /** Any number of steps of theirs. */
    method Poll()
      requires Valid()
      modifies `ack, `acked, `jobs, `seqno, `extractOut, `endpoints, ring
      ensures Valid() && old(acked) <= acked && Later(old(jobs), jobs) && |jobs| == |old(jobs)|
      ensures AllSound(jobs) ==> ring[..] == old(ring[..])
    {
      hide SlotValid;
      hide JobsValid;
      hide Aligned;
      hide Later;
      hide AllSound;
      var steps: nat := *;
      LaterIsReflexive(jobs);
      while steps > 0
        invariant Valid() && old(acked) <= acked && Later(old(jobs), jobs) && |jobs| == |old(jobs)|
        invariant AllSound(jobs) ==> ring[..] == old(ring[..])
      {
        ghost var before := jobs;
        FirmwareAcks();
        GpuPerforms();
        FirmwareMoves();
        LaterComposes(old(jobs), before, jobs);
        steps := steps - 1;
      }
    }

    // ------------------------------------------------- the driver

    /** Polls until Ack shows what Req asks, in the state field and, when both is set,
        the endpoint field. */
    method WaitReqAck(both: bool, timeoutMs: nat) returns (ok: bool)
      requires Valid()
      modifies `ack, `acked, `jobs, `seqno, `extractOut, `endpoints, ring
      ensures Valid() && old(acked) <= acked && Later(old(jobs), jobs) && |jobs| == |old(jobs)|
      ensures AllSound(jobs) ==> ring[..] == old(ring[..])
      ensures ok ==> ack.state == req.state && (both ==> ack.ep == req.ep)
      ensures timeoutMs > 0 && old(ack.state == req.state && (both ==> ack.ep == req.ep)) ==> ok
    {
      hide SlotValid;
      hide JobsValid;
      hide Aligned;
      hide Later;
      hide AllSound;
      LaterIsReflexive(jobs);
      for i := 0 to timeoutMs
        invariant Valid() && old(acked) <= acked && Later(old(jobs), jobs) && |jobs| == |old(jobs)|
        invariant AllSound(jobs) ==> ring[..] == old(ring[..])
        invariant i == 0 ==> ack == old(ack)
        invariant i > 0 ==> !old(ack.state == req.state && (both ==> ack.ep == req.ep))
      {
        if ack.state == req.state && (both ==> ack.ep == req.ep) { return true; }
        ghost var before := jobs;
        Poll();
        LaterComposes(old(jobs), before, jobs);
      }
      return false;
    }

    /** Stops the slot. Whatever the firmware answers, it counts as stopped. */
    method TerminateCsg() returns (status: Status)
      requires Valid()
      modifies `req, `csgStarted, `hist, `ack, `acked, `jobs, `seqno, `extractOut, `endpoints, ring
      ensures Valid() && Later(old(jobs), jobs) && |jobs| == |old(jobs)|
      ensures AllSound(jobs) ==> ring[..] == old(ring[..])
      ensures !csgStarted && old(acked) <= acked && req.ep == old(req.ep)
      ensures hist == if old(csgStarted) then old(hist) + [Version(old(req).(state := TERMINATE), config)] else old(hist)
      ensures status == Success || status == IoTimeout
      ensures status == Success && old(csgStarted) ==> ack.state == TERMINATE
      ensures !old(csgStarted) ==> status == Success && req == old(req) && ack == old(ack) && jobs == old(jobs)
      ensures old(Settled()) ==> Settled()
    {
      hide JobsValid;
      hide Aligned;
      hide Later;
      hide AllSound;
      hide History;
      LaterIsReflexive(jobs);
      if !csgStarted { return Success; }
      ghost var settled := Settled();
      HistoryRange(hist, acked);
      if settled { NothingPending(); }
      var v := Version(req.(state := TERMINATE), config);
      CopyKeepsHistory(hist, acked, v);
      req := v.word;
      hist := hist + [v];
      var ok := WaitReqAck(false, 1000);
      csgStarted := false;
      status := if ok then Success else IoTimeout;
      HistoryRange(hist, acked);
    }

    /** With nothing outstanding, every version the firmware may still acknowledge
        carries the endpoint bit of the newest one. */
    lemma {:induction false} NothingPending()
      requires SlotValid() && Settled()
      ensures forall b | acked <= b < |hist| :: hist[b].word.ep == req.ep
    {
    }

    /** Programs the empty ring and the address space, then asks for START. */
    method ProgramAndStartCsg(asSlot: nat) returns (status: Status)
      requires Valid() && !csgStarted
      modifies `req, `csgStarted, `currentCsgAs, `config, `insert, `extractIn, `hist,
               `ack, `acked, `jobs, `seqno, `extractOut, `endpoints, ring
      ensures Valid() && Later(old(jobs), jobs) && |jobs| == |old(jobs)|
      ensures AllSound(jobs) ==> ring[..] == old(ring[..])
      ensures config == asSlot && old(acked) <= acked
      ensures |hist| == |old(hist)| + 1 && hist[..|old(hist)|] == old(hist)
      ensures Newest(hist).asSlot == asSlot && req == Word(START, !old(ack.ep), old(req.events))
      ensures insert == extractIn == old(extractOut)
      ensures status == Success || status == IoTimeout
      ensures csgStarted <==> status == Success
      ensures currentCsgAs == if status == Success then asSlot else old(currentCsgAs)
      ensures status == Success && old(Settled()) ==> Serving(asSlot) && Settled()
    {
      hide JobsValid;
      hide Later;
      hide AllSound;
      hide History;
      LaterIsReflexive(jobs);
      extractIn := extractOut;
      insert := extractOut;
      config := asSlot;
      var csgAck := ack;
      ghost var seen := acked;
      Poll();
      ghost var before := jobs;
      status := StartWith(asSlot, csgAck, seen);
      LaterComposes(old(jobs), before, jobs);
      if status == Success {
        currentCsgAs := asSlot;
        csgStarted := true;
      }
    }

    /** Asks for START with the endpoint bit toggled against an Ack read earlier, when
        version seen was the acknowledged one, and waits. */
    method StartWith(asSlot: nat, csgAck: Word, ghost seen: nat) returns (status: Status)
      requires Valid() && !csgStarted && config == asSlot
      requires seen <= acked && History(hist, seen) && hist[seen].word.ep == csgAck.ep
      modifies `req, `hist, `ack, `acked, `jobs, `seqno, `extractOut, `endpoints, ring
      ensures Valid() && Later(old(jobs), jobs) && |jobs| == |old(jobs)|
      ensures AllSound(jobs) ==> ring[..] == old(ring[..])
      ensures old(acked) <= acked
      ensures hist == old(hist) + [Version(req, asSlot)]
      ensures req == Word(START, !csgAck.ep, old(req.events))
      ensures status == Success || status == IoTimeout
      ensures status == Success && old(req.ep) == csgAck.ep ==> Serving(asSlot) && Settled()
    {
      hide JobsValid;
      hide Aligned;
      hide Later;
      hide AllSound;
      hide History;
      HistoryRange(hist, seen);
      HistoryRange(hist, acked);
      var v := Version(Word(START, !csgAck.ep, req.events), asSlot);
      ToggleKeepsHistory(hist, seen, acked, v);
      if req.ep == csgAck.ep { FreshAnswerIffNothingPending(hist, seen, v); }
      req := v.word;
      hist := hist + [v];
      var ok := WaitReqAck(true, 5000);
      HistoryRange(hist, acked);
      if ok { assert Answers(hist, acked); }
      status := if ok then Success else IoTimeout;
    }

    /** Binds the slot to an address space; a slot number past the last asks for none. */
    method RebindCsgAs(asSlot: nat) returns (status: Status)
      requires Valid()
      modifies `req, `csgStarted, `currentCsgAs, `config, `insert, `extractIn, `hist,
               `ack, `acked, `jobs, `seqno, `extractOut, `endpoints, ring
      ensures Valid() && Later(old(jobs), jobs) && |jobs| == |old(jobs)|
      ensures AllSound(jobs) ==> ring[..] == old(ring[..])
      ensures status == Success || status == IoTimeout
      ensures asSlot >= AS_SLOT_MAX ==>
                status == Success && hist == old(hist) && config == old(config) && csgStarted == old(csgStarted)
      ensures asSlot < AS_SLOT_MAX ==> config == asSlot && (csgStarted <==> status == Success)
      ensures asSlot < AS_SLOT_MAX && status == Success ==> currentCsgAs == asSlot
      ensures asSlot < AS_SLOT_MAX && status == Success && old(Settled()) ==> Serving(asSlot) && Settled()
    {
      hide SlotValid;
      hide JobsValid;
      hide Aligned;
      hide Later;
      hide AllSound;
      hide Serving;
      LaterIsReflexive(jobs);
      if asSlot >= AS_SLOT_MAX { return Success; }
      var ignored := TerminateCsg();
      ghost var before := jobs;
      status := ProgramAndStartCsg(asSlot);
      LaterComposes(old(jobs), before, jobs);
    }

    /** Acknowledges the firmware's events and asks for endpoints again, unless the slot
        is hot. The answer is not waited for to the end. */
    method WakeCsgIfIdle()
      requires Valid()
      modifies `req, `hist, `ack, `acked, `jobs, `seqno, `extractOut, `endpoints, ring
      ensures Valid() && Later(old(jobs), jobs) && |jobs| == |old(jobs)|
      ensures AllSound(jobs) ==> ring[..] == old(ring[..])
      ensures old(ack.events == 0 && endpoints != 0) ==> hist == old(hist) && req == old(req)
      ensures !old(ack.events == 0 && endpoints != 0) ==>
                && req == Word(START, !old(ack.ep), old(ack.events))
                && hist == old(hist) + [Version(req, config)]
    {
      hide JobsValid;
      hide Aligned;
      hide Later;
      hide AllSound;
      hide History;
      LaterIsReflexive(jobs);
      var seenAck := ack;
      ghost var seen := acked;
      var hot := ack.events == 0 && endpoints != 0;
      if hot { return; }
      HistoryRange(hist, seen);
      Poll();
      HistoryRange(hist, acked);
      ghost var before := jobs;
      var v := Version(Word(START, !seenAck.ep, seenAck.events), config);
      ToggleKeepsHistory(hist, seen, acked, v);
      req := v.word;
      hist := hist + [v];
      var ignored := WaitReqAck(true, 1000);
      LaterComposes(old(jobs), before, jobs);
    }

    /** The ring is as before except that these words end at Insert. */
    ghost predicate AppendedTo(before: seq<bv64>, words: seq<bv64>)
      reads ring, `insert
    {
      PlacedIn(before, ring[..], insert, words)
    }

    /** Copies one trampoline to the masked Insert, or finds no room before the end. */
    method Append(q: Request, clean: bool) returns (ok: bool)
      requires Valid()
      modifies `insert, `extractIn, ring, `jobs, `lost, `kqJobSeq
      ensures Valid() && kqJobSeq == old(kqJobSeq) + 1
      ensures ok <==> old(insert) % RING_BYTES + SLOT_BYTES <= RING_BYTES
      ensures wholeTrampolines ==> ok
      ensures !ok ==> ring[..] == old(ring[..]) && insert == old(insert) && jobs == old(jobs) && lost == old(lost) + 1
      ensures ok ==> lost == old(lost) && jobs == old(jobs) + [Job(q, clean, hist[acked], acked + 1 == |hist|, 0)]
      ensures ok ==> insert == old(insert) % RING_BYTES + SLOT_BYTES
      ensures ok ==> AppendedTo(old(ring[..]), Encode(q))
    {
      hide SlotValid, Encode, Counts;
      HistoryOf();
      kqJobSeq := kqJobSeq + 1;
      var words := Encode(q);
      var ringInsert := insert % RING_BYTES;
      MaskedInsert(insert);
      var extract := extractOut;
      if ringInsert + SLOT_BYTES > RING_BYTES {
        lost := lost + 1;
        return false;
      }
      CopyIn(ringInsert / 8, words);
      extractIn := extract;
      insert := ringInsert + SLOT_BYTES;
      ghost var before := jobs;
      jobs := jobs + [Job(q, clean, hist[acked], acked + 1 == |hist|, 0)];
      JobsGrow(before, jobs[|before|], seqno);
      return true;
    }

    method CopyIn(at: nat, words: seq<bv64>)
      requires at + |words| <= ring.Length
      modifies ring
      ensures ring[..] == old(ring[..])[..at] + words + old(ring[..])[at + |words|..]
    {
      forall i | 0 <= i < |words| { ring[at + i] := words[i]; }
    }

    lemma {:induction false} HistoryOf()
      requires SlotValid()
      ensures acked < |hist|
    {
    }

    lemma {:induction false} MaskedInsert(x: nat)
      requires Aligned(x)
      ensures Aligned(x % RING_BYTES) && Aligned(x % RING_BYTES + SLOT_BYTES) && x % RING_BYTES % 8 == 0
      ensures wholeTrampolines ==> x % RING_BYTES + SLOT_BYTES <= RING_BYTES
    {
      Multiple8(x % RING_BYTES, 8192 * (x / RING_BYTES));
      Multiple128(x % RING_BYTES, 512 * (x / RING_BYTES));
    }

    method WaitSeqno(jobSeq: nat, timeoutMs: nat) returns (status: Status)
      requires Valid()
      modifies `ack, `acked, `jobs, `seqno, `extractOut, `endpoints, ring
      ensures Valid() && old(acked) <= acked && Later(old(jobs), jobs) && |jobs| == |old(jobs)|
      ensures AllSound(jobs) ==> ring[..] == old(ring[..])
      ensures status == Success || status == IoTimeout
      ensures status == Success ==> jobSeq <= seqno
      ensures timeoutMs > 0 && jobSeq <= old(seqno) ==> status == Success
    {
      hide SlotValid;
      hide JobsValid;
      hide Aligned;
      hide Later;
      hide AllSound;
      LaterIsReflexive(jobs);
      for i := 0 to timeoutMs
        invariant Valid() && old(acked) <= acked && Later(old(jobs), jobs) && |jobs| == |old(jobs)|
        invariant AllSound(jobs) ==> ring[..] == old(ring[..])
        invariant i == 0 ==> seqno == old(seqno)
        invariant i > 0 ==> old(seqno) < jobSeq
      {
        if jobSeq <= seqno { return Success; }
        ghost var before := jobs;
        Poll();
        LaterComposes(old(jobs), before, jobs);
      }
      return IoTimeout;
    }

    function RequestFor(streamVa: bv64, streamSize: bv32, latestFlush: bv32): Request {
      Request(regCount - UNPRESERVED_REGS, streamVa, streamSize, latestFlush, sbSlots)
    }

    lemma {:induction false} RequestFields(streamVa: bv64, streamSize: bv32, latestFlush: bv32)
      ensures var q := RequestFor(streamVa, streamSize, latestFlush);
              && q.streamVa == streamVa && q.streamSize == streamSize && q.latestFlush == latestFlush
              && q.sbSlots == sbSlots && q.addrReg == regCount - 4
    {
    }

    /** Appends to a bound slot, wakes it, and waits for the job's number. */
    method RunStream(q: Request, clean: bool, timeoutMs: nat) returns (status: Status)
      requires Valid()
      modifies `req, `insert, `extractIn, `hist, `ack, `acked, `jobs, `seqno, `extractOut, `endpoints,
               `lost, `kqJobSeq, ring
      ensures Valid() && Later(old(jobs), jobs)
      ensures status == Success || status == IoTimeout || status == BufferOverflow
      ensures lost == old(lost) + if status == BufferOverflow then 1 else 0
      ensures wholeTrampolines ==> status != BufferOverflow
      ensures |jobs| == |old(jobs)| + if status == BufferOverflow then 0 else 1
      ensures status == BufferOverflow ==> ring[..] == old(ring[..])
      ensures status != BufferOverflow ==>
                && (AllSound(jobs) ==> AppendedTo(old(ring[..]), Encode(q)))
                && old(acked < |hist|)
                && Tracks(jobs[|old(jobs)|], q, clean, old(hist)[old(acked)], old(acked + 1 == |hist|))
      ensures status == Success && AllSound(jobs) ==> AllCounted(jobs) && lost == 0
    {
      hide SlotValid;
      hide JobsValid;
      hide Aligned;
      hide Later;
      hide AllSound;
      hide Encode;
      hide AllCounted;
      hide PlacedIn;
      HistoryOf();
      var jobSeq := kqJobSeq + 1;
      ghost var job := Job(q, clean, hist[acked], acked + 1 == |hist|, 0);
      var ok := Append(q, clean);
      LaterWhenAppended(old(jobs), job);
      if !ok {
        LaterIsReflexive(jobs);
        return BufferOverflow;
      }
      ghost var appended := jobs;
      WakeCsgIfIdle();
      ghost var woken := jobs;
      status := WaitSeqno(jobSeq, timeoutMs);
      LaterComposes(appended, woken, jobs);
      LaterComposes(old(jobs), appended, jobs);
      LaterKeepsJob(appended, jobs, |old(jobs)|);
      if status == Success && AllSound(jobs) { CountedUp(); }
    }

    /** One submission. If it appends anything it appends exactly one trampoline, and
        only after a successful rebind; success means every job so far has finished. */
    method SubmitStreamCall(streamVa: bv64, streamSize: bv32, latestFlush: bv32, asSlot: nat, timeoutMs: nat, clean: bool)
      returns (status: Status)
      requires Valid()
      modifies this, ring
      ensures Valid() && Later(old(jobs), jobs)
      ensures status != InvalidParameter && (status == NotReady <==> !bootValid)
      ensures status == NotReady ==> jobs == old(jobs) && hist == old(hist) && kqJobSeq == old(kqJobSeq)
      ensures lost == old(lost) + if status == BufferOverflow then 1 else 0
      ensures wholeTrampolines ==> status != BufferOverflow
      ensures |jobs| == |old(jobs)| || |jobs| == |old(jobs)| + 1
      ensures status == Success ==> |jobs| == |old(jobs)| + 1
      ensures |jobs| == |old(jobs)| && AllSound(jobs) ==> ring[..] == old(ring[..])
      ensures |jobs| > |old(jobs)| && AllSound(jobs) ==>
                AppendedTo(old(ring[..]), Encode(jobs[|old(jobs)|].q))
      ensures |jobs| > |old(jobs)| ==>
                && jobs[|old(jobs)|].clean == clean
                && jobs[|old(jobs)|].q.streamVa == streamVa && jobs[|old(jobs)|].q.streamSize == streamSize
                && jobs[|old(jobs)|].q.latestFlush == latestFlush
                && jobs[|old(jobs)|].q.sbSlots == sbSlots && jobs[|old(jobs)|].q.addrReg == regCount - 4
      ensures |jobs| > |old(jobs)| && asSlot < AS_SLOT_MAX ==> config == asSlot == currentCsgAs && csgStarted
      ensures |jobs| > |old(jobs)| && asSlot < AS_SLOT_MAX && old(Settled()) ==>
                StartedFor(jobs[|old(jobs)|], asSlot)
      ensures status == Success && AllSound(jobs) ==> AllCounted(jobs) && lost == 0
    {
      hide SlotValid;
      hide JobsValid;
      hide Aligned;
      hide Later;
      hide AllSound;
      hide Encode;
      hide AllCounted;
      hide PlacedIn;
      LaterIsReflexive(jobs);
      if !bootValid { return NotReady; }
      status := RebindCsgAs(asSlot);
      if status != Success { return; }
      ghost var bound := jobs;
      ghost var q := RequestFor(streamVa, streamSize, latestFlush);
      RequestFields(streamVa, streamSize, latestFlush);
      hide RequestFor;
      status := RunStream(RequestFor(streamVa, streamSize, latestFlush), clean, timeoutMs);
      if status != BufferOverflow { assert jobs[|bound|].q == q && jobs[|bound|].clean == clean; }
      LaterComposes(old(jobs), bound, jobs);
    }

    method SubmitNopJob(nopBytes: bv32, timeoutMs: nat) returns (status: Status)
      requires Valid()
      modifies this, ring
      ensures Valid() && Later(old(jobs), jobs)
      ensures !csfJobs || !bootValid <==> status == NotReady
      ensures |jobs| > |old(jobs)| && bringupAs < AS_SLOT_MAX && old(Settled()) ==>
                StartedFor(jobs[|old(jobs)|], bringupAs)
      ensures status == Success ==> |jobs| == |old(jobs)| + 1
      ensures |jobs| > |old(jobs)| ==>
                && jobs[|old(jobs)|].q.streamVa == 0x42_0000 && jobs[|old(jobs)|].q.streamSize == nopBytes
                && jobs[|old(jobs)|].q.latestFlush == 0
                && jobs[|old(jobs)|].q.sbSlots == sbSlots && jobs[|old(jobs)|].q.addrReg == regCount - 4
      ensures status == Success && AllSound(jobs) ==> AllCounted(jobs) && lost == 0
    {
      hide Later;
      hide AllSound;
      hide SlotValid;
      hide JobsValid;
      hide AllCounted;
      LaterIsReflexive(jobs);
      if !csfJobs { return NotReady; }
      status := SubmitStreamCall(SHADER_GPU_VA, nopBytes, 0, bringupAs, timeoutMs, true);
    }

    /** A user-mode stream in its group's address space. A failed one leaves the slot
        programmed for the bring-up space again. */
    method SubmitGroupStream(asSlot: nat, streamVa: bv64, streamSize: bv32, latestFlush: bv32, timeoutMs: nat, clean: bool)
      returns (status: Status)
      requires Valid() && bringupAs < AS_SLOT_MAX
      modifies this, ring
      ensures Valid() && Later(old(jobs), jobs)
      ensures !csfJobs ==> status == NotReady
      ensures csfJobs ==>
                (status == InvalidParameter <==> asSlot >= AS_SLOT_MAX || streamVa == 0 || streamSize == 0)
      ensures !csfJobs || status == InvalidParameter ==> jobs == old(jobs) && hist == old(hist) && config == old(config)
      ensures status == Success ==> |jobs| == |old(jobs)| + 1 && config == asSlot == currentCsgAs && csgStarted
      ensures |jobs| == |old(jobs)| || |jobs| == |old(jobs)| + 1
      ensures |jobs| > |old(jobs)| ==>
                && jobs[|old(jobs)|].clean == clean
                && jobs[|old(jobs)|].q.streamVa == streamVa && jobs[|old(jobs)|].q.streamSize == streamSize
                && jobs[|old(jobs)|].q.latestFlush == latestFlush
                && jobs[|old(jobs)|].q.sbSlots == sbSlots && jobs[|old(jobs)|].q.addrReg == regCount - 4
      ensures csfJobs && status != Success && status != InvalidParameter ==>
                config == bringupAs && (csgStarted ==> currentCsgAs == bringupAs)
      ensures |jobs| > |old(jobs)| && old(Settled()) ==> StartedFor(jobs[|old(jobs)|], asSlot)
      ensures status == Success && AllSound(jobs) ==> AllCounted(jobs) && lost == 0
    {
      hide Later;
      hide AllSound;
      hide SlotValid;
      hide JobsValid;
      hide AllCounted;
      hide PlacedIn;
      hide StartedFor;
      LaterIsReflexive(jobs);
      if !csfJobs { return NotReady; }
      if asSlot >= AS_SLOT_MAX || streamVa == 0 || streamSize == 0 { return InvalidParameter; }
      status := SubmitStreamCall(streamVa, streamSize, latestFlush, asSlot, timeoutMs, clean);
      if status != Success {
        ghost var submitted := jobs;
        var ignored := RebindCsgAs(bringupAs);
        LaterComposes(old(jobs), submitted, jobs);
        if |submitted| > |old(jobs)| {
          KeepsStart(submitted, jobs, |old(jobs)|, asSlot);
          LaterKeepsJob(submitted, jobs, |old(jobs)|);
        }
      }
    }

    /** The sequence number is the number of jobs that finished, so it never passes
        the numbers given out, and stays short of them for good once one is lost. */
    lemma {:induction false} SeqnoCountsFinishedJobs()
      requires JobsValid() && AllSound(jobs)
      ensures seqno == CountedIn(jobs) <= kqJobSeq
      ensures seqno == kqJobSeq <==> lost == 0 && AllCounted(jobs)
    {
      FullCountMeansAll(jobs);
    }

    /** Reaching the newest number means no number was lost and every job finished. */
    lemma {:induction false} CountedUp()
      requires JobsValid() && AllSound(jobs) && kqJobSeq <= seqno
      ensures AllCounted(jobs) && lost == 0 && seqno == |jobs|
    {
      FullCountMeansAll(jobs);
    }
  }

  ghost predicate PlacedIn(before: seq<bv64>, now: seq<bv64>, insert: nat, words: seq<bv64>) {
    && |before| == RING_WORDS
    && |words| == 16 && SLOT_BYTES <= insert <= RING_BYTES && insert % 8 == 0
    && var at := insert / 8 - 16;
       now == before[..at] + words + before[at + 16..]
  }

  predicate Tracks(j: Job, q: Request, clean: bool, slot: Version, current: bool) {
    j.q == q && j.clean == clean && j.slot == slot && j.current == current
  }

  /** When the job's trampoline went into the ring, the firmware had processed the
      newest request, and it was a START for this address space. */
  predicate StartedFor(j: Job, asSlot: nat) {
    j.current && j.slot.word.state == START && j.slot.asSlot == asSlot
  }

  lemma {:induction false} Multiple8(r: nat, m: nat)
    ensures (r + 8 * m) % 8 == r % 8 && (r + SLOT_BYTES) % 8 == r % 8
  {
  }

  lemma {:induction false} Multiple128(r: nat, m: nat)
    ensures (r + 128 * m) % 128 == r % 128 && (r + SLOT_BYTES) % 128 == r % 128
  {
  }

  lemma {:induction false} SameSoundness(jobs: seq<Job>, i: nat, j: Job)
    requires i < |jobs| && j.q == jobs[i].q && j.clean == jobs[i].clean
    ensures AllSound(jobs[i := j]) <==> AllSound(jobs)
    ensures !Sound(j) ==> !AllSound(jobs)
  {
    hide Encodable;
    var u := jobs[i := j];
    assert forall k | 0 <= k < |jobs| :: Sound(u[k]) <==> Sound(jobs[k]);
  }

  lemma {:induction false} JobsGrow(jobs: seq<Job>, j: Job, seqno: nat)
    requires Counts(jobs, seqno) && j.performed == 0
    ensures Counts(jobs + [j], seqno)
  {
    hide Encodable, CountedIn, AllSound;
    NewJobCountsNothing(jobs, j);
  }

  lemma {:induction false} KeepsStart(a: seq<Job>, b: seq<Job>, i: nat, asSlot: nat)
    requires Later(a, b) && i < |a|
    ensures i < |b| && (StartedFor(a[i], asSlot) ==> StartedFor(b[i], asSlot))
  {
  }

  lemma {:induction false} HistoryRange(h: seq<Version>, a: nat)
    requires History(h, a)
    ensures a < |h|
  {
  }

  lemma {:induction false} LaterIsReflexive(jobs: seq<Job>)
    ensures Later(jobs, jobs)
  {
  }

  lemma {:induction false} LaterKeepsJob(a: seq<Job>, b: seq<Job>, i: nat)
    requires Later(a, b) && i < |a|
    ensures i < |b| && Tracks(b[i], a[i].q, a[i].clean, a[i].slot, a[i].current)
  {
  }
}
