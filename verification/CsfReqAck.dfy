/** The request/acknowledge words of CSG slot 0. The driver writes Req, the firmware
    copies a Req it has seen into Ack; two fields matter to the driver: the state it
    asks for, and an endpoint-config bit that asks by being different from Ack. */
module CsfReqAck {
  const TERMINATE: nat := 0
  const START: nat := 1

  /** Req or Ack: state in bits 2..0, endpoint config in bit 4, events in bits 31..28. */
  datatype Word = Word(state: nat, ep: bool, events: nat)

  /** One value Req has had, with the address space Config named when it was written. */
  datatype Version = Version(word: Word, asSlot: nat)

  /** From the acknowledged version on, the endpoint bit flips at most once. */
  ghost predicate OneFlip(h: seq<Version>, acked: nat) {
    && acked < |h|
    && forall i, j | acked <= i <= j < |h| :: h[i].word.ep != h[acked].word.ep ==> h[j].word.ep == h[i].word.ep
  }

  /** Only a START request ever flips the endpoint bit. */
  ghost predicate FlipsAreStarts(h: seq<Version>) {
    forall j | 0 < j < |h| :: h[j].word.ep != h[j - 1].word.ep ==> h[j].word.state == START
  }

  ghost predicate History(h: seq<Version>, acked: nat) {
    OneFlip(h, acked) && FlipsAreStarts(h)
  }

  function Newest(h: seq<Version>): Version
    requires h != []
  {
    h[|h| - 1]
  }

  /** What waiting on both fields accepts as an answer to the newest request. */
  ghost predicate Answers(h: seq<Version>, b: nat) {
    b < |h| && h[b].word.state == Newest(h).word.state && h[b].word.ep == Newest(h).word.ep
  }

  /** The firmware acknowledging later versions keeps the history well formed. */
  lemma {:induction false} AckKeepsHistory(h: seq<Version>, a: nat, b: nat)
    requires History(h, a) && a <= b < |h|
    ensures History(h, b)
  {
  }

  /** A request that leaves the endpoint bit alone keeps it well formed. */
  lemma {:induction false} CopyKeepsHistory(h: seq<Version>, a: nat, v: Version)
    requires History(h, a) && v.word.ep == Newest(h).word.ep
    ensures History(h + [v], a)
  {
  }

  /** So does a START with the endpoint bit opposite to an Ack read earlier, however
      far the firmware has moved on since. */
  lemma {:induction false} ToggleKeepsHistory(h: seq<Version>, seen: nat, a: nat, v: Version)
    requires History(h, seen) && seen <= a < |h|
    requires v.word.state == START && v.word.ep == !h[seen].word.ep
    ensures History(h + [v], a)
  {
  }

  lemma {:induction false} FirstFlip(h: seq<Version>, a: nat) returns (m: nat)
    requires a < |h| && Newest(h).word.ep != h[a].word.ep
    ensures a < m < |h| && h[m].word.ep != h[a].word.ep && h[m - 1].word.ep == h[a].word.ep
    decreases |h| - a
  {
    if h[a + 1].word.ep != h[a].word.ep {
      m := a + 1;
    } else {
      m := FirstFlip(h, a + 1);
    }
  }

  /** When the newest Req still agrees with Ack on the endpoint bit, no version in
      between disagrees. */
  lemma {:induction false} AgreementMeansNothingPending(h: seq<Version>, a: nat)
    requires OneFlip(h, a) && Newest(h).word.ep == h[a].word.ep
    ensures forall i | a <= i < |h| :: h[i].word.ep == h[a].word.ep
  {
  }

  /** A START with the endpoint bit toggled against Ack can be answered by nothing but
      the firmware's processing of that very request exactly when, on entry, Req and
      Ack agreed on the endpoint bit. Otherwise an older START is still outstanding,
      and its acknowledgement is taken for an answer. */
  lemma {:induction false} FreshAnswerIffNothingPending(h: seq<Version>, a: nat, v: Version)
    requires History(h, a)
    requires v.word.state == START && v.word.ep == !h[a].word.ep
    ensures (forall b | a <= b :: Answers(h + [v], b) ==> b == |h|) <==> Newest(h).word.ep == h[a].word.ep
  {
    if Newest(h).word.ep == h[a].word.ep {
      AgreementMeansNothingPending(h, a);
    } else {
      var m := FirstFlip(h, a);
      assert Answers(h + [v], m);
    }
  }

  // ------------------------------------------------------------- runs of both sides

  /** hist: every Req written; acked: the one Ack shows; seen: the one Ack showed when
      the driver last read it; config: what Config holds. */
  datatype Proto = Proto(hist: seq<Version>, acked: nat, seen: nat, config: nat)

  datatype Act =
    | ReadAck
    | Bind(asSlot: nat)      // ProgramAndStartCsg: Config, then START with the endpoint bit toggled
    | Wake                   // WakeCsgIfIdle: the same request for the Config in place
    | Terminate
    | Acknowledge(b: nat)    // the firmware has processed version b

  const BOOTED: Proto := Proto([Version(Word(TERMINATE, false, 0), 0)], 0, 0, 0)

  function Toggled(p: Proto, asSlot: nat): Version
    requires p.hist != [] && p.seen < |p.hist|
  {
    Version(Word(START, !p.hist[p.seen].word.ep, Newest(p.hist).word.events), asSlot)
  }

  function After(p: Proto, a: Act): Proto {
    if p.hist == [] || p.seen >= |p.hist| then p
    else
      match a
      case ReadAck => p.(seen := p.acked)
      case Bind(asSlot) => p.(hist := p.hist + [Toggled(p, asSlot)], config := asSlot)
      case Wake => p.(hist := p.hist + [Toggled(p, p.config)])
      case Terminate => p.(hist := p.hist + [Version(Newest(p.hist).word.(state := TERMINATE), p.config)])
      case Acknowledge(b) => if p.acked <= b < |p.hist| then p.(acked := b) else p
  }

  ghost function Run(acts: seq<Act>): Proto
    decreases |acts|
  {
    if acts == [] then BOOTED else After(Run(acts[..|acts| - 1]), acts[|acts| - 1])
  }

  /** What each call asks for: a bind and a wake for START with the endpoint bit opposite to
      the Ack last read, a termination for the terminated state with the bit as it was. */
  lemma {:induction false} Asks(p: Proto, asSlot: nat)
    requires p.hist != [] && p.seen < |p.hist|
    ensures var ep, was, last := p.hist[p.seen].word.ep, Newest(p.hist).word.ep, Newest(p.hist).word.events;
            && After(p, Bind(asSlot)) == p.(hist := p.hist + [Version(Word(1, !ep, last), asSlot)], config := asSlot)
            && After(p, Wake) == p.(hist := p.hist + [Version(Word(1, !ep, last), p.config)])
            && After(p, Terminate) == p.(hist := p.hist + [Version(Word(0, was, last), p.config)])
  {
  }

  ghost predicate ProtoOk(p: Proto) {
    History(p.hist, p.seen) && p.seen <= p.acked < |p.hist|
  }

  lemma {:induction false} AfterKeepsProto(p: Proto, a: Act)
    requires ProtoOk(p)
    ensures ProtoOk(After(p, a))
  {
    HistoryStarts(p.hist, p.seen);
    hide History;
    match a {
      case ReadAck => AckKeepsHistory(p.hist, p.seen, p.acked);
      case Bind(asSlot) => ToggleKeepsHistory(p.hist, p.seen, p.seen, Toggled(p, asSlot));
      case Wake => ToggleKeepsHistory(p.hist, p.seen, p.seen, Toggled(p, p.config));
      case Terminate =>
        CopyKeepsHistory(p.hist, p.seen, Version(Newest(p.hist).word.(state := TERMINATE), p.config));
      case Acknowledge(_) =>
    }
  }

  lemma {:induction false} HistoryStarts(h: seq<Version>, a: nat)
    requires History(h, a)
    ensures a < |h|
  {
  }

  /** Over every run of binds, wakes and terminations, answered at any time or never,
      at most one endpoint request is outstanding. */
  lemma {:induction false} RunsKeepHistory(acts: seq<Act>)
    ensures ProtoOk(Run(acts)) && History(Run(acts).hist, Run(acts).acked)
    decreases |acts|
  {
    if acts == [] {
    } else {
      RunsKeepHistory(acts[..|acts| - 1]);
      hide ProtoOk;
      AfterKeepsProto(Run(acts[..|acts| - 1]), acts[|acts| - 1]);
    }
    RunAckKeeps(Run(acts));
  }

  lemma {:induction false} RunAckKeeps(p: Proto)
    requires ProtoOk(p)
    ensures History(p.hist, p.acked)
  {
    AckKeepsHistory(p.hist, p.seen, p.acked);
  }

  /** In every reachable state: a bind that reads Ack and asks for START can be answered
      only by its own processing exactly when Req and Ack agreed on entry. */
  lemma {:induction false} BindIsFreshIffSettled(acts: seq<Act>, asSlot: nat)
    ensures var p := Run(acts);
            var q := After(After(p, ReadAck), Bind(asSlot));
            && p.hist != [] && p.acked < |p.hist| && |q.hist| == |p.hist| + 1
            && ((forall b | p.acked <= b :: Answers(q.hist, b) ==> b == |p.hist|)
                <==> Newest(p.hist).word.ep == p.hist[p.acked].word.ep)
  {
    RunsKeepHistory(acts);
    var p := Run(acts);
    HistoryStarts(p.hist, p.acked);
    hide History, Answers, Run;
    FreshAnswerIffNothingPending(p.hist, p.acked, Toggled(p.(seen := p.acked), asSlot));
  }

  /** A bind for space 2 answered by an older START for space 1: the wake after the
      first bind is not answered in time, nor is the termination; then the firmware
      gets round to the wake. */
  const STALE: seq<Act> := [
    ReadAck, Bind(1), Acknowledge(1),
    ReadAck, Wake,
    Terminate,
    ReadAck, Bind(2),
    Acknowledge(2)]

  lemma {:induction false} StaleAnswerIsReached()
    ensures var p := Run(STALE);
            && |p.hist| == 5 && p.acked == 2 && Answers(p.hist, p.acked)
            && Newest(p.hist).asSlot == p.config == 2
            && p.hist[p.acked].asSlot == 1
  {
    StaleBeginning();
    Unfold(STALE, 5); Unfold(STALE, 6); Unfold(STALE, 7); Unfold(STALE, 8);
    assert STALE[..9] == STALE;
  }

  lemma {:induction false} StaleBeginning()
    ensures |STALE| == 9
    ensures var p := Run(STALE[..5]);
            && |p.hist| == 3 && p.acked == p.seen == 1 && p.config == 1
            && p.hist[0].word.ep == false
            && p.hist[1] == Version(Word(START, true, 0), 1) && p.hist[2] == Version(Word(START, false, 0), 1)
  {
    Unfold(STALE, 0); Unfold(STALE, 1); Unfold(STALE, 2); Unfold(STALE, 3); Unfold(STALE, 4);
  }

  lemma {:induction false} Unfold(acts: seq<Act>, k: nat)
    requires k < |acts|
    ensures Run(acts[..k + 1]) == After(Run(acts[..k]), acts[k]) && Run(acts[..0]) == BOOTED
  {
    assert acts[..k + 1][..k] == acts[..k];
  }
}
