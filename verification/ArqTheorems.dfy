/** What a user of the ARQ may rely on, stated over every run and every state of
    it, for either direction. */
module ArqTheorems {
  import opened Bytes
  import opened Frames
  import opened Reassembly
  import opened ArqTransport
  import opened ArqSystem
  import opened ArqIntake
  import opened ArqSafety

  /** The state seen from the given side: its own endpoint on the left. */
  function Facing(s: State, left: bool): State {
    if left then s else Flip(s)
  }

  lemma FacingHolds(cfg: Config, moves: seq<Move>, trace: seq<State>, k: nat, left: bool)
    requires cfg.Valid() && IsRun(cfg, moves, trace) && k < |trace|
    ensures Inv(cfg, Facing(trace[k], left))
  {
    RunKeeps(cfg, moves, trace, k);
    assert Flip(Flip(trace[k])) == trace[k];
    hide Dir, Queues, IsRun;
  }

  /** The payloads given to onData are those passed to Send at the listed,
      strictly increasing positions: in order, unaltered, none twice. */
  lemma DeliveredInOrder(cfg: Config, moves: seq<Move>, trace: seq<State>, k: nat, left: bool)
    requires cfg.Valid() && IsRun(cfg, moves, trace) && k < |trace|
    requires WithinLimits(cfg, Facing(trace[k], left).l.snd.sent)
    ensures var sent, far := Facing(trace[k], left).l.snd.sent, Facing(trace[k], left).r.rcv;
            && |far.handed| == |far.handedSeq| && Increasing(far.handedSeq)
            && forall j :: 0 <= j < |far.handed| ==>
                 Known(sent, far.handedSeq[j]) && far.handed[j] == sent[far.handedSeq[j] - 1]
  {
    FacingHolds(cfg, moves, trace, k, left);
    var far := Facing(trace[k], left).r.rcv;
    hide IsRun, Flow, FeedbackInv, SenderInv;
    assert Increasing(Promised(far));
    forall i, j | 0 <= i < j < |far.handedSeq| ensures far.handedSeq[i] < far.handedSeq[j] {
      assert Promised(far)[i] < Promised(far)[j];
    }
  }

  ghost predicate AtMostOnce(qs: seq<u32>, q: int) {
    forall i, j :: 0 <= i < |qs| && 0 <= j < |qs| && qs[i] == q == qs[j] ==> i == j
  }

  /** Send number n returned nil: its payload has been given to onData, once.
      Whatever Send returned, its payload is never given twice. */
  lemma AckedMeansDeliveredOnce(cfg: Config, moves: seq<Move>, trace: seq<State>, k: nat, left: bool, n: nat)
    requires cfg.Valid() && IsRun(cfg, moves, trace) && k < |trace|
    requires WithinLimits(cfg, Facing(trace[k], left).l.snd.sent)
    requires n < |Facing(trace[k], left).l.snd.outcomes|
    ensures var snd, far := Facing(trace[k], left).l.snd, Facing(trace[k], left).r.rcv;
            && |far.handed| == |far.handedSeq| && n < |snd.sent|
            && (snd.outcomes[n] == Acked ==>
                  exists j :: 0 <= j < |far.handed| && far.handedSeq[j] == n + 1 && far.handed[j] == snd.sent[n])
            && AtMostOnce(far.handedSeq, n + 1)
  {
    hide IsRun, Flow, IntakeInv, WithinLimits;
    FacingHolds(cfg, moves, trace, k, left);
    DeliveredInOrder(cfg, moves, trace, k, left);
    var snd, far := Facing(trace[k], left).l.snd, Facing(trace[k], left).r.rcv;
    if snd.outcomes[n] == Acked {
      var j :| 0 <= j < |far.handedSeq| && far.handedSeq[j] == n + 1;
      assert far.handed[j] == snd.sent[n];
    }
  }

  /** A message has been given to onData, or is about to be, exactly when each of
      its fragments has been read at least once in some attempt. */
  lemma DeliveredIffAllRead(cfg: Config, moves: seq<Move>, trace: seq<State>, k: nat, left: bool, q: u32)
    requires cfg.Valid() && IsRun(cfg, moves, trace) && k < |trace|
    requires WithinLimits(cfg, Facing(trace[k], left).l.snd.sent)
    requires Known(Facing(trace[k], left).l.snd.sent, q)
    ensures q in Promised(Facing(trace[k], left).r.rcv) <==>
            AllRead(cfg, Facing(trace[k], left).l.snd.sent, Facing(trace[k], left).r.rcv.taken, q)
  {
    FacingHolds(cfg, moves, trace, k, left);
    hide IsRun, AllRead, Flow;
  }

  /** Once a message has been promised, any later fragment of it that is read
      makes the reader owe a fresh ack carrying its checksum. */
  lemma LaterFragmentsAreAcked(cfg: Config, moves: seq<Move>, trace: seq<State>, k: nat, left: bool, f: Frame)
    requires cfg.Valid() && IsRun(cfg, moves, trace) && k < |trace|
    requires WithinLimits(cfg, Facing(trace[k], left).l.snd.sent)
    requires var s := Facing(trace[k], left);
             s.lr != [] && s.lr[0] == f && f.Data? && s.r.rcv.duty.Ready? && f.seqno in s.r.rcv.handedSeq
    ensures ReadData(cfg, Facing(trace[k], left).r.rcv, f).duty == Acking(f.seqno, f.crc)
  {
    FacingHolds(cfg, moves, trace, k, left);
    var s := Facing(trace[k], left);
    var sent, rcv := s.l.snd.sent, s.r.rcv;
    var whole := rcv.taken + (s.lr + s.l.outbound);
    FlowPrefix(cfg, sent, whole, |rcv.taken| + 1);
    assert whole[..|rcv.taken| + 1] == rcv.taken + [f];
    hide IsRun, Flow;
    DuplicateRecognised(cfg, sent, rcv.taken, rcv.tables, Promised(rcv), f);
  }

  /** Move k takes an ack for the message the given side is transmitting. */
  ghost predicate AckReturns(moves: seq<Move>, trace: seq<State>, k: nat, left: bool)
    requires |trace| == |moves| + 1 && k < |moves|
  {
    var s := Facing(trace[k], left);
    && moves[k] == Move(Read, left) && s.l.snd.call.Active?
    && s.rl != [] && s.rl[0].Ack? && s.rl[0].seqno == s.l.snd.nextSeq
  }

  /** The waiter of the message in transmission holds its checksum. */
  ghost predicate AckHeld(cfg: Config, snd: Sender) {
    && snd.nextSeq in snd.waiters
    && snd.waiters[snd.nextSeq] == Some(cfg.crc32(Current(snd)))
  }

  lemma AckHeldStays(cfg: Config, s: State, e: Event, s': State)
    requires cfg.Valid() && StepL(cfg, s, e, s') && SenderInv(cfg, s.l.snd) && s.l.snd.call.Active?
    requires AckHeld(cfg, s.l.snd)
    ensures s'.l.snd.outcomes != s.l.snd.outcomes ||
            (AckHeld(cfg, s'.l.snd) && s'.l.snd.sent == s.l.snd.sent && s'.l.snd.call.Active?)
  {
  }

  lemma ReadFillsWaiter(cfg: Config, s: State, s': State)
    requires cfg.Valid() && Inv(cfg, s) && WithinLimits(cfg, s.l.snd.sent) && StepL(cfg, s, Read, s')
    requires s.l.snd.call.Active? && s.rl[0].Ack? && s.rl[0].seqno == s.l.snd.nextSeq
    ensures AckHeld(cfg, s'.l.snd) && s'.l.snd.sent == s.l.snd.sent && s'.l.snd.outcomes == s.l.snd.outcomes
    ensures s'.l.snd.call == s.l.snd.call
  {
    assert s.rl[0] in s.rl + s.r.outboundAck;
    hide Flow, IntakeInv;
  }

  /** No Send of that side has ended between moves k and m. */
  ghost predicate NotEnded(trace: seq<State>, left: bool, k: nat, m: nat)
    requires k <= m < |trace|
  {
    forall i :: k <= i <= m ==> Facing(trace[i], left).l.snd.outcomes == Facing(trace[k], left).l.snd.outcomes
  }

  lemma SenderHolds(cfg: Config, s: State)
    requires cfg.Valid() && Inv(cfg, s) && WithinLimits(cfg, s.l.snd.sent)
    ensures SenderInv(cfg, s.l.snd)
  {
  }

  lemma OtherSideKeepsSender(cfg: Config, s: State, e: Event, s': State)
    requires cfg.Valid() && StepL(cfg, s, e, s')
    ensures s'.r == s.r
  {
  }

  /** Once an ack has returned during a Send, it is held until that Send ends. */
  lemma {:induction false} AckIsHeld(cfg: Config, moves: seq<Move>, trace: seq<State>, k: nat, m: nat, left: bool)
    requires cfg.Valid() && IsRun(cfg, moves, trace) && k < m < |trace| && AckReturns(moves, trace, k, left)
    requires WithinLimits(cfg, Facing(trace[k], left).l.snd.sent)
    requires NotEnded(trace, left, k, m)
    ensures AckHeld(cfg, Facing(trace[m], left).l.snd) && Facing(trace[m], left).l.snd.call.Active?
    ensures Facing(trace[m], left).l.snd.sent == Facing(trace[k], left).l.snd.sent
  {
    var t := m - 1;
    assert Step(cfg, trace[t], moves[t].e, moves[t].left, trace[t + 1]);
    FacingHolds(cfg, moves, trace, t, left);
    var s, s' := Facing(trace[t], left), Facing(trace[m], left);
    hide IsRun, Inv;
    if t == k {
      assert Inv(cfg, s) && StepL(cfg, s, Read, s');
      ReadFillsWaiter(cfg, s, s');
    } else {
      AckIsHeld(cfg, moves, trace, k, t, left);
      assert SenderInv(cfg, s.l.snd) by { SenderHolds(cfg, s); }
      if moves[t].left == left {
        AckHeldStays(cfg, s, moves[t].e, s');
      } else {
        OtherSideKeepsSender(cfg, Flip(s), moves[t].e, Flip(s'));
      }
    }
  }

  /** Taking the ack is possible as soon as the Send waits, and ends it with success. */
  lemma AckEndsSend(cfg: Config, moves: seq<Move>, trace: seq<State>, k: nat, m: nat, left: bool)
    requires cfg.Valid() && IsRun(cfg, moves, trace) && k < m < |trace| && AckReturns(moves, trace, k, left)
    requires WithinLimits(cfg, Facing(trace[k], left).l.snd.sent) && NotEnded(trace, left, k, m)
    requires Waiting(cfg, Facing(trace[m], left).l.snd)
    ensures var s := Facing(trace[m], left);
            var s' := s.(l := s.l.(snd := Finish(s.l.snd, Acked)));
            StepL(cfg, s, TakeAck, s') && s'.l.snd.outcomes == s.l.snd.outcomes + [Acked]
  {
    AckIsHeld(cfg, moves, trace, k, m, left);
    hide IsRun;
  }

  lemma FacingStep(cfg: Config, moves: seq<Move>, trace: seq<State>, t: nat, left: bool)
    requires cfg.Valid() && IsRun(cfg, moves, trace) && t < |moves|
    ensures moves[t].left == left ==> StepL(cfg, Facing(trace[t], left), moves[t].e, Facing(trace[t + 1], left))
    ensures moves[t].left != left ==> Facing(trace[t + 1], left).l == Facing(trace[t], left).l
  {
    assert Step(cfg, trace[t], moves[t].e, moves[t].left, trace[t + 1]);
    if moves[t].left != left {
      OtherSideKeepsSender(cfg, Facing(trace[t], !left), moves[t].e, Facing(trace[t + 1], !left));
    }
    hide IsRun, StepL;
  }

  /** How a Send whose ack has returned may still fail: Close, or the timer of its last attempt. */
  ghost predicate Fatal(cfg: Config, e: Event, snd: Sender) {
    e.Abort? || (e.Expire? && snd.call.Active? && snd.call.attempt >= cfg.attempts)
  }

  lemma HeldDecides(cfg: Config, s: State, e: Event, s': State)
    requires cfg.Valid() && StepL(cfg, s, e, s') && AckHeld(cfg, s.l.snd) && !Fatal(cfg, e, s.l.snd)
    ensures s'.l.snd.outcomes == s.l.snd.outcomes || s'.l.snd.outcomes == s.l.snd.outcomes + [Acked]
  {
  }

  /** Progress: once an ack for it has returned, a Send that ends does so with
      success, unless Close or the timer of its last attempt ends it. */
  lemma AckDecides(cfg: Config, moves: seq<Move>, trace: seq<State>, k: nat, m: nat, left: bool)
    requires cfg.Valid() && IsRun(cfg, moves, trace) && k < m < |moves| && AckReturns(moves, trace, k, left)
    requires WithinLimits(cfg, Facing(trace[k], left).l.snd.sent) && NotEnded(trace, left, k, m)
    requires Facing(trace[m + 1], left).l.snd.outcomes != Facing(trace[m], left).l.snd.outcomes
    requires !Fatal(cfg, moves[m].e, Facing(trace[m], left).l.snd)
    ensures moves[m].left == left
    ensures Facing(trace[m + 1], left).l.snd.outcomes == Facing(trace[m], left).l.snd.outcomes + [Acked]
  {
    AckIsHeld(cfg, moves, trace, k, m, left);
    FacingStep(cfg, moves, trace, m, left);
    hide IsRun, StepL, AckHeld, Facing, Fatal;
    if moves[m].left == left {
      HeldDecides(cfg, Facing(trace[m], left), moves[m].e, Facing(trace[m + 1], left));
    }
  }

  /** From move k on that side neither gives up on its last timer nor is aborted. */
  ghost predicate NothingFatal(cfg: Config, moves: seq<Move>, trace: seq<State>, left: bool, k: nat, n: nat)
    requires |trace| == |moves| + 1 && k <= n <= |moves|
  {
    forall i :: k <= i < n && moves[i].left == left ==> !Fatal(cfg, moves[i].e, Facing(trace[i], left).l.snd)
  }

  lemma FatalFree(cfg: Config, moves: seq<Move>, trace: seq<State>, left: bool, k: nat, t: nat)
    requires |trace| == |moves| + 1 && k <= t < |moves| && NothingFatal(cfg, moves, trace, left, k, t + 1)
    ensures NothingFatal(cfg, moves, trace, left, k, t)
    ensures moves[t].left == left ==> !Fatal(cfg, moves[t].e, Facing(trace[t], left).l.snd)
  {
    hide Fatal, Facing;
  }

  lemma OutcomesOnlyGrow(cfg: Config, s: State, e: Event, s': State)
    requires cfg.Valid() && StepL(cfg, s, e, s')
    ensures s.l.snd.outcomes <= s'.l.snd.outcomes
  {
  }

  /** The Send in progress at k has not ended by n, or has ended with success. */
  ghost predicate OnlySucceeds(trace: seq<State>, left: bool, k: nat, n: nat)
    requires k <= n < |trace|
  {
    NotEnded(trace, left, k, n) ||
    Facing(trace[k], left).l.snd.outcomes + [Acked] <= Facing(trace[n], left).l.snd.outcomes
  }

  lemma OnlySucceedsStep(cfg: Config, moves: seq<Move>, trace: seq<State>, k: nat, t: nat, left: bool)
    requires cfg.Valid() && IsRun(cfg, moves, trace) && k < t < |moves| && AckReturns(moves, trace, k, left)
    requires WithinLimits(cfg, Facing(trace[k], left).l.snd.sent)
    requires OnlySucceeds(trace, left, k, t)
    requires moves[t].left == left ==> !Fatal(cfg, moves[t].e, Facing(trace[t], left).l.snd)
    ensures OnlySucceeds(trace, left, k, t + 1)
  {
    FacingStep(cfg, moves, trace, t, left);
    if moves[t].left == left {
      OutcomesOnlyGrow(cfg, Facing(trace[t], left), moves[t].e, Facing(trace[t + 1], left));
    }
    hide IsRun, StepL, Facing, Fatal, AckReturns, WithinLimits;
    if NotEnded(trace, left, k, t) &&
       Facing(trace[t + 1], left).l.snd.outcomes != Facing(trace[t], left).l.snd.outcomes
    {
      AckDecides(cfg, moves, trace, k, t, left);
    }
  }

  lemma ReadEndsNothing(cfg: Config, s: State, s': State)
    requires cfg.Valid() && StepL(cfg, s, Read, s')
    ensures s'.l.snd.outcomes == s.l.snd.outcomes
  {
  }

  lemma RunLength(cfg: Config, moves: seq<Move>, trace: seq<State>)
    requires cfg.Valid() && IsRun(cfg, moves, trace)
    ensures |trace| == |moves| + 1
  {
  }

  lemma FirstHeld(cfg: Config, moves: seq<Move>, trace: seq<State>, k: nat, left: bool)
    requires cfg.Valid() && IsRun(cfg, moves, trace) && k < |moves| && AckReturns(moves, trace, k, left)
    ensures OnlySucceeds(trace, left, k, k + 1)
  {
    FacingStep(cfg, moves, trace, k, left);
    hide IsRun, StepL, Facing;
    ReadEndsNothing(cfg, Facing(trace[k], left), Facing(trace[k + 1], left));
    assert NotEnded(trace, left, k, k + 1);
  }

  /** So in every run in which one ack returns before the last timer, and no Close
      cuts in, that Send can only return nil. */
  lemma {:induction false} AckBeforeLastTimer(
      cfg: Config, moves: seq<Move>, trace: seq<State>, k: nat, n: nat, left: bool)
    requires cfg.Valid() && IsRun(cfg, moves, trace) && k < n < |trace| && AckReturns(moves, trace, k, left)
    requires WithinLimits(cfg, Facing(trace[k], left).l.snd.sent)
    requires NothingFatal(cfg, moves, trace, left, k, n)
    ensures OnlySucceeds(trace, left, k, n)
    decreases n
  {
    hide *;
    RunLength(cfg, moves, trace);
    if n == k + 1 {
      FirstHeld(cfg, moves, trace, k, left);
    } else {
      FatalFree(cfg, moves, trace, left, k, n - 1);
      AckBeforeLastTimer(cfg, moves, trace, k, n - 1, left);
      OnlySucceedsStep(cfg, moves, trace, k, n - 1, left);
    }
  }

  // ------------------------------------------ the step system and the method Send

  /** The wire form of the data frame a step has queued, if any. */
  ghost function Pushed(magic: u32, e: Event, outbound: seq<Frame>): seq<bytes> {
    if e.Push? && outbound != [] then [Wire(magic, outbound[|outbound| - 1])] else []
  }

  /** What a step gives the wait of the Send in progress, if it ends one. */
  ghost function Woken(e: Event, snd: Sender): seq<Wake> {
    match e
    case Expire => [TimerFires]
    case Abort => [CloseFires]
    case TakeAck =>
      if snd.nextSeq in snd.waiters && snd.waiters[snd.nextSeq].Some? then [AckArrives(snd.waiters[snd.nextSeq].value)]
      else []
    case _ => []
  }

  /** The wire forms of the data frames a side has queued in moves k to m. */
  ghost function Queued(magic: u32, moves: seq<Move>, trace: seq<State>, left: bool, k: nat, m: nat): seq<bytes>
    requires k <= m < |trace| == |moves| + 1
  {
    if m == k then []
    else
      Queued(magic, moves, trace, left, k, m - 1) +
      if moves[m - 1].left == left then Pushed(magic, moves[m - 1].e, Facing(trace[m], left).l.outbound) else []
  }

  /** The wake-ups of its Send in the same moves. */
  ghost function Wakes(moves: seq<Move>, trace: seq<State>, left: bool, k: nat, m: nat): seq<Wake>
    requires k <= m < |trace| == |moves| + 1
  {
    if m == k then []
    else
      Wakes(moves, trace, left, k, m - 1) +
      if moves[m - 1].left == left then Woken(moves[m - 1].e, Facing(trace[m - 1], left).l.snd) else []
  }

  ghost function WholeRound(cfg: Config, magic: u32, q: u32, data: bytes): seq<bytes>
    requires cfg.Valid()
  {
    Round(magic, cfg.crc32, cfg.size, q, data, Count(cfg, data))
  }

  /** In attempt a with i fragments queued: a - 1 undecided waits, a - 1 whole
      rounds and i frames of the next. */
  ghost predicate InRounds(
      cfg: Config, magic: u32, snd: Sender, q: u32, data: bytes, queued: seq<bytes>, wakes: seq<Wake>)
    requires cfg.Valid()
  {
    var round := WholeRound(cfg, magic, q, data);
    && snd.call.Active? && Current(snd) == data && snd.nextSeq == q
    && 1 <= snd.call.attempt <= cfg.attempts && snd.call.idx <= |round|
    && |wakes| == snd.call.attempt - 1 && Undecided(wakes, cfg.crc32(data))
    && queued == Rounds(round, snd.call.attempt - 1) + round[..snd.call.idx]
  }

  lemma RoundsMove(cfg: Config, magic: u32, s: State, e: Event, s': State, q: u32, data: bytes,
                   queued: seq<bytes>, wakes: seq<Wake>)
    requires cfg.Valid() && StepL(cfg, s, e, s') && s'.l.snd.outcomes == s.l.snd.outcomes
    requires InRounds(cfg, magic, s.l.snd, q, data, queued, wakes)
    ensures InRounds(cfg, magic, s'.l.snd, q, data, queued + Pushed(magic, e, s'.l.outbound), wakes + Woken(e, s.l.snd))
  {
    hide Wire, Fragments, MessageFrame;
    var round := WholeRound(cfg, magic, q, data);
    if e.Push? {
      assert round[..s.l.snd.call.idx + 1] == round[..s.l.snd.call.idx] + [round[s.l.snd.call.idx]];
    } else if e.Expire? || e.TakeAck? {
      assert round[..s.l.snd.call.idx] == round && round[..0] == [];
    }
  }

  lemma RoundsStart(cfg: Config, magic: u32, s: State, data: bytes, s': State)
    requires cfg.Valid() && StepL(cfg, s, Begin(data), s')
    ensures InRounds(cfg, magic, s'.l.snd, s'.l.snd.nextSeq, data, [], [])
  {
    hide Round, Fragments;
  }

  /** What the method Send promises of its outcome and of what it has queued, for
      some point at which Close cuts in. */
  ghost predicate EndsAsMethod(
      cfg: Config, magic: u32, o: Outcome, q: u32, data: bytes, queued: seq<bytes>, wakes: seq<Wake>)
    requires cfg.Valid() && |wakes| >= cfg.attempts
  {
    exists cut ::
      (queued, o) == Transmitted(WholeRound(cfg, magic, q, data), wakes, cfg.crc32(data), cfg.attempts, cut)
  }

  lemma RoundsEnd(cfg: Config, magic: u32, s: State, e: Event, s': State, q: u32, data: bytes,
                  queued: seq<bytes>, wakes: seq<Wake>, more: seq<Wake>) returns (o: Outcome)
    requires cfg.Valid() && StepL(cfg, s, e, s') && s'.l.snd.outcomes != s.l.snd.outcomes
    requires InRounds(cfg, magic, s.l.snd, q, data, queued, wakes)
    requires |wakes + Woken(e, s.l.snd) + more| >= cfg.attempts
    ensures s'.l.snd.outcomes == s.l.snd.outcomes + [o] && Pushed(magic, e, s'.l.outbound) == []
    ensures EndsAsMethod(cfg, magic, o, q, data, queued, wakes + Woken(e, s.l.snd) + more)
  {
    hide Wire, Fragments, MessageFrame, Round, Rounds, Attempts;
    o := s'.l.snd.outcomes[|s.l.snd.outcomes|];
    var all, k, round := wakes + Woken(e, s.l.snd) + more, |wakes|, WholeRound(cfg, magic, q, data);
    assert all[..k] == wakes && all[k] == Woken(e, s.l.snd)[0];
    RoundsNext([], round, k);
    assert [] + Rounds(round, k) == Rounds(round, k) && [] + Rounds(round, k + 1) == Rounds(round, k + 1);
    AttemptsDecided(all, cfg.crc32(data), cfg.attempts, k);
    if o == TimedOut {
      assert all[..k + 1] == wakes + [all[k]];
      AttemptsDecided(all, cfg.crc32(data), cfg.attempts, k + 1);
    }
    assert s.l.snd.call.idx == |round| ==> round[..s.l.snd.call.idx] == round;
    AttemptsAcked(all, cfg.crc32(data), cfg.attempts);
    var cut := Cut(if e.Abort? then k else cfg.attempts, s.l.snd.call.idx);
    assert (queued, o) == Transmitted(round, all, cfg.crc32(data), cfg.attempts, cut);
  }

  lemma StaysUnended(trace: seq<State>, left: bool, k: nat, t: nat)
    requires k <= t && t + 1 < |trace| && NotEnded(trace, left, k, t + 1)
    ensures NotEnded(trace, left, k, t)
    ensures Facing(trace[t + 1], left).l.snd.outcomes == Facing(trace[t], left).l.snd.outcomes
  {
    assert Facing(trace[t], left).l.snd.outcomes == Facing(trace[k], left).l.snd.outcomes;
  }

  lemma FirstQueued(cfg: Config, magic: u32, moves: seq<Move>, trace: seq<State>, k: nat, left: bool, data: bytes)
    requires cfg.Valid() && IsRun(cfg, moves, trace) && k < |moves| && moves[k] == Move(Begin(data), left)
    ensures InRounds(cfg, magic, Facing(trace[k + 1], left).l.snd, Facing(trace[k + 1], left).l.snd.nextSeq, data,
                     Queued(magic, moves, trace, left, k, k + 1), Wakes(moves, trace, left, k, k + 1))
  {
    FacingStep(cfg, moves, trace, k, left);
    var s, s' := Facing(trace[k], left), Facing(trace[k + 1], left);
    hide IsRun, StepL, InRounds, Facing;
    RoundsStart(cfg, magic, s, data, s');
    assert Pushed(magic, Begin(data), s'.l.outbound) == [] && Woken(Begin(data), s.l.snd) == [];
    hide Pushed, Woken;
    assert Queued(magic, moves, trace, left, k, k) == [] && Wakes(moves, trace, left, k, k) == [];
  }

  lemma NextQueued(cfg: Config, magic: u32, moves: seq<Move>, trace: seq<State>, k: nat, t: nat, left: bool,
                   q: u32, data: bytes)
    requires cfg.Valid() && IsRun(cfg, moves, trace) && k <= t < |moves|
    requires Facing(trace[t + 1], left).l.snd.outcomes == Facing(trace[t], left).l.snd.outcomes
    requires InRounds(cfg, magic, Facing(trace[t], left).l.snd, q, data,
                      Queued(magic, moves, trace, left, k, t), Wakes(moves, trace, left, k, t))
    ensures InRounds(cfg, magic, Facing(trace[t + 1], left).l.snd, q, data,
                     Queued(magic, moves, trace, left, k, t + 1), Wakes(moves, trace, left, k, t + 1))
  {
    FacingStep(cfg, moves, trace, t, left);
    hide IsRun, StepL, InRounds, Facing, Pushed, Woken;
    var queued, wakes := Queued(magic, moves, trace, left, k, t), Wakes(moves, trace, left, k, t);
    if moves[t].left == left {
      RoundsMove(cfg, magic, Facing(trace[t], left), moves[t].e, Facing(trace[t + 1], left), q, data, queued, wakes);
    } else {
      assert queued + [] == queued && wakes + [] == wakes;
    }
  }

  /** While it lasts, a Send of the step system has queued what the method Send
      has queued after the same waits: whole rounds, and part of the next. */
  lemma {:induction false} SendQueuesRounds(
      cfg: Config, magic: u32, moves: seq<Move>, trace: seq<State>, k: nat, m: nat, left: bool, data: bytes)
    requires cfg.Valid() && IsRun(cfg, moves, trace) && k < m < |trace| && moves[k] == Move(Begin(data), left)
    requires NotEnded(trace, left, k, m)
    ensures InRounds(cfg, magic, Facing(trace[m], left).l.snd, Facing(trace[k + 1], left).l.snd.nextSeq, data,
                     Queued(magic, moves, trace, left, k, m), Wakes(moves, trace, left, k, m))
  {
    hide NotEnded, InRounds, Facing, Queued, Wakes;
    if m == k + 1 {
      FirstQueued(cfg, magic, moves, trace, k, left, data);
    } else {
      StaysUnended(trace, left, k, m - 1);
      SendQueuesRounds(cfg, magic, moves, trace, k, m - 1, left, data);
      NextQueued(cfg, magic, moves, trace, k, m - 1, left, Facing(trace[k + 1], left).l.snd.nextSeq, data);
    }
  }

  /** And it ends as the method does: for the wake-ups it was given, however they
      are continued, with the outcome of Attempts and its number of rounds queued. */
  lemma SendEndsAsMethod(cfg: Config, magic: u32, moves: seq<Move>, trace: seq<State>, k: nat, m: nat, left: bool,
                         data: bytes, more: seq<Wake>) returns (o: Outcome)
    requires cfg.Valid() && IsRun(cfg, moves, trace) && k < m < |moves| && moves[k] == Move(Begin(data), left)
    requires NotEnded(trace, left, k, m)
    requires Facing(trace[m + 1], left).l.snd.outcomes != Facing(trace[m], left).l.snd.outcomes
    requires |Wakes(moves, trace, left, k, m + 1) + more| >= cfg.attempts
    ensures Facing(trace[m + 1], left).l.snd.outcomes == Facing(trace[m], left).l.snd.outcomes + [o]
    ensures EndsAsMethod(cfg, magic, o, Facing(trace[k + 1], left).l.snd.nextSeq, data,
                         Queued(magic, moves, trace, left, k, m + 1), Wakes(moves, trace, left, k, m + 1) + more)
  {
    SendQueuesRounds(cfg, magic, moves, trace, k, m, left, data);
    FacingStep(cfg, moves, trace, m, left);
    hide IsRun, StepL, InRounds, Facing, Pushed, Woken, EndsAsMethod, NotEnded;
    var queued := Queued(magic, moves, trace, left, k, m);
    o := RoundsEnd(cfg, magic, Facing(trace[m], left), moves[m].e, Facing(trace[m + 1], left),
                   Facing(trace[k + 1], left).l.snd.nextSeq, data, queued, Wakes(moves, trace, left, k, m), more);
    assert queued + [] == queued;
  }

  /** Why the tracks must be FIFO: if a frame of an already delivered one-fragment
      message could overtake another delivery, it would be delivered again exactly
      when that delivery wipes the table. */
  lemma LateDuplicateAfterWipe(cfg: Config, r: Receiver, q: u32, data: bytes, q': u32, data': bytes)
    requires cfg.Valid() && q != q' && r.inbound == map[]
    requires q in r.delivered && r.delivered[q] == cfg.crc32(data) && q' !in r.delivered
    requires Count(cfg, data) == 1 && Count(cfg, data') == 1
    ensures var (r1, x1) := Handle(cfg.crc32, r, MessageFrame(cfg.crc32, cfg.size, q', data', 0));
            var x2 := Handle(cfg.crc32, r1, MessageFrame(cfg.crc32, cfg.size, q, data, 0)).1;
            x1 == Hand(data') && x2 == if |r.delivered| > 256 then Hand(data) else Reack
  {
    UpsertCollects(cfg.crc32, cfg.size, map[], q', data', 0, {});
    UpsertCollects(cfg.crc32, cfg.size, map[], q, data, 0, {});
    hide Upsert, Assemble;
    var r1 := Handle(cfg.crc32, r, MessageFrame(cfg.crc32, cfg.size, q', data', 0)).0;
    assert r1.inbound == map[] && r1.delivered == Remember(r.delivered, q', cfg.crc32(data'));
  }
}
