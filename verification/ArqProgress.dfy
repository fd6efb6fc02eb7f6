/** When a Send can still succeed.  With both ends open the answer is exact, in
    every reachable state: an attempt is left to begin, or an ack is on its way,
    or everything the receiver lacks is still to come.  Otherwise no continuation
    of the run makes it return nil. */
module ArqProgress {
  import opened Bytes
  import opened Frames
  import opened Reassembly
  import opened ArqTransport
  import opened ArqSystem
  import opened ArqIntake
  import opened ArqSafety
  import opened ArqTheorems

  // ------------------------------------------------------------- reachability

  /** The writer takes a queued ack before any data frame. */
  ghost predicate AcksFirst(s: State, e: Event, left: bool) {
    e.WriteData? ==> (if left then s.l else s.r).outboundAck == []
  }

  /** In n steps; if prompt, with writers that take acks first. */
  ghost predicate ReachesIn(cfg: Config, prompt: bool, s: State, n: nat, s': State)
    requires cfg.Valid()
    decreases n
  {
    if n == 0 then s == s'
    else exists e, left, m ::
      Step(cfg, s, e, left, m) && (prompt ==> AcksFirst(s, e, left)) && ReachesIn(cfg, prompt, m, n - 1, s')
  }

  ghost predicate Reaches(cfg: Config, prompt: bool, s: State, s': State)
    requires cfg.Valid()
  {
    exists n: nat :: ReachesIn(cfg, prompt, s, n, s')
  }

  lemma StepThenReaches(cfg: Config, s: State, e: Event, left: bool, m: State, s': State)
    requires cfg.Valid() && Step(cfg, s, e, left, m) && AcksFirst(s, e, left) && Reaches(cfg, true, m, s')
    ensures Reaches(cfg, true, s, s')
  {
    hide Step, AcksFirst;
    var n: nat :| ReachesIn(cfg, true, m, n, s');
    assert ReachesIn(cfg, true, s, n + 1, s');
  }

  lemma OneMove(cfg: Config, s: State, e: Event, left: bool, s': State)
    requires cfg.Valid() && Step(cfg, s, e, left, s') && AcksFirst(s, e, left)
    ensures Reaches(cfg, true, s, s')
  {
    hide Step, AcksFirst;
    assert ReachesIn(cfg, true, s', 0, s') && ReachesIn(cfg, true, s, 1, s');
  }

  lemma StepFlip(cfg: Config, s: State, e: Event, left: bool, s': State)
    requires cfg.Valid() && Step(cfg, s, e, left, s')
    ensures Step(cfg, Flip(s), e, !left, Flip(s'))
    ensures AcksFirst(s, e, left) ==> AcksFirst(Flip(s), e, !left)
  {
    assert Flip(Flip(s)) == s && Flip(Flip(s')) == s';
    hide StepL;
  }

  lemma {:induction false} ReachFlip(cfg: Config, prompt: bool, s: State, n: nat, s': State)
    requires cfg.Valid() && ReachesIn(cfg, prompt, s, n, s')
    ensures ReachesIn(cfg, prompt, Flip(s), n, Flip(s'))
    decreases n
  {
    hide Step, AcksFirst;
    if n == 0 {
    } else {
      var e, left, m :|
        Step(cfg, s, e, left, m) && (prompt ==> AcksFirst(s, e, left)) && ReachesIn(cfg, prompt, m, n - 1, s');
      StepFlip(cfg, s, e, left, m);
      ReachFlip(cfg, prompt, m, n - 1, s');
    }
  }

  // -------------------------------------------------------- what is on its way

  ghost predicate Open(s: State) {
    !s.l.closed && !s.r.closed
  }

  ghost predicate HasAck(frames: seq<Frame>, q: u32) {
    exists f :: f in frames && f.Ack? && f.seqno == q
  }

  /** The reader owes message q its delivery or its ack. */
  ghost predicate Owes(rcv: Intake, q: u32) {
    !rcv.duty.Ready? && rcv.duty.q == q
  }

  /** An ack has reached the waiter. */
  ghost predicate AckHere(snd: Sender) {
    snd.nextSeq in snd.waiters && snd.waiters[snd.nextSeq].Some?
  }

  ghost predicate AckComing(s: State) {
    var q := s.l.snd.nextSeq;
    AckHere(s.l.snd) || HasAck(s.rl, q) || HasAck(s.r.outboundAck, q) || Owes(s.r.rcv, q)
  }

  /** The fragments of the message in transmission that are queued or in flight. */
  ghost function Ahead(s: State): set<nat> {
    Have(s.lr + s.l.outbound, s.l.snd.nextSeq)
  }

  /** Every fragment this attempt has queued has been read or is still to be read. */
  ghost predicate Accounted(cfg: Config, s: State)
    requires cfg.Valid() && s.l.snd.call.Active?
  {
    forall j: nat :: j < Count(cfg, Current(s.l.snd)) && j < s.l.snd.call.idx ==>
      j in Have(s.r.rcv.taken, s.l.snd.nextSeq) || j in Ahead(s)
  }

  /** There is a fragment still to be read. */
  ghost predicate MoreAhead(cfg: Config, s: State)
    requires cfg.Valid() && s.l.snd.call.Active?
  {
    s.l.snd.call.idx < Count(cfg, Current(s.l.snd)) || Ahead(s) != {}
  }

  /** Something a caller of Send could tell from the two ends and the tracks. */
  ghost predicate Chance(cfg: Config, s: State)
    requires cfg.Valid()
  {
    && s.l.snd.call.Active?
    && (s.l.snd.call.attempt < cfg.attempts || AckComing(s) || (Accounted(cfg, s) && MoreAhead(cfg, s)))
  }

  lemma HaveJoin(a: seq<Frame>, b: seq<Frame>, q: int)
    ensures Have(a + b, q) == Have(a, q) + Have(b, q)
  {
    assert forall f :: f in a + b <==> f in a || f in b;
  }

  /** Fragment i of the path as one more that has been read. */
  lemma HaveHead(path: seq<Frame>, q: int)
    requires path != []
    ensures Have(path, q) ==
            Have(path[1..], q) + if path[0].Data? && path[0].seqno == q then {path[0].fragIdx as nat} else {}
  {
    assert path == [path[0]] + path[1..];
    HaveJoin([path[0]], path[1..], q);
  }

  lemma HaveOfAcks(ack: Frame, q: int)
    requires ack.Ack?
    ensures Have([ack], q) == {}
  {
  }

  lemma HaveOfOne(f: Frame, q: int)
    requires f.Data?
    ensures Have([f], q) == if f.seqno == q then {f.fragIdx as nat} else {}
  {
  }

  lemma HaveFewer(path: seq<Frame>, i: nat, q: int)
    requires i < |path|
    ensures Have(path[..i] + path[i + 1..], q) <= Have(path, q)
  {
    assert forall f :: f in path[..i] + path[i + 1..] ==> f in path;
  }

  lemma HaveRepeated(path: seq<Frame>, i: nat, q: int)
    requires i < |path|
    ensures Have(path[..i + 1] + path[i..], q) == Have(path, q)
  {
    var twice := path[..i + 1] + path[i..];
    forall f ensures f in twice <==> f in path {
      if f in path {
        var k :| 0 <= k < |path| && path[k] == f;
        assert f in path[..i + 1] || f in path[i..];
      }
    }
  }

  // ----------------------------------------------------------- one step nearer

  /** How far off success is: which of the reasons for hope holds. */
  ghost function Stage(cfg: Config, s: State): nat
    requires cfg.Valid() && s.l.snd.call.Active?
  {
    var q := s.l.snd.nextSeq;
    if AckHere(s.l.snd) then 0
    else if HasAck(s.rl, q) then 1
    else if HasAck(s.r.outboundAck, q) then 2
    else if Owes(s.r.rcv, q) then 3
    else if Accounted(cfg, s) && MoreAhead(cfg, s) then 4
    else 5
  }

  function Dues(ep: Endpoint): nat {
    2 * |ep.outboundAck| + match ep.rcv.duty case Ready => 0 case Acking(_, _) => 3 case Handing(_, _, _) => 4
  }

  ghost function Unqueued(cfg: Config, snd: Sender): nat
    requires cfg.Valid() && snd.call.Active?
  {
    if snd.call.idx < Count(cfg, Current(snd)) then Count(cfg, Current(snd)) - snd.call.idx else 0
  }

  ghost function Weight(cfg: Config, s: State): nat
    requires cfg.Valid() && s.l.snd.call.Active?
  {
    var stage := Stage(cfg, s);
    if stage == 1 then 10 * |s.rl| + Dues(s.l)
    else if stage == 2 then |s.r.outboundAck|
    else if stage == 3 then Dues(s.r)
    else if stage == 4 then
      30 * Unqueued(cfg, s.l.snd) + 20 * |s.l.outbound| + 20 * |s.l.outboundAck| + 10 * |s.lr| + Dues(s.r)
    else 2 * Unqueued(cfg, s.l.snd) + |s.l.outbound| + |s.l.outboundAck|
  }

  /** The same Send goes on, with both ends open and success nearer. */
  ghost predicate Nearer(cfg: Config, s: State, s': State)
    requires cfg.Valid() && s.l.snd.call.Active?
  {
    && Open(s') && s'.l.snd.call.Active?
    && s'.l.snd.sent == s.l.snd.sent && s'.l.snd.outcomes == s.l.snd.outcomes
    && Chance(cfg, s')
    && (Stage(cfg, s') < Stage(cfg, s) || (Stage(cfg, s') == Stage(cfg, s) && Weight(cfg, s') < Weight(cfg, s)))
  }

  ghost predicate Succeeded(s: State, s': State) {
    s'.l.snd.sent == s.l.snd.sent && s'.l.snd.outcomes == s.l.snd.outcomes + [Acked]
  }

  ghost predicate Going(cfg: Config, s: State) {
    cfg.Valid() && Inv(cfg, s) && Open(s) && WithinLimits(cfg, s.l.snd.sent) && s.l.snd.call.Active?
  }

  lemma SenderFacts(cfg: Config, s: State)
    requires Going(cfg, s)
    ensures var snd := s.l.snd;
            && snd.nextSeq == |snd.sent| && snd.waiters.Keys == {snd.nextSeq}
            && 1 <= snd.call.attempt <= cfg.attempts && snd.call.idx <= Count(cfg, Current(snd))
            && 0 < Count(cfg, Current(snd)) < 0x1_0000
            && (AckHere(snd) ==> snd.waiters[snd.nextSeq].value == cfg.crc32(Current(snd)))
  {
    FragmentAt(Current(s.l.snd), cfg.size, 0);
    hide Flow, IntakeInv;
  }

  /** Queue the next fragment, or make room for it once the acks are gone. */
  lemma PushOn(cfg: Config, s: State) returns (e: Event, s': State)
    requires cfg.Valid() && s.l.snd.call.Active? && s.l.snd.call.idx < Count(cfg, Current(s.l.snd))
    ensures StepL(cfg, s, e, s') && AcksFirst(s, e, true)
    ensures s' == s.(l := s'.l, lr := s'.lr)
    ensures if s'.l.snd == s.l.snd
            then |s'.l.outbound| + |s'.l.outboundAck| < |s.l.outbound| + |s.l.outboundAck|
            else s'.l.snd == s.l.snd.(call := Active(s.l.snd.call.attempt, s.l.snd.call.idx + 1)) &&
                 |s'.l.outbound| == |s.l.outbound| + 1 && s'.l.outboundAck == s.l.outboundAck
    ensures s'.l.closed == s.l.closed
  {
    var snd := s.l.snd;
    if |s.l.outbound| < OUTBOUND_CAP {
      e := Push;
      s' := s.(l := s.l.(outbound := s.l.outbound +
                           [MessageFrame(cfg.crc32, cfg.size, snd.nextSeq, Current(snd), snd.call.idx)],
                         snd := snd.(call := Active(snd.call.attempt, snd.call.idx + 1))));
    } else if s.l.outboundAck != [] {
      e, s' := WriteAck, s.(l := s.l.(outboundAck := s.l.outboundAck[1..]), lr := s.lr + [s.l.outboundAck[0]]);
    } else {
      e, s' := WriteData, s.(l := s.l.(outbound := s.l.outbound[1..]), lr := s.lr + [s.l.outbound[0]]);
    }
  }

  lemma AckHereStep(cfg: Config, s: State) returns (e: Event, s': State)
    requires Going(cfg, s) && Stage(cfg, s) == 0
    ensures StepL(cfg, s, e, s') && AcksFirst(s, e, true) && (Succeeded(s, s') || Nearer(cfg, s, s'))
  {
    SenderFacts(cfg, s);
    hide Inv, Accounted, MoreAhead, HasAck, Owes, WithinLimits, Fragments;
    if s.l.snd.call.idx < Count(cfg, Current(s.l.snd)) {
      e, s' := PushOn(cfg, s);
      hide StepL;
    } else {
      e, s' := TakeAck, s.(l := s.l.(snd := Finish(s.l.snd, Acked)));
    }
  }

  /** The far reader goes on with what it owes, to whichever message. */
  lemma DuesMove(cfg: Config, s: State) returns (e: Event, s': State)
    requires cfg.Valid() && !s.r.rcv.duty.Ready?
    ensures StepL(cfg, Flip(s), e, Flip(s')) && !e.WriteData?
    ensures s'.l == s.l && s'.lr == s.lr && Dues(s'.r) < Dues(s.r)
    ensures s'.r.rcv.taken == s.r.rcv.taken && s'.r.closed == s.r.closed
    ensures s'.rl == s.rl || (s.r.outboundAck != [] && s'.rl == s.rl + [s.r.outboundAck[0]])
    ensures if s'.r.rcv.duty.Ready?
            then s'.r.outboundAck == s.r.outboundAck + [Ack(s.r.rcv.duty.q, s.r.rcv.duty.crc)]
            else Owes(s'.r.rcv, s.r.rcv.duty.q) &&
                 (s'.r.outboundAck == s.r.outboundAck ||
                  (s.r.outboundAck != [] && s'.r.outboundAck == s.r.outboundAck[1..]))
  {
    if s.r.rcv.duty.Handing? {
      e, s' := CallOnData, s.(r := s.r.(rcv := HandOver(s.r.rcv)));
    } else if |s.r.outboundAck| >= OUTBOUND_ACK_CAP {
      e, s' := WriteAck, s.(r := s.r.(outboundAck := s.r.outboundAck[1..]), rl := s.rl + [s.r.outboundAck[0]]);
    } else {
      e := PushAck;
      s' := s.(r := s.r.(outboundAck := s.r.outboundAck + [Ack(s.r.rcv.duty.q, s.r.rcv.duty.crc)],
                         rcv := s.r.rcv.(duty := Ready)));
    }
  }

  lemma NoAckAdded(frames: seq<Frame>, f: Frame, q: u32)
    ensures HasAck(frames + [f], q) <==> HasAck(frames, q) || (f.Ack? && f.seqno == q)
    ensures frames != [] ==> (HasAck(frames, q) <==> HasAck(frames[1..], q) || (frames[0].Ack? && frames[0].seqno == q))
  {
    assert forall g :: g in frames + [f] <==> g in frames || g == f;
    assert frames != [] ==> forall g :: g in frames <==> g in frames[1..] || g == frames[0];
    if HasAck(frames, q) {
      var g :| g in frames && g.Ack? && g.seqno == q;
      assert g in frames + [f];
    }
    if f.Ack? && f.seqno == q {
      assert f in frames + [f];
    }
  }

  /** After reading an ack: it is the one awaited, or the awaited one is still there. */
  lemma NearerAfterAck(cfg: Config, s: State, s': State, f: Frame)
    requires cfg.Valid() && Open(s) && s.l.snd.call.Active? && Stage(cfg, s) == 1 && s.l.rcv.duty.Ready?
    requires s.l.snd.waiters.Keys == {s.l.snd.nextSeq} && s.rl != [] && f == s.rl[0] && f.Ack?
    requires s' == s.(rl := s.rl[1..], l := s.l.(snd := Resolve(s.l.snd, f.seqno, f.crc)))
    ensures Nearer(cfg, s, s')
  {
    NoAckAdded(s.rl, f, s.l.snd.nextSeq);
    hide HasAck, Accounted, MoreAhead, Owes;
    if f.seqno == s.l.snd.nextSeq {
      assert AckHere(s'.l.snd);
    } else {
      assert s'.l.snd == s.l.snd;
    }
  }

  lemma NearerAfterData(cfg: Config, s: State, s': State, f: Frame)
    requires cfg.Valid() && Open(s) && s.l.snd.call.Active? && Stage(cfg, s) == 1 && s.l.rcv.duty.Ready?
    requires s.rl != [] && f == s.rl[0] && f.Data?
    requires s' == s.(rl := s.rl[1..], l := s.l.(rcv := ReadData(cfg, s.l.rcv, f)))
    ensures Nearer(cfg, s, s')
  {
    NoAckAdded(s.rl, f, s.l.snd.nextSeq);
    hide HasAck, Accounted, MoreAhead, Owes, Handle;
  }

  lemma AckReadStep(cfg: Config, s: State) returns (s': State)
    requires Going(cfg, s) && Stage(cfg, s) == 1 && s.l.rcv.duty.Ready?
    ensures StepL(cfg, s, Read, s') && Nearer(cfg, s, s')
  {
    SenderFacts(cfg, s);
    var ack :| ack in s.rl && ack.Ack? && ack.seqno == s.l.snd.nextSeq;
    assert s.rl != [];
    hide Inv, Stage, Nearer, ReadData, Resolve, WithinLimits, HasAck;
    var f := s.rl[0];
    if f.Ack? {
      s' := s.(rl := s.rl[1..], l := s.l.(snd := Resolve(s.l.snd, f.seqno, f.crc)));
      NearerAfterAck(cfg, s, s', f);
    } else {
      s' := s.(rl := s.rl[1..], l := s.l.(rcv := ReadData(cfg, s.l.rcv, f)));
      NearerAfterData(cfg, s, s', f);
    }
  }

  lemma AckInFlightStep(cfg: Config, s: State) returns (e: Event, s': State)
    requires Going(cfg, s) && Stage(cfg, s) == 1
    ensures StepL(cfg, s, e, s') && AcksFirst(s, e, true) && Nearer(cfg, s, s')
  {
    if s.l.rcv.duty.Ready? {
      e := Read;
      s' := AckReadStep(cfg, s);
    } else {
      hide Inv, Accounted, MoreAhead, Owes, StepL, HasAck, WithinLimits;
      var t';
      e, t' := DuesMove(cfg, Flip(s));
      s' := Flip(t');
      assert Flip(Flip(s)) == s && Flip(s') == t';
    }
  }

  /** The writer of the other end takes the head of its ack queue. */
  lemma FarAckStep(cfg: Config, s: State) returns (e: Event, s': State)
    requires Going(cfg, s) && Stage(cfg, s) == 2
    ensures StepL(cfg, Flip(s), e, Flip(s')) && !e.WriteData? && Nearer(cfg, s, s')
  {
    hide Inv, Accounted, MoreAhead, Owes;
    var head := s.r.outboundAck[0];
    e, s' := WriteAck, s.(r := s.r.(outboundAck := s.r.outboundAck[1..]), rl := s.rl + [head]);
    var ack :| ack in s.r.outboundAck && ack.Ack? && ack.seqno == s.l.snd.nextSeq;
    if ack == head {
      assert ack in s'.rl;
    } else {
      assert ack in s'.r.outboundAck;
    }
  }

  lemma DuesKeepAcks(s: State, s': State, q: u32)
    requires !s.r.rcv.duty.Ready? && !HasAck(s.rl, q) && !HasAck(s.r.outboundAck, q)
    requires s'.rl == s.rl || (s.r.outboundAck != [] && s'.rl == s.rl + [s.r.outboundAck[0]])
    requires s'.r.outboundAck == s.r.outboundAck ||
             (s.r.outboundAck != [] && s'.r.outboundAck == s.r.outboundAck[1..]) ||
             s'.r.outboundAck == s.r.outboundAck + [Ack(s.r.rcv.duty.q, s.r.rcv.duty.crc)]
    ensures !HasAck(s'.rl, q)
    ensures HasAck(s'.r.outboundAck, q) ==> s.r.rcv.duty.q == q
    ensures s'.r.outboundAck == s.r.outboundAck + [Ack(q, s.r.rcv.duty.crc)] ==> HasAck(s'.r.outboundAck, q)
  {
    if s.r.outboundAck != [] {
      NoAckAdded(s.rl, s.r.outboundAck[0], q);
      NoAckAdded(s.r.outboundAck, Ack(s.r.rcv.duty.q, s.r.rcv.duty.crc), q);
    } else {
      NoAckAdded([], Ack(s.r.rcv.duty.q, s.r.rcv.duty.crc), q);
    }
  }

  lemma OwedStep(cfg: Config, s: State) returns (e: Event, s': State)
    requires Going(cfg, s) && Stage(cfg, s) == 3
    ensures StepL(cfg, Flip(s), e, Flip(s')) && !e.WriteData? && Nearer(cfg, s, s')
  {
    hide Inv, Accounted, MoreAhead, StepL, HasAck;
    e, s' := DuesMove(cfg, s);
    DuesKeepAcks(s, s', s.l.snd.nextSeq);
    hide Dues;
  }

  // --------------------------------------- everything lacking is still to come

  lemma PromisedExactly(cfg: Config, s: State, q: u32)
    requires cfg.Valid() && Inv(cfg, s) && WithinLimits(cfg, s.l.snd.sent) && Known(s.l.snd.sent, q)
    ensures q in Promised(s.r.rcv) <==> Covers(Have(s.r.rcv.taken, q), Count(cfg, s.l.snd.sent[q - 1]))
  {
    hide Flow, FeedbackInv, SenderInv, Have, Covers, PendingInv, DeliveredInv;
  }

  lemma RecognisedExactly(cfg: Config, s: State, f: Frame)
    requires cfg.Valid() && Inv(cfg, s) && WithinLimits(cfg, s.l.snd.sent)
    requires s.lr != [] && f == s.lr[0] && f.Data?
    ensures var r := s.r.rcv.tables;
            f.seqno in Promised(s.r.rcv) <==> f.seqno in r.delivered && r.delivered[f.seqno] == f.crc
  {
    var sent, rcv := s.l.snd.sent, s.r.rcv;
    var whole := rcv.taken + (s.lr + s.l.outbound);
    assert IntakeInv(cfg, sent, rcv) && Flow(cfg, sent, whole) by { hide FeedbackInv, SenderInv, Flow, IntakeInv; }
    hide Inv, WithinLimits;
    FlowPrefix(cfg, sent, whole, |rcv.taken| + 1);
    assert whole[..|rcv.taken| + 1] == rcv.taken + [f];
    hide Flow;
    DuplicateRecognised(cfg, sent, rcv.taken, rcv.tables, Promised(rcv), f);
  }

  lemma ReadFacts(cfg: Config, s: State, f: Frame, s': State)
    requires Going(cfg, s) && s.r.rcv.duty.Ready? && s.lr != [] && f == s.lr[0] && f.Data?
    requires s' == s.(lr := s.lr[1..], r := s.r.(rcv := ReadData(cfg, s.r.rcv, f)))
    ensures Owes(s'.r.rcv, s.l.snd.nextSeq) <==>
            f.seqno == s.l.snd.nextSeq &&
            Covers(Have(s'.r.rcv.taken, s.l.snd.nextSeq), Count(cfg, Current(s.l.snd)))
  {
    var q, sent, rcv := s.l.snd.nextSeq, s.l.snd.sent, s.r.rcv;
    assert Inv(cfg, s') by {
      hide Inv, Handle;
      assert Step(cfg, s, Read, false, s');
      hide Step;
      StepKeeps(cfg, s, Read, false, s');
    }
    SenderFacts(cfg, s);
    PromisedExactly(cfg, s', q);
    RecognisedExactly(cfg, s, f);
    hide Inv, Flow, Have, Covers, WithinLimits, Upsert, Conclude;
  }

  /** Reading the head of the track moves a fragment from ahead to taken. */
  lemma ReadMoves(s: State, s': State, f: Frame)
    requires s.lr != [] && f == s.lr[0] && f.Data? && s'.lr == s.lr[1..] && s'.l == s.l
    requires s'.r.rcv.taken == s.r.rcv.taken + [f]
    ensures var q := s.l.snd.nextSeq;
            var it := if f.seqno == q then {f.fragIdx as nat} else {};
            Ahead(s) == Ahead(s') + it && Have(s'.r.rcv.taken, q) == Have(s.r.rcv.taken, q) + it
  {
    var q, path := s.l.snd.nextSeq, s.lr + s.l.outbound;
    HaveHead(path, q);
    HaveSnoc(s.r.rcv.taken, f, q);
    assert path[1..] == s'.lr + s'.l.outbound;
    hide Have;
  }

  /** If the message is still incomplete, what it lacks is still to come. */
  lemma StillToCome(cfg: Config, s: State, s': State, f: Frame)
    requires cfg.Valid() && s.l.snd.call.Active? && s.l.snd.call.idx <= Count(cfg, Current(s.l.snd))
    requires Accounted(cfg, s) && MoreAhead(cfg, s)
    requires s.lr != [] && f == s.lr[0] && f.Data? && s'.lr == s.lr[1..] && s'.l == s.l
    requires s'.r.rcv.taken == s.r.rcv.taken + [f]
    requires f.seqno == s.l.snd.nextSeq ==>
               !Covers(Have(s'.r.rcv.taken, s.l.snd.nextSeq), Count(cfg, Current(s.l.snd)))
    ensures Accounted(cfg, s') && MoreAhead(cfg, s')
  {
    ReadMoves(s, s', f);
    hide Ahead, Have;
    if f.seqno == s.l.snd.nextSeq {
      var j: nat :| j < Count(cfg, Current(s.l.snd)) && j !in Have(s'.r.rcv.taken, s.l.snd.nextSeq);
      assert j < s.l.snd.call.idx ==> j in Ahead(s');
    }
  }

  lemma NearerAfterRead(cfg: Config, s: State, s': State, f: Frame)
    requires cfg.Valid() && Open(s) && s.l.snd.call.Active? && s.l.snd.call.idx <= Count(cfg, Current(s.l.snd))
    requires Stage(cfg, s) == 4 && s.r.rcv.duty.Ready? && s.lr != [] && f == s.lr[0] && f.Data?
    requires s' == s.(lr := s.lr[1..], r := s.r.(rcv := ReadData(cfg, s.r.rcv, f)))
    requires Owes(s'.r.rcv, s.l.snd.nextSeq) <==>
             f.seqno == s.l.snd.nextSeq &&
             Covers(Have(s'.r.rcv.taken, s.l.snd.nextSeq), Count(cfg, Current(s.l.snd)))
    ensures Nearer(cfg, s, s')
  {
    hide Handle, HasAck, Covers, Have, Fragments;
    if !Owes(s'.r.rcv, s.l.snd.nextSeq) {
      StillToCome(cfg, s, s', f);
    }
    hide Accounted, MoreAhead;
  }

  lemma FragmentReadStep(cfg: Config, s: State, f: Frame) returns (s': State)
    requires Going(cfg, s) && Stage(cfg, s) == 4 && s.r.rcv.duty.Ready? && s.lr != [] && f == s.lr[0] && f.Data?
    ensures StepL(cfg, Flip(s), Read, Flip(s')) && Nearer(cfg, s, s')
  {
    s' := s.(lr := s.lr[1..], r := s.r.(rcv := ReadData(cfg, s.r.rcv, f)));
    hide Inv, Stage, Handle, WithinLimits, Owes, ReadData, Nearer;
    ReadFacts(cfg, s, f, s');
    SenderFacts(cfg, s);
    NearerAfterRead(cfg, s, s', f);
  }

  lemma NearerAfterFarAck(cfg: Config, s: State, s': State, f: Frame)
    requires cfg.Valid() && Open(s) && s.l.snd.call.Active? && Stage(cfg, s) == 4
    requires s.lr != [] && f == s.lr[0] && f.Ack?
    requires s' == s.(lr := s.lr[1..], r := s.r.(snd := Resolve(s.r.snd, f.seqno, f.crc)))
    ensures Nearer(cfg, s, s')
  {
    var path := s.lr + s.l.outbound;
    HaveHead(path, s.l.snd.nextSeq);
    assert path[1..] == s'.lr + s'.l.outbound;
    hide Have, HasAck, Fragments;
  }

  lemma FarReadsAck(cfg: Config, s: State, f: Frame) returns (s': State)
    requires Going(cfg, s) && Stage(cfg, s) == 4 && s.r.rcv.duty.Ready? && s.lr != [] && f == s.lr[0] && f.Ack?
    ensures StepL(cfg, Flip(s), Read, Flip(s')) && Nearer(cfg, s, s')
  {
    s' := s.(lr := s.lr[1..], r := s.r.(snd := Resolve(s.r.snd, f.seqno, f.crc)));
    hide Inv, Stage, Nearer, Resolve, WithinLimits;
    NearerAfterFarAck(cfg, s, s', f);
  }

  /** The acks of the sending end go first. */
  lemma AcksWrittenStep(cfg: Config, s: State) returns (s': State)
    requires Going(cfg, s) && Stage(cfg, s) == 4 && s.lr == [] && s.l.outboundAck != []
    ensures StepL(cfg, s, WriteAck, s') && Nearer(cfg, s, s')
  {
    var ack, q := s.l.outboundAck[0], s.l.snd.nextSeq;
    assert ack.Ack? by { hide Dir; }
    s' := s.(l := s.l.(outboundAck := s.l.outboundAck[1..]), lr := [ack]);
    assert StepL(cfg, s, WriteAck, s');
    HaveOfAcks(ack, q);
    HaveJoin([ack], s.l.outbound, q);
    HaveJoin(s.lr, s.l.outbound, q);
    assert Have(s.lr, q) == {};
    hide Inv, HasAck, Have, StepL, Fragments, WithinLimits;
  }

  lemma FragmentWrittenStep(cfg: Config, s: State) returns (s': State)
    requires Going(cfg, s) && Stage(cfg, s) == 4 && s.lr == [] && s.l.outbound != []
    ensures StepL(cfg, s, WriteData, s') && Nearer(cfg, s, s')
  {
    s' := s.(l := s.l.(outbound := s.l.outbound[1..]), lr := s.lr + [s.l.outbound[0]]);
    assert s'.lr + s'.l.outbound == s.lr + s.l.outbound;
    hide Inv, HasAck, Have;
  }

  lemma NearerAfterPush(cfg: Config, s: State, s': State, f: Frame)
    requires cfg.Valid() && Open(s) && s.l.snd.call.Active? && Stage(cfg, s) == 4 && s.lr == [] && s.l.outbound == []
    requires s.l.snd.call.idx < Count(cfg, Current(s.l.snd)) && f.Data? && f.seqno == s.l.snd.nextSeq
    requires f.fragIdx == s.l.snd.call.idx
    requires s' == s.(l := s.l.(outbound := [f], snd := s.l.snd.(call := Active(s.l.snd.call.attempt, f.fragIdx + 1))))
    ensures Nearer(cfg, s, s')
  {
    HaveOfOne(f, s.l.snd.nextSeq);
    assert s.lr + s.l.outbound == [] && s'.lr + s'.l.outbound == [f];
    hide HasAck, Have, Fragments;
    assert s.l.snd.call.idx in Ahead(s');
  }

  lemma FragmentQueuedStep(cfg: Config, s: State) returns (s': State)
    requires Going(cfg, s) && Stage(cfg, s) == 4 && s.lr == [] && s.l.outbound == []
    ensures StepL(cfg, s, Push, s') && Nearer(cfg, s, s')
  {
    SenderFacts(cfg, s);
    var snd := s.l.snd;
    assert s.lr + s.l.outbound == [];
    assert snd.call.idx < Count(cfg, Current(snd));
    hide Inv, HasAck, Have, Stage, Nearer;
    var f := MessageFrame(cfg.crc32, cfg.size, snd.nextSeq, Current(snd), snd.call.idx);
    assert f.fragIdx == snd.call.idx;
    s' := s.(l := s.l.(outbound := [f], snd := snd.(call := Active(snd.call.attempt, snd.call.idx + 1))));
    assert StepL(cfg, s, Push, s');
    hide StepL, MessageFrame;
    NearerAfterPush(cfg, s, s', f);
  }

  lemma StillToComeStep(cfg: Config, s: State) returns (e: Event, left: bool, s': State)
    requires Going(cfg, s) && Stage(cfg, s) == 4
    ensures Step(cfg, s, e, left, s') && AcksFirst(s, e, left) && Nearer(cfg, s, s')
  {
    if !s.r.rcv.duty.Ready? {
      hide Inv, StepL, HasAck, Have;
      left := false;
      e, s' := DuesMove(cfg, s);
      DuesKeepAcks(s, s', s.l.snd.nextSeq);
      hide Dues;
    } else if s.lr == [] {
      left := true;
      if s.l.outboundAck != [] {
        e := WriteAck;
        s' := AcksWrittenStep(cfg, s);
      } else if s.l.outbound != [] {
        e := WriteData;
        s' := FragmentWrittenStep(cfg, s);
      } else {
        e := Push;
        s' := FragmentQueuedStep(cfg, s);
      }
      hide Inv, StepL, Nearer;
    } else {
      e, left := Read, false;
      if s.lr[0].Data? {
        s' := FragmentReadStep(cfg, s, s.lr[0]);
      } else {
        s' := FarReadsAck(cfg, s, s.lr[0]);
      }
      hide Inv, StepL, Nearer;
    }
  }

  /** Only a further attempt is left: finish this one and begin it. */
  lemma NextAttemptStep(cfg: Config, s: State) returns (e: Event, s': State)
    requires Going(cfg, s) && Stage(cfg, s) == 5 && s.l.snd.call.attempt < cfg.attempts
    ensures StepL(cfg, s, e, s') && AcksFirst(s, e, true) && Nearer(cfg, s, s')
  {
    SenderFacts(cfg, s);
    hide Inv, HasAck, Have;
    if s.l.snd.call.idx < Count(cfg, Current(s.l.snd)) {
      e, s' := PushOn(cfg, s);
      hide StepL, Accounted, MoreAhead, Owes;
    } else {
      e, s' := Expire, s.(l := s.l.(snd := s.l.snd.(call := Active(s.l.snd.call.attempt + 1, 0))));
    }
  }

  /** While there is a chance, some step brings success nearer, or is it. */
  lemma ChanceStep(cfg: Config, s: State) returns (e: Event, left: bool, s': State)
    requires Going(cfg, s) && Chance(cfg, s)
    ensures Step(cfg, s, e, left, s') && AcksFirst(s, e, left) && (Succeeded(s, s') || Nearer(cfg, s, s'))
  {
    var stage := Stage(cfg, s);
    left := true;
    if stage == 0 {
      e, s' := AckHereStep(cfg, s);
    } else if stage == 1 {
      e, s' := AckInFlightStep(cfg, s);
    } else if stage == 2 {
      left := false;
      e, s' := FarAckStep(cfg, s);
    } else if stage == 3 {
      left := false;
      e, s' := OwedStep(cfg, s);
    } else if stage == 4 {
      e, left, s' := StillToComeStep(cfg, s);
    } else {
      e, s' := NextAttemptStep(cfg, s);
    }
    hide Inv, StepL, Nearer, Succeeded;
  }

  lemma {:induction false} ChanceSucceeds(cfg: Config, s: State) returns (s': State)
    requires Going(cfg, s) && Chance(cfg, s)
    ensures Reaches(cfg, true, s, s') && Succeeded(s, s')
    decreases Stage(cfg, s), Weight(cfg, s)
  {
    var e, left, m := ChanceStep(cfg, s);
    StepKeeps(cfg, s, e, left, m);
    hide Inv, Step, Reaches, Chance, Stage, Weight, WithinLimits, AcksFirst;
    if Succeeded(s, m) {
      OneMove(cfg, s, e, left, m);
      s' := m;
    } else {
      s' := ChanceSucceeds(cfg, m);
      StepThenReaches(cfg, s, e, left, m, s');
    }
  }

  // ------------------------------------------------------- when there is none

  /** A Send in its last attempt, as far as the invariant and the limits go. */
  ghost predicate Lasting(cfg: Config, s: State) {
    cfg.Valid() && Inv(cfg, s) && WithinLimits(cfg, s.l.snd.sent) && s.l.snd.call.Active?
  }

  /** Nothing has been added to what is on its way. */
  ghost predicate Fewer(s: State, s': State) {
    && Ahead(s') <= Ahead(s)
    && Have(s'.r.rcv.taken, s.l.snd.nextSeq) <= Have(s.r.rcv.taken, s.l.snd.nextSeq) + Ahead(s)
    && (AckComing(s') ==> AckComing(s))
  }

  lemma FewerKeeps(cfg: Config, s: State, s': State)
    requires cfg.Valid() && s.l.snd.call.Active? && !Chance(cfg, s) && s'.l.snd == s.l.snd && Fewer(s, s')
    ensures !Chance(cfg, s')
  {
    hide AckComing, Have, Fragments;
    assert s'.l.snd.nextSeq == s.l.snd.nextSeq;
    hide Ahead;
  }

  lemma FewerAcks(frames: seq<Frame>, frames': seq<Frame>, q: u32)
    requires forall f :: f in frames' ==> f in frames
    ensures HasAck(frames', q) ==> HasAck(frames, q)
  {
  }

  lemma RemovedIn(path: seq<Frame>, i: nat)
    requires i < |path|
    ensures forall f :: f in path[..i] + path[i + 1..] ==> f in path
    ensures forall f :: f in path[..i + 1] + path[i..] ==> f in path
  {
  }

  /** The track a side writes, after one of its steps on it. */
  lemma TrackFewer(e: Event, out: seq<Frame>, track: seq<Frame>, track': seq<Frame>, q: u32)
    requires match e
             case Lose(i) => i < |track| && track' == track[..i] + track[i + 1..]
             case Duplicate(i) => i < |track| && track' == track[..i + 1] + track[i..]
             case _ => false
    ensures Have(track' + out, q) <= Have(track + out, q)
    ensures HasAck(track', q) ==> HasAck(track, q)
  {
    HaveJoin(track', out, q);
    HaveJoin(track, out, q);
    match e
    case Lose(i) =>
      HaveFewer(track, i, q);
      RemovedIn(track, i);
      FewerAcks(track, track', q);
    case Duplicate(i) =>
      HaveRepeated(track, i, q);
      RemovedIn(track, i);
      FewerAcks(track, track', q);
  }

  lemma LeftFewer(cfg: Config, s: State, e: Event, s': State)
    requires Lasting(cfg, s) && !AckComing(s) && StepL(cfg, s, e, s')
    requires !e.Push? && !e.Expire? && !e.TakeAck? && !e.Abort?
    ensures s'.l.snd == s.l.snd && Fewer(s, s')
  {
    var q := s.l.snd.nextSeq;
    assert s.l.snd.waiters.Keys == {q} && Queues(s.l) by { hide Flow, IntakeInv, FeedbackInv; }
    hide Inv, Have, HasAck, Handle, WithinLimits;
    match e
    case Lose(_) => TrackFewer(e, s.l.outbound, s.lr, s'.lr, q);
    case Duplicate(_) => TrackFewer(e, s.l.outbound, s.lr, s'.lr, q);
    case WriteData => assert s'.lr + s'.l.outbound == s.lr + s.l.outbound;
    case WriteAck =>
      var ack := s.l.outboundAck[0];
      assert ack.Ack?;
      HaveOfAcks(ack, q);
      HaveJoin(s.lr, [ack], q);
      HaveJoin(s.lr + [ack], s.l.outbound, q);
      HaveJoin(s.lr, s.l.outbound, q);
    case Read => NoAckAdded(s.rl, s.rl[0], q);
    case _ =>
  }

  lemma FarAckFewer(s: State, s': State, frames: seq<Frame>)
    requires !AckComing(s) && s'.l == s.l && s'.lr == s.lr && s'.r.rcv == s.r.rcv
    requires frames != [] && s'.rl == s.rl + [frames[0]]
    requires (frames == s.r.outboundAck && s'.r.outboundAck == frames[1..]) ||
             (frames[0].Data? && s'.r.outboundAck == s.r.outboundAck)
    ensures Fewer(s, s')
  {
    var q := s.l.snd.nextSeq;
    NoAckAdded(s.rl, frames[0], q);
    NoAckAdded(frames, frames[0], q);
    hide HasAck, Have;
  }

  lemma RightFewer(cfg: Config, s: State, e: Event, s': State)
    requires Lasting(cfg, s) && !AckComing(s) && StepL(cfg, Flip(s), e, Flip(s')) && !e.Read?
    ensures s'.l.snd == s.l.snd && Fewer(s, s')
  {
    var q := s.l.snd.nextSeq;
    assert Queues(s.r) by { hide Dir; }
    hide Inv, Have, HasAck, WithinLimits;
    match e
    case Lose(_) => TrackFewer(e, s.r.outbound, s.rl, s'.rl, q);
    case Duplicate(_) => TrackFewer(e, s.r.outbound, s.rl, s'.rl, q);
    case WriteData => FarAckFewer(s, s', s.r.outbound);
    case WriteAck => FarAckFewer(s, s', s.r.outboundAck);
    case PushAck => NoAckAdded(s.r.outboundAck, Ack(s.r.rcv.duty.q, s.r.rcv.duty.crc), q);
    case _ =>
  }

  lemma SenderInvOf(cfg: Config, s: State)
    requires Lasting(cfg, s)
    ensures s.l.snd.nextSeq == |s.l.snd.sent| > 0 && Current(s.l.snd) == s.l.snd.sent[s.l.snd.nextSeq - 1]
    ensures 1 <= s.l.snd.call.attempt <= cfg.attempts && s.l.snd.call.idx <= Count(cfg, Current(s.l.snd))
  {
    hide Flow, IntakeInv, FeedbackInv;
  }

  lemma DutyIsPromised(cfg: Config, s: State)
    requires Lasting(cfg, s)
    ensures !s.r.rcv.duty.Ready? ==> s.r.rcv.duty.q in Promised(s.r.rcv)
    ensures var q := s.l.snd.nextSeq;
            q in Promised(s.r.rcv) ==> Covers(Have(s.r.rcv.taken, q), Count(cfg, Current(s.l.snd)))
  {
    SenderInvOf(cfg, s);
    hide Flow, FeedbackInv, PendingInv, DeliveredInv, Have, Covers;
  }

  /** A fragment that makes the reader owe the message was the last one it lacked:
      before it was read, all the rest had been, and it was on its way. */
  lemma OwedWasAccounted(cfg: Config, s: State, s': State, f: Frame)
    requires cfg.Valid() && s.l.snd.call.Active? && Lasting(cfg, s')
    requires s.lr != [] && f == s.lr[0] && f.Data?
    requires s' == s.(lr := s.lr[1..], r := s.r.(rcv := ReadData(cfg, s.r.rcv, f)))
    ensures Owes(s'.r.rcv, s.l.snd.nextSeq) ==> Accounted(cfg, s) && MoreAhead(cfg, s)
  {
    var q := s.l.snd.nextSeq;
    ReadMoves(s, s', f);
    DutyIsPromised(cfg, s');
    SenderInvOf(cfg, s');
    hide Lasting, Have, Handle, Ahead, Fragments, Promised;
    if Owes(s'.r.rcv, q) {
      assert f.seqno == q && f.fragIdx as nat in Ahead(s);
      var taken := Have(s'.r.rcv.taken, q);
      assert Covers(taken, Count(cfg, Current(s.l.snd)));
      forall j: nat | j < Count(cfg, Current(s.l.snd)) ensures j in Have(s.r.rcv.taken, q) || j in Ahead(s) {
        assert j in taken;
      }
    }
  }

  lemma FarReadFewer(cfg: Config, s: State, s': State, f: Frame)
    requires cfg.Valid() && s.l.snd.call.Active? && !Chance(cfg, s) && Lasting(cfg, s')
    requires s.lr != [] && f == s.lr[0]
    requires s' == s.(lr := s.lr[1..], r := if f.Data? then s.r.(rcv := ReadData(cfg, s.r.rcv, f))
                                            else s.r.(snd := Resolve(s.r.snd, f.seqno, f.crc)))
    ensures Fewer(s, s')
  {
    if f.Data? {
      OwedWasAccounted(cfg, s, s', f);
      ReadMoves(s, s', f);
      hide Ahead;
    } else {
      HaveHead(s.lr + s.l.outbound, s.l.snd.nextSeq);
      assert (s.lr + s.l.outbound)[1..] == s'.lr + s'.l.outbound;
    }
    hide Lasting, Have, HasAck, Handle, Owes, Accounted, MoreAhead;
  }

  lemma FarReadKeeps(cfg: Config, s: State, s': State)
    requires Lasting(cfg, s) && !Chance(cfg, s) && StepL(cfg, Flip(s), Read, Flip(s'))
    ensures s'.l.snd == s.l.snd && !Chance(cfg, s')
  {
    hide Chance, Fewer, ReadData;
    assert Step(cfg, s, Read, false, s');
    StepKeeps(cfg, s, Read, false, s');
    hide Inv;
    FarReadFewer(cfg, s, s', s.lr[0]);
    FewerKeeps(cfg, s, s');
  }

  /** Queueing another fragment does not bring back one that is lost. */
  lemma PushKeepsNone(cfg: Config, s: State, s': State)
    requires Lasting(cfg, s) && !Chance(cfg, s) && StepL(cfg, s, Push, s')
    ensures s'.l.snd.call.Active? && !Chance(cfg, s') && s'.l.snd.outcomes == s.l.snd.outcomes
  {
    var q, snd := s.l.snd.nextSeq, s.l.snd;
    SenderInvOf(cfg, s);
    var f := MessageFrame(cfg.crc32, cfg.size, q, Current(snd), snd.call.idx);
    assert f.fragIdx == snd.call.idx by { hide Inv; }
    HaveOfOne(f, q);
    HaveJoin(s.lr + s.l.outbound, [f], q);
    assert s'.lr + s'.l.outbound == s.lr + s.l.outbound + [f];
    hide Lasting, Have, HasAck, Fragments, MessageFrame;
    var j: nat :| j < snd.call.idx && j !in Have(s.r.rcv.taken, q) && j !in Ahead(s);
    assert j !in Ahead(s');
    assert !Accounted(cfg, s');
  }

  /** Without a chance the Send goes on without one, or ends without success. */
  ghost predicate Doomed(cfg: Config, s: State, before: seq<Outcome>)
    requires cfg.Valid()
  {
    if s.l.snd.outcomes == before
    then s.l.snd.call.Active? && !Chance(cfg, s)
    else |s.l.snd.outcomes| > |before| && s.l.snd.outcomes[|before|] != Acked
  }

  lemma LeftStaysDoomed(cfg: Config, s: State, e: Event, s': State)
    requires Lasting(cfg, s) && !Chance(cfg, s) && StepL(cfg, s, e, s')
    ensures Doomed(cfg, s', s.l.snd.outcomes)
    ensures s'.l.snd.outcomes == s.l.snd.outcomes ==> s'.l.snd.sent == s.l.snd.sent
  {
    if e.Push? {
      PushKeepsNone(cfg, s, s');
      hide Lasting, Chance;
    } else if e.Expire? || e.TakeAck? || e.Abort? {
      hide Lasting;
    } else {
      assert !AckComing(s);
      LeftFewer(cfg, s, e, s');
      hide StepL, Lasting, Fewer, AckComing;
      FewerKeeps(cfg, s, s');
      hide Chance;
    }
  }

  lemma RightStaysDoomed(cfg: Config, s: State, e: Event, s': State)
    requires Lasting(cfg, s) && !Chance(cfg, s) && StepL(cfg, Flip(s), e, Flip(s'))
    ensures Doomed(cfg, s', s.l.snd.outcomes) && s'.l.snd == s.l.snd
  {
    if e.Read? {
      FarReadKeeps(cfg, s, s');
    } else {
      assert !AckComing(s);
      RightFewer(cfg, s, e, s');
      hide StepL, Lasting, Fewer, AckComing;
      FewerKeeps(cfg, s, s');
    }
    hide Chance, StepL, Lasting;
  }

  lemma DoomedStep(cfg: Config, s: State, e: Event, left: bool, s': State, before: seq<Outcome>)
    requires cfg.Valid() && Step(cfg, s, e, left, s') && Doomed(cfg, s, before)
    requires s.l.snd.outcomes == before ==> Lasting(cfg, s)
    ensures Doomed(cfg, s', before) && (s'.l.snd.outcomes == before ==> Lasting(cfg, s'))
  {
    if s.l.snd.outcomes == before {
      if left {
        LeftStaysDoomed(cfg, s, e, s');
      } else {
        RightStaysDoomed(cfg, s, e, s');
      }
      StepKeeps(cfg, s, e, left, s');
      hide Inv, StepL, Chance;
    } else {
      hide Inv, Chance;
      if left {
        OutcomesOnlyGrow(cfg, s, e, s');
      } else {
        OtherSideKeepsSender(cfg, Flip(s), e, Flip(s'));
      }
      hide StepL;
    }
  }

  lemma {:induction false} StaysDoomed(cfg: Config, prompt: bool, s: State, n: nat, s': State, before: seq<Outcome>)
    requires cfg.Valid() && ReachesIn(cfg, prompt, s, n, s') && Doomed(cfg, s, before)
    requires s.l.snd.outcomes == before ==> Lasting(cfg, s)
    ensures Doomed(cfg, s', before)
    decreases n
  {
    if n == 0 {
    } else {
      hide Step, Doomed, Lasting, AcksFirst;
      var e, left, m :|
        Step(cfg, s, e, left, m) && (prompt ==> AcksFirst(s, e, left)) && ReachesIn(cfg, prompt, m, n - 1, s');
      DoomedStep(cfg, s, e, left, m, before);
      StaysDoomed(cfg, prompt, m, n - 1, s', before);
    }
  }

  // ------------------------------------------------------------------- theorem

  /** Some continuation, one in which writers take acks first if prompt, makes
      that side's Send return nil. */
  ghost predicate MaySucceed(cfg: Config, prompt: bool, s: State, left: bool)
    requires cfg.Valid()
  {
    exists s' :: Reaches(cfg, prompt, s, s') && Succeeded(Facing(s, left), Facing(s', left))
  }

  lemma {:induction false} AnyPaceIn(cfg: Config, s: State, n: nat, s': State)
    requires cfg.Valid() && ReachesIn(cfg, true, s, n, s')
    ensures ReachesIn(cfg, false, s, n, s')
    decreases n
  {
    hide Step, AcksFirst;
    if n == 0 {
    } else {
      var e, left, m :| Step(cfg, s, e, left, m) && AcksFirst(s, e, left) && ReachesIn(cfg, true, m, n - 1, s');
      AnyPaceIn(cfg, m, n - 1, s');
    }
  }

  lemma AnyPace(cfg: Config, prompt: bool, s: State, s': State)
    requires cfg.Valid() && Reaches(cfg, true, s, s')
    ensures Reaches(cfg, prompt, s, s')
  {
    var n: nat :| ReachesIn(cfg, true, s, n, s');
    AnyPaceIn(cfg, s, n, s');
  }

  lemma FromFacing(cfg: Config, s: State, left: bool, s': State)
    requires cfg.Valid() && Reaches(cfg, true, Facing(s, left), Facing(s', left))
    ensures Reaches(cfg, true, s, s')
  {
    var n: nat :| ReachesIn(cfg, true, Facing(s, left), n, Facing(s', left));
    if !left {
      ReachFlip(cfg, true, Flip(s), n, Flip(s'));
      assert Flip(Flip(s)) == s && Flip(Flip(s')) == s';
    }
    hide ReachesIn;
  }

  lemma ToFacing(cfg: Config, prompt: bool, s: State, left: bool, s': State) returns (n: nat)
    requires cfg.Valid() && Reaches(cfg, prompt, s, s')
    ensures ReachesIn(cfg, prompt, Facing(s, left), n, Facing(s', left))
  {
    n :| ReachesIn(cfg, prompt, s, n, s');
    if !left {
      ReachFlip(cfg, prompt, s, n, s');
    }
    hide ReachesIn;
  }

  /** In every reachable state with both ends open, a Send in progress may still
      return nil if and only if it has a chance, whether or not the writers are
      bound to take acks first. */
  lemma SendMaySucceedExactly(
      cfg: Config, moves: seq<Move>, trace: seq<State>, k: nat, left: bool, prompt: bool)
    requires cfg.Valid() && IsRun(cfg, moves, trace) && k < |trace| && Open(trace[k])
    requires WithinLimits(cfg, Facing(trace[k], left).l.snd.sent) && Facing(trace[k], left).l.snd.call.Active?
    ensures MaySucceed(cfg, prompt, trace[k], left) <==> Chance(cfg, Facing(trace[k], left))
  {
    FacingHolds(cfg, moves, trace, k, left);
    var s := Facing(trace[k], left);
    hide IsRun, Inv, Reaches, WithinLimits, Chance;
    if Chance(cfg, s) {
      var t' := ChanceSucceeds(cfg, s);
      var s' := Facing(t', left);
      assert Facing(s', left) == t';
      FromFacing(cfg, trace[k], left, s');
      AnyPace(cfg, prompt, trace[k], s');
    } else if MaySucceed(cfg, prompt, trace[k], left) {
      var s' :| Reaches(cfg, prompt, trace[k], s') && Succeeded(s, Facing(s', left));
      var n := ToFacing(cfg, prompt, trace[k], left, s');
      StaysDoomed(cfg, prompt, s, n, Facing(s', left), s.l.snd.outcomes);
    }
  }

  /** In particular no Send has lost its chance before its last attempt begins to
      be queued. */
  lemma ChanceBeforeLastAttempt(cfg: Config, s: State)
    requires cfg.Valid() && s.l.snd.call.Active?
    requires s.l.snd.call.attempt < cfg.attempts || s.l.snd.call.idx == 0
    ensures Chance(cfg, s)
  {
    FragmentAt(Current(s.l.snd), cfg.size, 0);
  }
}
