/** Whole-run safety of the ARQ: every step of either endpoint or either track
    keeps the invariant, and the invariant gives order, exactly-once delivery
    and the meaning of an acknowledged Send. */
module ArqSafety {
  import opened Bytes
  import opened Frames
  import opened Reassembly
  import opened ArqTransport
  import opened ArqSystem
  import opened ArqIntake

  /** The messages given to onData, and the one about to be. */
  ghost function Promised(rcv: Intake): seq<u32> {
    rcv.handedSeq + (if rcv.duty.Handing? then [rcv.duty.q] else [])
  }

  ghost predicate SenderInv(cfg: Config, snd: Sender)
    requires cfg.Valid()
  {
    && snd.nextSeq == |snd.sent|
    && match snd.call
       case Idle => |snd.outcomes| == |snd.sent| && snd.waiters == map[]
       case Active(attempt, idx) =>
         && |snd.outcomes| + 1 == |snd.sent| && snd.waiters.Keys == {snd.nextSeq}
         && 1 <= attempt <= cfg.attempts && idx <= Count(cfg, Current(snd))
  }

  /** An ack worth sending: its message has been given to onData. */
  ghost predicate GoodAck(cfg: Config, sent: seq<bytes>, handedSeq: seq<u32>, q: u32, crc: u32) {
    q in handedSeq && Known(sent, q) && crc == cfg.crc32(sent[q - 1])
  }

  ghost predicate IntakeInv(cfg: Config, sent: seq<bytes>, rcv: Intake)
    requires cfg.Valid()
  {
    && IntakeCore(cfg, sent, rcv.taken, rcv.tables, Promised(rcv))
    && (forall g :: g in rcv.taken ==> g.Data?)
    && |rcv.handed| == |rcv.handedSeq|
    && (forall j :: 0 <= j < |rcv.handed| ==>
          Known(sent, rcv.handedSeq[j]) && rcv.handed[j] == sent[rcv.handedSeq[j] - 1])
    && match rcv.duty
       case Ready => true
       case Handing(q, crc, data) => Known(sent, q) && data == sent[q - 1] && crc == cfg.crc32(data)
       case Acking(q, crc) => GoodAck(cfg, sent, rcv.handedSeq, q, crc)
  }

  ghost predicate FeedbackInv(cfg: Config, snd: Sender, handedSeq: seq<u32>, acks: seq<Frame>) {
    && (forall f :: f in acks && f.Ack? ==> GoodAck(cfg, snd.sent, handedSeq, f.seqno, f.crc))
    && (forall q :: q in snd.waiters && snd.waiters[q].Some? ==>
          GoodAck(cfg, snd.sent, handedSeq, q, snd.waiters[q].value))
    && (forall k: nat :: k < |snd.outcomes| && snd.outcomes[k] == Acked ==> (k + 1) in handedSeq)
  }

  /** One direction: a sender, the frames still to be read in reading order, the
      intake at the far end, and everything that may carry acks back. */
  ghost predicate DirInv(cfg: Config, snd: Sender, path: seq<Frame>, rcv: Intake, acks: seq<Frame>)
    requires cfg.Valid()
  {
    && SenderInv(cfg, snd)
    && Flow(cfg, snd.sent, rcv.taken + path)
    && IntakeInv(cfg, snd.sent, rcv)
    && FeedbackInv(cfg, snd, rcv.handedSeq, acks)
  }

  ghost predicate Dir(cfg: Config, s: State)
    requires cfg.Valid()
  {
    WithinLimits(cfg, s.l.snd.sent) ==>
      DirInv(cfg, s.l.snd, s.lr + s.l.outbound, s.r.rcv, s.rl + s.r.outboundAck)
  }

  ghost predicate Queues(ep: Endpoint) {
    (forall f :: f in ep.outbound ==> f.Data?) && (forall f :: f in ep.outboundAck ==> f.Ack?)
  }

  ghost predicate Inv(cfg: Config, s: State)
    requires cfg.Valid()
  {
    Queues(s.l) && Queues(s.r) && Dir(cfg, s) && Dir(cfg, Flip(s))
  }

  // --------------------------------------------------------- what tracks may do

  lemma FlowRemove(cfg: Config, sent: seq<bytes>, path: seq<Frame>, i: nat)
    requires cfg.Valid() && Flow(cfg, sent, path) && i < |path|
    ensures Flow(cfg, sent, path[..i] + path[i + 1..])
  {
    hide Honest;
  }

  lemma FlowRepeat(cfg: Config, sent: seq<bytes>, path: seq<Frame>, i: nat)
    requires cfg.Valid() && Flow(cfg, sent, path) && i < |path|
    ensures Flow(cfg, sent, path[..i + 1] + path[i..])
  {
    hide Honest;
  }

  lemma FlowInsertAck(cfg: Config, sent: seq<bytes>, path: seq<Frame>, i: nat, ack: Frame)
    requires cfg.Valid() && Flow(cfg, sent, path) && i <= |path| && ack.Ack?
    ensures Flow(cfg, sent, path[..i] + [ack] + path[i..])
  {
    assert Honest(cfg, sent, ack);
    hide Honest;
  }

  lemma FlowAppend(cfg: Config, sent: seq<bytes>, path: seq<Frame>, f: Frame)
    requires cfg.Valid() && Flow(cfg, sent, path) && Honest(cfg, sent, f)
    requires f.Data? ==> f.seqno == |sent|
    ensures Flow(cfg, sent, path + [f])
  {
  }

  lemma FlowPrefix(cfg: Config, sent: seq<bytes>, path: seq<Frame>, n: nat)
    requires cfg.Valid() && Flow(cfg, sent, path) && n <= |path|
    ensures Flow(cfg, sent, path[..n])
  {
    hide Honest;
  }

  lemma FlowGrows(cfg: Config, sent: seq<bytes>, data: bytes, path: seq<Frame>)
    requires cfg.Valid() && Flow(cfg, sent, path)
    ensures Flow(cfg, sent + [data], path)
  {
    forall i | 0 <= i < |path| ensures Honest(cfg, sent + [data], path[i]) {
      assert Honest(cfg, sent, path[i]);
      assert path[i].Data? ==> (sent + [data])[path[i].seqno - 1] == sent[path[i].seqno - 1];
    }
  }

  // ------------------------------------------------------------ sender's moves

  lemma BeginKeeps(cfg: Config, snd: Sender, path: seq<Frame>, rcv: Intake, acks: seq<Frame>, data: bytes)
    requires cfg.Valid() && DirInv(cfg, snd, path, rcv, acks) && snd.call.Idle?
    requires WithinLimits(cfg, snd.sent + [data])
    ensures DirInv(cfg, BeginSend(snd, data), path, rcv, acks)
  {
    FlowGrows(cfg, snd.sent, data, rcv.taken + path);
    FlowPrefix(cfg, snd.sent, rcv.taken + path, |rcv.taken|);
    assert (rcv.taken + path)[..|rcv.taken|] == rcv.taken;
    SentGrows(cfg, snd.sent, data, rcv.taken, rcv.tables, Promised(rcv));
    hide IntakeCore, Flow;
  }

  lemma PushKeeps(cfg: Config, snd: Sender, path: seq<Frame>, rcv: Intake, acks: seq<Frame>)
    requires cfg.Valid() && WithinLimits(cfg, snd.sent) && DirInv(cfg, snd, path, rcv, acks)
    requires snd.call.Active? && snd.call.idx < Count(cfg, Current(snd))
    ensures DirInv(cfg, snd.(call := Active(snd.call.attempt, snd.call.idx + 1)),
                   path + [MessageFrame(cfg.crc32, cfg.size, snd.nextSeq, Current(snd), snd.call.idx)], rcv, acks)
  {
    var f := MessageFrame(cfg.crc32, cfg.size, snd.nextSeq, Current(snd), snd.call.idx);
    FlowAppend(cfg, snd.sent, rcv.taken + path, f);
    assert rcv.taken + (path + [f]) == rcv.taken + path + [f];
    hide Flow, IntakeInv;
  }

  lemma FinishKeeps(cfg: Config, snd: Sender, path: seq<Frame>, rcv: Intake, acks: seq<Frame>, o: Outcome)
    requires cfg.Valid() && DirInv(cfg, snd, path, rcv, acks) && snd.call.Active?
    requires o == Acked ==> |snd.sent| in rcv.handedSeq
    ensures DirInv(cfg, Finish(snd, o), path, rcv, acks)
  {
    hide Flow, IntakeInv;
  }

  lemma RetryKeeps(cfg: Config, snd: Sender, path: seq<Frame>, rcv: Intake, acks: seq<Frame>)
    requires cfg.Valid() && DirInv(cfg, snd, path, rcv, acks) && snd.call.Active?
    ensures DirInv(cfg, Retry(cfg, snd), path, rcv, acks)
  {
    if snd.call.attempt >= cfg.attempts {
      FinishKeeps(cfg, snd, path, rcv, acks, TimedOut);
    }
    hide Flow, IntakeInv;
  }

  /** Whatever sits in the waiter matches, so taking it ends Send with success. */
  lemma TakeSucceeds(cfg: Config, snd: Sender, path: seq<Frame>, rcv: Intake, acks: seq<Frame>)
    requires cfg.Valid() && DirInv(cfg, snd, path, rcv, acks) && snd.call.Active?
    requires snd.nextSeq in snd.waiters && snd.waiters[snd.nextSeq].Some?
    ensures Take(cfg, snd, snd.waiters[snd.nextSeq].value) == Finish(snd, Acked)
    ensures |snd.sent| in rcv.handedSeq
  {
  }

  lemma ResolveKeeps(cfg: Config, snd: Sender, path: seq<Frame>, rcv: Intake, acks: seq<Frame>, q: u32, crc: u32)
    requires cfg.Valid() && DirInv(cfg, snd, path, rcv, acks) && GoodAck(cfg, snd.sent, rcv.handedSeq, q, crc)
    ensures DirInv(cfg, Resolve(snd, q, crc), path, rcv, acks)
  {
    assert q in snd.waiters ==> snd.waiters[q := Some(crc)].Keys == snd.waiters.Keys;
    hide Flow, IntakeInv;
  }

  // ---------------------------------------------------------- receiver's moves

  lemma RecordRead(cfg: Config, sent: seq<bytes>, rcv: Intake, f: Frame, tables: Receiver, duty: Duty)
    requires cfg.Valid() && IntakeInv(cfg, sent, rcv) && rcv.duty.Ready? && f.Data?
    requires IntakeCore(cfg, sent, rcv.taken + [f], tables, rcv.handedSeq + (if duty.Handing? then [duty.q] else []))
    requires duty.Handing? ==> Known(sent, duty.q) && duty.data == sent[duty.q - 1] && duty.crc == cfg.crc32(duty.data)
    requires duty.Acking? ==> GoodAck(cfg, sent, rcv.handedSeq, duty.q, duty.crc)
    ensures IntakeInv(cfg, sent, rcv.(taken := rcv.taken + [f], tables := tables, duty := duty))
  {
    hide IntakeCore, GoodAck;
    assert forall g :: g in rcv.taken + [f] ==> g.Data?;
  }

  lemma ReadIntake(cfg: Config, sent: seq<bytes>, rcv: Intake, f: Frame)
    requires cfg.Valid() && WithinLimits(cfg, sent) && IntakeInv(cfg, sent, rcv)
    requires f.Data? && rcv.duty.Ready? && Flow(cfg, sent, rcv.taken + [f])
    ensures IntakeInv(cfg, sent, ReadData(cfg, rcv, f))
  {
    hide Flow, IntakeCore, Handle, WithinLimits, MessageFrame, Fragments;
    assert Promised(rcv) == rcv.handedSeq;
    HandleKeeps(cfg, sent, rcv.taken, rcv.tables, rcv.handedSeq, f);
    hide IntakeInv;
    var x := Handle(cfg.crc32, rcv.tables, f).1;
    var rcv' := ReadData(cfg, rcv, f);
    assert rcv'.duty == match x
                        case Quiet => Ready
                        case Reack => Acking(f.seqno, f.crc)
                        case Hand(data) => Handing(f.seqno, f.crc, data);
    assert rcv.handedSeq + [] == rcv.handedSeq;
    RecordRead(cfg, sent, rcv, f, rcv'.tables, rcv'.duty);
  }

  lemma ReadKeeps(cfg: Config, snd: Sender, f: Frame, path: seq<Frame>, rcv: Intake, acks: seq<Frame>)
    requires cfg.Valid() && WithinLimits(cfg, snd.sent) && DirInv(cfg, snd, [f] + path, rcv, acks)
    requires f.Data? && rcv.duty.Ready?
    ensures DirInv(cfg, snd, path, ReadData(cfg, rcv, f), acks)
  {
    var whole := rcv.taken + ([f] + path);
    assert whole == rcv.taken + [f] + path;
    FlowPrefix(cfg, snd.sent, whole, |rcv.taken| + 1);
    assert whole[..|rcv.taken| + 1] == rcv.taken + [f];
    ReadIntake(cfg, snd.sent, rcv, f);
    hide Flow, IntakeInv, Handle, SenderInv, FeedbackInv;
  }

  lemma SkipAckKeeps(cfg: Config, snd: Sender, f: Frame, path: seq<Frame>, rcv: Intake, acks: seq<Frame>)
    requires cfg.Valid() && DirInv(cfg, snd, [f] + path, rcv, acks)
    ensures f.Ack? ==> DirInv(cfg, snd, path, rcv, acks)
  {
    var whole := rcv.taken + ([f] + path);
    FlowRemove(cfg, snd.sent, whole, |rcv.taken|);
    assert whole[..|rcv.taken|] + whole[|rcv.taken| + 1..] == rcv.taken + path;
    hide Flow, IntakeInv;
  }

  lemma HandOverKeeps(cfg: Config, snd: Sender, path: seq<Frame>, rcv: Intake, acks: seq<Frame>)
    requires cfg.Valid() && DirInv(cfg, snd, path, rcv, acks) && rcv.duty.Handing?
    ensures DirInv(cfg, snd, path, HandOver(rcv), acks)
  {
    var rcv' := HandOver(rcv);
    assert Promised(rcv') == Promised(rcv);
    assert rcv'.handedSeq[|rcv.handedSeq|] == rcv.duty.q;
    assert forall q :: q in rcv.handedSeq ==> q in rcv'.handedSeq;
    hide Flow, IntakeCore;
  }

  lemma PayAckKeeps(cfg: Config, snd: Sender, path: seq<Frame>, rcv: Intake, acks: seq<Frame>, acks': seq<Frame>)
    requires cfg.Valid() && DirInv(cfg, snd, path, rcv, acks) && rcv.duty.Acking?
    requires forall f :: f in acks' && f.Ack? ==> f in acks || f == Ack(rcv.duty.q, rcv.duty.crc)
    ensures DirInv(cfg, snd, path, rcv.(duty := Ready), acks')
  {
    assert Promised(rcv.(duty := Ready)) == Promised(rcv);
    hide Flow, IntakeCore;
  }

  /** Acks may be lost, repeated and moved along freely. */
  lemma AcksKeep(cfg: Config, snd: Sender, path: seq<Frame>, rcv: Intake, acks: seq<Frame>, acks': seq<Frame>)
    requires cfg.Valid() && DirInv(cfg, snd, path, rcv, acks)
    requires forall f :: f in acks' && f.Ack? ==> f in acks
    ensures DirInv(cfg, snd, path, rcv, acks')
  {
    hide Flow, IntakeInv;
  }

  // ------------------------------------------------------- the track's moves

  lemma LoseKeeps(cfg: Config, snd: Sender, track: seq<Frame>, queue: seq<Frame>, rcv: Intake, acks: seq<Frame>, i: nat)
    requires cfg.Valid() && DirInv(cfg, snd, track + queue, rcv, acks) && i < |track|
    ensures DirInv(cfg, snd, (track[..i] + track[i + 1..]) + queue, rcv, acks)
  {
    var whole := rcv.taken + (track + queue);
    var k := |rcv.taken| + i;
    FlowRemove(cfg, snd.sent, whole, k);
    hide Flow, IntakeInv, SenderInv, FeedbackInv;
    assert whole[..k] + whole[k + 1..] == rcv.taken + ((track[..i] + track[i + 1..]) + queue);
  }

  lemma DuplicateKeepsDir(
      cfg: Config, snd: Sender, track: seq<Frame>, queue: seq<Frame>, rcv: Intake, acks: seq<Frame>, i: nat)
    requires cfg.Valid() && DirInv(cfg, snd, track + queue, rcv, acks) && i < |track|
    ensures DirInv(cfg, snd, (track[..i + 1] + track[i..]) + queue, rcv, acks)
  {
    var whole := rcv.taken + (track + queue);
    var k := |rcv.taken| + i;
    FlowRepeat(cfg, snd.sent, whole, k);
    hide Flow, IntakeInv, SenderInv, FeedbackInv;
    assert whole[..k + 1] + whole[k..] == rcv.taken + ((track[..i + 1] + track[i..]) + queue);
  }

  lemma WriteAckKeeps(
      cfg: Config, snd: Sender, track: seq<Frame>, queue: seq<Frame>, rcv: Intake, acks: seq<Frame>, ack: Frame)
    requires cfg.Valid() && DirInv(cfg, snd, track + queue, rcv, acks) && ack.Ack?
    ensures DirInv(cfg, snd, (track + [ack]) + queue, rcv, acks)
  {
    var whole := rcv.taken + (track + queue);
    var k := |rcv.taken| + |track|;
    FlowInsertAck(cfg, snd.sent, whole, k, ack);
    hide Flow, IntakeInv, SenderInv, FeedbackInv;
    assert whole[..k] + [ack] + whole[k..] == rcv.taken + ((track + [ack]) + queue);
  }

  // ------------------------------------------------------------- every step

  /** The sender's reader takes one frame off the track coming back. */
  lemma ReadAckKeeps(cfg: Config, snd: Sender, path: seq<Frame>, rcv: Intake, back: seq<Frame>, queue: seq<Frame>)
    requires cfg.Valid() && DirInv(cfg, snd, path, rcv, back + queue) && back != []
    ensures DirInv(cfg, if back[0].Ack? then Resolve(snd, back[0].seqno, back[0].crc) else snd, path, rcv,
                   back[1..] + queue)
  {
    var f := back[0];
    assert f in back + queue;
    if f.Ack? {
      ResolveKeeps(cfg, snd, path, rcv, back + queue, f.seqno, f.crc);
    }
    AcksKeep(cfg, if f.Ack? then Resolve(snd, f.seqno, f.crc) else snd, path, rcv, back + queue, back[1..] + queue);
  }

  lemma CallKeeps(cfg: Config, s: State, e: Event, s': State)
    requires cfg.Valid() && StepL(cfg, s, e, s') && WithinLimits(cfg, s.l.snd.sent)
    requires DirInv(cfg, s.l.snd, s.lr + s.l.outbound, s.r.rcv, s.rl + s.r.outboundAck)
    requires e.Push? || e.Expire? || e.TakeAck? || e.Abort? || e.Read?
    ensures DirInv(cfg, s'.l.snd, s'.lr + s'.l.outbound, s'.r.rcv, s'.rl + s'.r.outboundAck)
  {
    var snd, rcv, path, acks := s.l.snd, s.r.rcv, s.lr + s.l.outbound, s.rl + s.r.outboundAck;
    hide DirInv, WithinLimits, Finish, Retry, Take, Resolve, ReadData, Current, MessageFrame;
    match e
    case Push =>
      PushKeeps(cfg, snd, path, rcv, acks);
      assert s'.lr + s'.l.outbound ==
             path + [MessageFrame(cfg.crc32, cfg.size, snd.nextSeq, Current(snd), snd.call.idx)];
    case Expire =>
      RetryKeeps(cfg, snd, path, rcv, acks);
    case TakeAck =>
      TakeSucceeds(cfg, snd, path, rcv, acks);
      FinishKeeps(cfg, snd, path, rcv, acks, Acked);
    case Abort =>
      FinishKeeps(cfg, snd, path, rcv, acks, Closed);
    case Read =>
      ReadAckKeeps(cfg, snd, path, rcv, s.rl, s.r.outboundAck);
  }

  lemma TrackKeeps(cfg: Config, s: State, e: Event, s': State)
    requires cfg.Valid() && StepL(cfg, s, e, s') && Queues(s.l)
    requires DirInv(cfg, s.l.snd, s.lr + s.l.outbound, s.r.rcv, s.rl + s.r.outboundAck)
    requires e.WriteData? || e.WriteAck? || e.Lose? || e.Duplicate?
    ensures DirInv(cfg, s'.l.snd, s'.lr + s'.l.outbound, s'.r.rcv, s'.rl + s'.r.outboundAck)
  {
    var snd, rcv, acks := s.l.snd, s.r.rcv, s.rl + s.r.outboundAck;
    hide DirInv;
    match e
    case WriteData =>
      assert s'.lr + s'.l.outbound == s.lr + s.l.outbound;
    case WriteAck =>
      WriteAckKeeps(cfg, snd, s.lr, s.l.outbound, rcv, acks, s.l.outboundAck[0]);
    case Lose(i) =>
      LoseKeeps(cfg, snd, s.lr, s.l.outbound, rcv, acks, i);
    case Duplicate(i) =>
      DuplicateKeepsDir(cfg, snd, s.lr, s.l.outbound, rcv, acks, i);
  }

  lemma LimitsShrink(cfg: Config, sent: seq<bytes>, data: bytes)
    requires cfg.Valid() && WithinLimits(cfg, sent + [data])
    ensures WithinLimits(cfg, sent)
  {
    assert forall k :: 0 <= k < |sent| ==> (sent + [data])[k] == sent[k];
  }

  lemma SentOnlyGrows(cfg: Config, s: State, e: Event, s': State)
    requires cfg.Valid() && StepL(cfg, s, e, s')
    ensures s'.l.snd.sent == s.l.snd.sent + (if e.Begin? then [e.data] else [])
  {
  }

  /** A step of the left side keeps the direction in which it sends. */
  lemma ForwardKeeps(cfg: Config, s: State, e: Event, s': State)
    requires cfg.Valid() && Inv(cfg, s) && StepL(cfg, s, e, s')
    ensures Dir(cfg, s')
  {
    hide DirInv, WithinLimits, Queues, Finish, Retry, Take, Resolve, ReadData, HandOver;
    if WithinLimits(cfg, s'.l.snd.sent) {
      if e.Begin? {
        LimitsShrink(cfg, s.l.snd.sent, e.data);
        BeginKeeps(cfg, s.l.snd, s.lr + s.l.outbound, s.r.rcv, s.rl + s.r.outboundAck, e.data);
      } else if e.Push? || e.Expire? || e.TakeAck? || e.Abort? || e.Read? {
        assert s'.l.snd.sent == s.l.snd.sent by { SentOnlyGrows(cfg, s, e, s'); }
        CallKeeps(cfg, s, e, s');
      } else if e.WriteData? || e.WriteAck? || e.Lose? || e.Duplicate? {
        TrackKeeps(cfg, s, e, s');
      }
    }
  }

  /** Frames on the way back: a step of the left side only ever adds acks it owes. */
  lemma AcksOnlyMove(s: State, e: Event, s': State, cfg: Config)
    requires cfg.Valid() && StepL(cfg, s, e, s') && Queues(s.l)
    requires e.WriteData? || e.WriteAck? || e.Lose? || e.Duplicate?
    ensures forall f :: f in s'.lr + s'.l.outboundAck && f.Ack? ==> f in s.lr + s.l.outboundAck
  {
    match e
    case WriteData =>
      assert s.l.outbound[0] in s.l.outbound;
    case WriteAck =>
    case Lose(i) =>
    case Duplicate(i) =>
  }

  /** A step of the left side keeps the direction in which it receives. */
  lemma BackwardKeeps(cfg: Config, s: State, e: Event, s': State)
    requires cfg.Valid() && Inv(cfg, s) && StepL(cfg, s, e, s')
    ensures Dir(cfg, Flip(s'))
  {
    if WithinLimits(cfg, s.r.snd.sent) {
      var snd, rcv, path, acks := s.r.snd, s.l.rcv, s.rl + s.r.outbound, s.lr + s.l.outboundAck;
      var acks' := s'.lr + s'.l.outboundAck;
      hide DirInv, WithinLimits;
      match e
      case WriteData =>
        AcksOnlyMove(s, e, s', cfg);
        AcksKeep(cfg, snd, path, rcv, acks, acks');
      case WriteAck =>
        AcksOnlyMove(s, e, s', cfg);
        AcksKeep(cfg, snd, path, rcv, acks, acks');
      case Lose(i) =>
        AcksOnlyMove(s, e, s', cfg);
        AcksKeep(cfg, snd, path, rcv, acks, acks');
      case Duplicate(i) =>
        AcksOnlyMove(s, e, s', cfg);
        AcksKeep(cfg, snd, path, rcv, acks, acks');
      case Read =>
        assert path == [s.rl[0]] + (s'.rl + s.r.outbound);
        if s.rl[0].Ack? {
          SkipAckKeeps(cfg, snd, s.rl[0], s'.rl + s.r.outbound, rcv, acks);
        } else {
          ReadKeeps(cfg, snd, s.rl[0], s'.rl + s.r.outbound, rcv, acks);
        }
      case CallOnData =>
        HandOverKeeps(cfg, snd, path, rcv, acks);
      case PushAck =>
        PayAckKeeps(cfg, snd, path, rcv, acks, acks');
      case DropAck =>
        PayAckKeeps(cfg, snd, path, rcv, acks, acks');
      case Begin(data) =>
      case Push =>
      case Expire =>
      case TakeAck =>
      case Abort =>
      case Shut =>
    }
  }

  lemma QueuesKeep(cfg: Config, s: State, e: Event, s': State)
    requires cfg.Valid() && Queues(s.l) && StepL(cfg, s, e, s')
    ensures Queues(s'.l) && s'.r == s.r
  {
  }

  /** Every step keeps the invariant, in both directions at once. */
  lemma StepKeeps(cfg: Config, s: State, e: Event, left: bool, s': State)
    requires cfg.Valid() && Inv(cfg, s) && Step(cfg, s, e, left, s')
    ensures Inv(cfg, s')
  {
    var t, t' := if left then s else Flip(s), if left then s' else Flip(s');
    assert Inv(cfg, t) && Flip(Flip(s)) == s && Flip(Flip(s')) == s';
    ForwardKeeps(cfg, t, e, t');
    BackwardKeeps(cfg, t, e, t');
    QueuesKeep(cfg, t, e, t');
    hide Dir, Queues, StepL;
  }

  lemma InitHolds(cfg: Config)
    requires cfg.Valid()
    ensures Inv(cfg, Init())
  {
    var s := Init();
    forall q: u32 | Known([], q) ensures false {
    }
    assert IntakeCore(cfg, [], [], s.r.rcv.tables, []);
  }

  lemma {:induction false} RunKeeps(cfg: Config, moves: seq<Move>, trace: seq<State>, k: nat)
    requires cfg.Valid() && IsRun(cfg, moves, trace) && k < |trace|
    ensures Inv(cfg, trace[k])
  {
    InitHolds(cfg);
    hide Inv, Step;
    if k == 0 {
    } else {
      RunKeeps(cfg, moves, trace, k - 1);
      assert Step(cfg, trace[k - 1], moves[k - 1].e, moves[k - 1].left, trace[k]) by {
        assert Step(cfg, trace[k - 1], moves[k - 1].e, moves[k - 1].left, trace[k - 1 + 1]);
      }
      StepKeeps(cfg, trace[k - 1], moves[k - 1].e, moves[k - 1].left, trace[k]);
    }
  }
}
