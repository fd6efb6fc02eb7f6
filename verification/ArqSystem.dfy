/** Two ARQ endpoints and the two video tracks between them, as a step system.
    Each endpoint runs one Send at a time (sendMu), one track writer and one
    track reader; each track is a FIFO that may lose or repeat any frame in it.
    Queue limits, retries, timers and Close are nondeterministic steps.  The
    fields sent, outcomes, taken, handedSeq and handed are histories. */
module ArqSystem {
  import opened Bytes
  import opened Frames
  import opened Reassembly
  import opened ArqTransport

  const OUTBOUND_CAP := 256
  const OUTBOUND_ACK_CAP := 64

  /** The parameters in which seichannel and videochannel differ. */
  datatype Config = Config(crc32: Checksum, size: nat, attempts: nat) {
    predicate Valid() { size > 0 && attempts > 0 }
  }

  datatype Call = Idle | Active(attempt: nat, idx: nat)

  datatype Sender = Sender(
    sent: seq<bytes>, outcomes: seq<Outcome>, nextSeq: u32, call: Call, waiters: map<u32, Option<u32>>)

  /** What the track reader still owes for the frame it took last. */
  datatype Duty = Ready | Handing(q: u32, crc: u32, data: bytes) | Acking(q: u32, crc: u32)

  datatype Intake = Intake(tables: Receiver, duty: Duty, taken: seq<Frame>, handedSeq: seq<u32>, handed: seq<bytes>)

  datatype Endpoint = Endpoint(snd: Sender, rcv: Intake, outbound: seq<Frame>, outboundAck: seq<Frame>, closed: bool)

  /** lr and rl are the frames in flight from left to right and back. */
  datatype State = State(l: Endpoint, r: Endpoint, lr: seq<Frame>, rl: seq<Frame>)

  datatype Event =
    | Begin(data: bytes) | Push | Expire | TakeAck | Abort | Shut
    | WriteData | WriteAck | Lose(i: nat) | Duplicate(i: nat)
    | Read | CallOnData | PushAck | DropAck

  function FreshEndpoint(): Endpoint {
    Endpoint(Sender([], [], 0, Idle, map[]), Intake(Receiver(map[], map[]), Ready, [], [], []), [], [], false)
  }

  function Init(): State {
    State(FreshEndpoint(), FreshEndpoint(), [], [])
  }

  // ------------------------------------------------------------------- sending

  /** The message a Send in progress is transmitting. */
  function Current(snd: Sender): bytes {
    if snd.sent == [] then [] else snd.sent[|snd.sent| - 1]
  }

  function Count(cfg: Config, data: bytes): (n: nat)
    requires cfg.Valid()
  {
    |Fragments(data, cfg.size)|
  }

  function BeginSend(snd: Sender, data: bytes): Sender {
    var q := (snd.nextSeq + 1) % 0x1_0000_0000;
    snd.(sent := snd.sent + [data], nextSeq := q, waiters := snd.waiters[q := None], call := Active(1, 0))
  }

  function Finish(snd: Sender, o: Outcome): Sender {
    snd.(outcomes := snd.outcomes + [o], call := Idle, waiters := snd.waiters - {snd.nextSeq})
  }

  /** The wait of an attempt is over without a decision. */
  function Retry(cfg: Config, snd: Sender): Sender
    requires snd.call.Active?
  {
    if snd.call.attempt < cfg.attempts then snd.(call := Active(snd.call.attempt + 1, 0)) else Finish(snd, TimedOut)
  }

  predicate Waiting(cfg: Config, snd: Sender)
    requires cfg.Valid()
  {
    snd.call.Active? && snd.call.idx >= Count(cfg, Current(snd))
  }

  /** Receiving a checksum from the waiter while waiting. */
  function Take(cfg: Config, snd: Sender, crc: u32): Sender
    requires snd.call.Active?
  {
    match Decides(AckArrives(crc), cfg.crc32(Current(snd)))
    case Some(o) => Finish(snd, o)
    case None => Retry(cfg, snd.(waiters := snd.waiters[snd.nextSeq := None]))
  }

  /** resolveAck. */
  function Resolve(snd: Sender, q: u32, crc: u32): Sender {
    if q in snd.waiters && snd.waiters[q] == None then snd.(waiters := snd.waiters[q := Some(crc)]) else snd
  }

  // ----------------------------------------------------------------- receiving

  /** The track reader takes a data frame through handleInboundFrame. */
  function ReadData(cfg: Config, rcv: Intake, f: Frame): Intake
    requires f.Data?
  {
    var (tables, reaction) := Handle(cfg.crc32, rcv.tables, f);
    rcv.(tables := tables, taken := rcv.taken + [f],
         duty := match reaction
                 case Quiet => Ready
                 case Reack => Acking(f.seqno, f.crc)
                 case Hand(data) => Handing(f.seqno, f.crc, data))
  }

  function HandOver(rcv: Intake): Intake
    requires rcv.duty.Handing?
  {
    rcv.(duty := Acking(rcv.duty.q, rcv.duty.crc),
         handedSeq := rcv.handedSeq + [rcv.duty.q], handed := rcv.handed + [rcv.duty.data])
  }

  // --------------------------------------------------------------------- steps

  function Flip(s: State): State {
    State(s.r, s.l, s.rl, s.lr)
  }

  /** A step of the left endpoint, or of the track it writes. */
  ghost predicate StepL(cfg: Config, s: State, e: Event, s': State)
    requires cfg.Valid()
  {
    var l := s.l;
    match e
    case Begin(data) =>
      l.snd.call.Idle? && s' == s.(l := l.(snd := BeginSend(l.snd, data)))
    case Push =>
      && l.snd.call.Active? && l.snd.call.idx < Count(cfg, Current(l.snd)) && |l.outbound| < OUTBOUND_CAP
      && s' == s.(l := l.(
           outbound := l.outbound + [MessageFrame(cfg.crc32, cfg.size, l.snd.nextSeq, Current(l.snd), l.snd.call.idx)],
           snd := l.snd.(call := Active(l.snd.call.attempt, l.snd.call.idx + 1))))
    case Expire =>
      Waiting(cfg, l.snd) && s' == s.(l := l.(snd := Retry(cfg, l.snd)))
    case TakeAck =>
      && Waiting(cfg, l.snd) && l.snd.nextSeq in l.snd.waiters && l.snd.waiters[l.snd.nextSeq].Some?
      && s' == s.(l := l.(snd := Take(cfg, l.snd, l.snd.waiters[l.snd.nextSeq].value)))
    case Abort =>
      l.closed && l.snd.call.Active? && s' == s.(l := l.(snd := Finish(l.snd, Closed)))
    case Shut =>
      s' == s.(l := l.(closed := true))
    case WriteData =>
      l.outbound != [] && s' == s.(l := l.(outbound := l.outbound[1..]), lr := s.lr + [l.outbound[0]])
    case WriteAck =>
      l.outboundAck != [] && s' == s.(l := l.(outboundAck := l.outboundAck[1..]), lr := s.lr + [l.outboundAck[0]])
    case Lose(i) =>
      i < |s.lr| && s' == s.(lr := s.lr[..i] + s.lr[i + 1..])
    case Duplicate(i) =>
      i < |s.lr| && s' == s.(lr := s.lr[..i + 1] + s.lr[i..])
    case Read =>
      && l.rcv.duty.Ready? && s.rl != []
      && s' == s.(rl := s.rl[1..],
                  l := match s.rl[0]
                       case Ack(q, crc) => l.(snd := Resolve(l.snd, q, crc))
                       case Data(_, _, _, _, _, _) => l.(rcv := ReadData(cfg, l.rcv, s.rl[0])))
    case CallOnData =>
      l.rcv.duty.Handing? && s' == s.(l := l.(rcv := HandOver(l.rcv)))
    case PushAck =>
      && l.rcv.duty.Acking? && |l.outboundAck| < OUTBOUND_ACK_CAP
      && s' == s.(l := l.(outboundAck := l.outboundAck + [Ack(l.rcv.duty.q, l.rcv.duty.crc)],
                          rcv := l.rcv.(duty := Ready)))
    case DropAck =>
      l.rcv.duty.Acking? && l.closed && s' == s.(l := l.(rcv := l.rcv.(duty := Ready)))
  }

  /** A step of either side. */
  ghost predicate Step(cfg: Config, s: State, e: Event, left: bool, s': State)
    requires cfg.Valid()
  {
    if left then StepL(cfg, s, e, s') else StepL(cfg, Flip(s), e, Flip(s'))
  }

  datatype Move = Move(e: Event, left: bool)

  /** A run: the states visited, one more than the moves between them. */
  ghost predicate IsRun(cfg: Config, moves: seq<Move>, trace: seq<State>)
    requires cfg.Valid()
  {
    && |trace| == |moves| + 1 && trace[0] == Init()
    && forall k :: 0 <= k < |moves| ==> Step(cfg, trace[k], moves[k].e, moves[k].left, trace[k + 1])
  }
}
