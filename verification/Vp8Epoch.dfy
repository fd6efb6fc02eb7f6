/** vp8channel's restart detection: the frame handler with its fields, and two
    peers that restart, reconnect and stamp their frames with the epoch of their
    current life. */
module Vp8Epoch {
  import opened Bytes
  import opened Vp8Frames

  const INBOUND_CAP := 1024

  /** The fields that decide what a frame does. */
  datatype Tracking = Tracking(local: u32, hadPeer: bool, peer: u32)

  datatype Verdict = Foreign | Echo | FirstPeer | NewLife | Known

  /** handleIncomingFrame up to its decision. */
  function Observe(t: Tracking, token: u32, frameToken: u32, epoch: u32): (Tracking, Verdict) {
    if frameToken != token then (t, Foreign)
    else if epoch == t.local then (t, Echo)
    else if !t.hadPeer then (t.(hadPeer := true, peer := epoch), FirstPeer)
    else if t.peer != epoch then (t.(peer := epoch), NewLife)
    else (t, Known)
  }

  /** What a decision does to the runtime, given whether the first one has been
      started before and whether starting one succeeds now. */
  datatype Change = Keep | Fresh | Gone

  function ChangeOf(v: Verdict, started: bool, startOk: bool): Change {
    match v
    case FirstPeer => if !started && startOk then Fresh else Keep
    case NewLife => if startOk then Fresh else Gone
    case Foreign => Keep
    case Echo => Keep
    case Known => Keep
  }

  /** Whether the frame's packet then goes to the runtime. */
  predicate Feeds(v: Verdict, empty: bool) {
    (v.FirstPeer? || v.Known?) && !empty
  }

  /** A runtime's inbound queue after a delivery: a full one drops the packet, and
      a closed one with room may or may not. */
  function Queued(queue: seq<bytes>, takes: bool, payload: bytes): seq<bytes> {
    if takes && |queue| < INBOUND_CAP then queue + [payload] else queue
  }

  /** The queue after several deliveries to an open runtime. */
  function QueuedAll(queue: seq<bytes>, payloads: seq<bytes>): seq<bytes>
    decreases |payloads|
  {
    if payloads == [] then queue
    else Queued(QueuedAll(queue, payloads[..|payloads| - 1]), true, payloads[|payloads| - 1])
  }

  /** They stand in the order delivered, behind what was there, as many as fit. */
  lemma {:induction false} QueuedInOrder(queue: seq<bytes>, payloads: seq<bytes>)
    ensures var room := if |queue| < INBOUND_CAP then INBOUND_CAP - |queue| else 0;
            QueuedAll(queue, payloads) ==
            queue + if |payloads| < room then payloads else payloads[..room]
    decreases |payloads|
  {
    if payloads == [] {
    } else {
      var front := payloads[..|payloads| - 1];
      QueuedInOrder(queue, front);
      var room := if |queue| < INBOUND_CAP then INBOUND_CAP - |queue| else 0;
      assert payloads == front + [payloads[|payloads| - 1]];
      assert room <= |front| ==> front[..room] == payloads[..room];
    }
  }

  class KcpRuntime {
    const epochHdr: bytes
    var open: bool
    var inbound: seq<bytes>

    constructor (epochHdr: bytes)
      ensures open && inbound == [] && this.epochHdr == epochHdr
    {
      this.epochHdr := epochHdr;
      open, inbound := true, [];
    }

    /** A full queue drops the packet; KCP will ask for it again.  On a closed
        runtime with room both cases of the select are ready, and pick is the one
        the scheduler takes. */
    method Deliver(payload: bytes, pick: bool)
      modifies this`inbound
      ensures inbound == old(inbound) + (if |old(inbound)| < INBOUND_CAP && (open || pick) then [payload] else [])
    {
      if (open || pick) && |inbound| < INBOUND_CAP {
        inbound := inbound + [payload];
      }
    }

    method Close()
      modifies this`open
      ensures !open
    {
      open := false;
    }
  }

  class StreamTransport {
    const bindingToken: u32
    const localEpoch: u32
    var peerEpoch: u32
    var hadPeer: bool
    var kcpOnce: bool
    var kcp: KcpRuntime?
    var outbound: seq<bytes>
    var wired: bool          // the carrier has its callback
    var hasReconnectFn: bool
    var reconnects: nat      // the calls of reconnectFn made so far

    constructor (token: u32, epoch: u32)
      ensures View() == Tracking(epoch, false, 0) && kcp == null && !kcpOnce && outbound == []
      ensures bindingToken == token && !wired && !hasReconnectFn && reconnects == 0
    {
      bindingToken, localEpoch := token, epoch;
      peerEpoch, hadPeer, kcpOnce, kcp, outbound := 0, false, false, null, [];
      wired, hasReconnectFn, reconnects := false, false, 0;
    }

    /** given says whether a callback is given; the carrier gets one of its own
        either way. */
    method SetReconnectCallback(given: bool)
      modifies this`hasReconnectFn, this`wired
      ensures hasReconnectFn == given && wired
    {
      hasReconnectFn, wired := given, true;
    }

    function View(): Tracking
      reads this
    {
      Tracking(localEpoch, hadPeer, peerEpoch)
    }

    ghost function Queue(): seq<bytes>
      reads this, kcp
    {
      if kcp == null then [] else kcp.inbound
    }

    ghost predicate Running()
      reads this, kcp
    {
      kcp != null && kcp.open
    }

    /** A runtime of this process, with nothing delivered to it yet. */
    ghost predicate NewRuntime(queue: seq<bytes>)
      reads this, kcp
    {
      kcp != null && kcp.open && kcp.inbound == queue && kcp.epochHdr == Stamped(bindingToken, localEpoch, [])
    }

    /** startKCP, which may fail: a runtime stamping this process's epoch. */
    method StartKCP(startOk: bool) returns (rt: KcpRuntime?)
      ensures rt == null <==> !startOk
      ensures rt != null ==>
                fresh(rt) && rt.open && rt.inbound == [] && rt.epochHdr == Stamped(bindingToken, localEpoch, [])
    {
      if !startOk {
        return null;
      }
      var hdr := EpochHeader(bindingToken, localEpoch);
      rt := new KcpRuntime(hdr[..]);
    }

    method ResetKCP(startOk: bool)
      modifies this`kcp, this`outbound, if kcp != null then {kcp} else {}
      ensures outbound == []
      ensures old(kcp) != null ==> !old(kcp).open && old(kcp).inbound == old(Queue())
      ensures if startOk then fresh(kcp) && NewRuntime([]) else kcp == null
    {
      outbound := [];
      if kcp != null {
        kcp.Close();
      }
      kcp := null;
      var rt := StartKCP(startOk);
      if rt != null {
        kcp := rt;
      }
    }

    /** The carrier reconnects: the runtime is replaced first, then the layer above
        is told. */
    method CarrierReconnects(startOk: bool)
      modifies this`kcp, this`outbound, this`reconnects, if kcp != null then {kcp} else {}
      ensures !wired ==> kcp == old(kcp) && Queue() == old(Queue()) && Running() == old(Running())
      ensures outbound == (if wired then [] else old(outbound))
      ensures wired && old(kcp) != null ==> !old(kcp).open && old(kcp).inbound == old(Queue())
      ensures wired ==> if startOk then fresh(kcp) && NewRuntime([]) else kcp == null
      ensures reconnects == old(reconnects) + (if wired && hasReconnectFn then 1 else 0)
    {
      if !wired {
        return;
      }
      ResetKCP(startOk);
      if hasReconnectFn {
        reconnects := reconnects + 1;
      }
    }

    method HandleFirstPeer(peer: u32, startOk: bool)
      modifies this`peerEpoch, this`kcp, this`kcpOnce
      ensures peerEpoch == peer && kcpOnce
      ensures if !old(kcpOnce) && startOk then fresh(kcp) && NewRuntime([]) else kcp == old(kcp)
    {
      peerEpoch := peer;
      if !kcpOnce {
        kcpOnce := true;
        var rt := StartKCP(startOk);
        if rt != null {
          kcp := rt;
        }
      }
    }

    /** The frame handler: the fields that decide move as Observe says, the
        runtime changes as ChangeOf says, the packet reaches at most the runtime
        that is then current, and the layer above is told of a new life only. */
    method HandleIncomingFrame(frame: bytes, startOk: bool, pick: bool)
      requires |frame| >= HDR_LEN
      modifies this, if kcp != null then {kcp} else {}
      ensures View() == Observe(old(View()), bindingToken, TokenOf(frame), EpochOf(frame)).0
      ensures var packet := PacketOf(frame);
              var verdict := Observe(old(View()), bindingToken, TokenOf(frame), EpochOf(frame)).1;
              match ChangeOf(verdict, old(kcpOnce), startOk)
              case Keep =>
                && kcp == old(kcp) && Running() == old(Running())
                && Queue() == if Feeds(verdict, packet == []) && kcp != null
                              then Queued(old(Queue()), old(Running()) || pick, packet) else old(Queue())
              case Fresh => fresh(kcp) && NewRuntime(if Feeds(verdict, packet == []) then [packet] else [])
              case Gone => kcp == null
      ensures var verdict := Observe(old(View()), bindingToken, TokenOf(frame), EpochOf(frame)).1;
              && (verdict.NewLife? && old(kcp) != null ==> !old(kcp).open && old(kcp).inbound == old(Queue()))
              && outbound == (if verdict.NewLife? then [] else old(outbound))
              && kcpOnce == (old(kcpOnce) || verdict.FirstPeer?)
              && reconnects == old(reconnects) + (if verdict.NewLife? && hasReconnectFn then 1 else 0)
              && hasReconnectFn == old(hasReconnectFn) && wired == old(wired)
    {
      hide TokenOf, EpochOf, PacketOf, Stamped;
      if TokenOf(frame) != bindingToken {
        return;
      }
      var epoch := EpochOf(frame);
      if epoch == localEpoch {
        return;
      }
      if !hadPeer {
        hadPeer := true;
        HandleFirstPeer(epoch, startOk);
      } else if peerEpoch != epoch {
        peerEpoch := epoch;
        ResetKCP(startOk);
        if hasReconnectFn {
          reconnects := reconnects + 1;
        }
        return;
      }
      if |PacketOf(frame)| == 0 {
        return;
      }
      if kcp != null {
        kcp.Deliver(PacketOf(frame), pick);
      }
    }
  }

  // ------------------------------------------------------------------ two peers

  /** A frame in flight; life is a history: which life of its sender wrote it. */
  datatype Stamp = Stamp(token: u32, epoch: u32, life: nat)

  /** Histories of a peer: epochs lists the epochs of its lives so far; resets
      counts the resets it made because of an epoch, over all lives; seen is the
      latest life of the other peer from which it accepted a frame; stale counts
      the frames of its own earlier lives that were reflected to it. */
  datatype Peer = Peer(track: Tracking, epochs: seq<u32>, resets: nat, seen: nat, stale: nat)

  datatype State = State(l: Peer, r: Peer, lr: seq<Stamp>, rl: seq<Stamp>)

  datatype Event =
    | Emit | Lose(i: nat) | Duplicate(i: nat) | Noise(i: nat, stamp: Stamp)
    | Receive | SelfEcho | StaleEcho(life: nat) | Restart(epoch: u32) | Reconnect

  function NewPeer(epoch: u32): Peer {
    Peer(Tracking(epoch, false, 0), [epoch], 0, 0, 0)
  }

  function Init(e0: u32, e1: u32): State {
    State(NewPeer(e0), NewPeer(e1), [], [])
  }

  function Flip(s: State): State {
    State(s.r, s.l, s.rl, s.lr)
  }

  /** The handler's effect on a peer: its fields, and whether it resets. */
  function Handled(p: Peer, token: u32, frameToken: u32, epoch: u32): Peer {
    var (track, verdict) := Observe(p.track, token, frameToken, epoch);
    p.(track := track, resets := p.resets + if verdict.NewLife? then 1 else 0)
  }

  /** Taking a frame of the other peer, or a foreign one. */
  function Accept(p: Peer, token: u32, f: Stamp): Peer {
    var verdict := Observe(p.track, token, f.token, f.epoch).1;
    Handled(p, token, f.token, f.epoch).(seen := if verdict.NewLife? || verdict.FirstPeer? then f.life else p.seen)
  }

  /** A step of the left peer, or of the track it writes.  An echo carries the
      epoch of one of the peer's own lives; a restart draws an epoch no life of
      either peer has used. */
  ghost predicate StepL(token: u32, s: State, e: Event, s': State) {
    match e
    case Emit => s.l.epochs != [] && s' == s.(lr := s.lr + [Stamp(token, s.l.track.local, |s.l.epochs| - 1)])
    case Lose(i) => i < |s.lr| && s' == s.(lr := s.lr[..i] + s.lr[i + 1..])
    case Duplicate(i) => i < |s.lr| && s' == s.(lr := s.lr[..i + 1] + s.lr[i..])
    case Noise(i, f) => i <= |s.lr| && f.token != token && s' == s.(lr := s.lr[..i] + [f] + s.lr[i..])
    case Receive => s.rl != [] && s' == s.(l := Accept(s.l, token, s.rl[0]), rl := s.rl[1..])
    case SelfEcho => s' == s.(l := Handled(s.l, token, token, s.l.track.local))
    case StaleEcho(life) =>
      && life + 1 < |s.l.epochs|
      && s' == s.(l := Handled(s.l, token, token, s.l.epochs[life]).(stale := s.l.stale + 1))
    case Restart(epoch) =>
      && epoch !in s.l.epochs && epoch !in s.r.epochs
      && s' == s.(l := s.l.(track := Tracking(epoch, false, 0), epochs := s.l.epochs + [epoch]))
    case Reconnect => s' == s
  }

  datatype Move = Move(e: Event, left: bool)

  ghost predicate IsRun(token: u32, moves: seq<Move>, trace: seq<State>) {
    && |trace| == |moves| + 1
    && (exists e0, e1 :: e0 != e1 && trace[0] == Init(e0, e1))
    && forall k :: 0 <= k < |moves| ==>
         if moves[k].left then StepL(token, trace[k], moves[k].e, trace[k + 1])
         else StepL(token, Flip(trace[k]), moves[k].e, Flip(trace[k + 1]))
  }

  function Restarts(p: Peer): int {
    |p.epochs| - 1
  }

  /** The peer has taken a reflection of an earlier life of its own for the other
      peer, and has heard nothing since to correct it. */
  ghost predicate Misled(p: Peer) {
    p.track.hadPeer && p.track.peer in p.epochs
  }

  ghost predicate Distinct(xs: seq<u32>) {
    forall i, j :: 0 <= i < j < |xs| ==> xs[i] != xs[j]
  }

  ghost predicate Lives(s: State) {
    && Distinct(s.l.epochs) && Distinct(s.r.epochs)
    && (forall e :: e in s.l.epochs ==> e !in s.r.epochs)
    && s.l.epochs != [] && s.l.track.local == s.l.epochs[|s.l.epochs| - 1]
    && s.r.epochs != [] && s.r.track.local == s.r.epochs[|s.r.epochs| - 1]
  }

  /** Our frames in flight were stamped by the life they name, and lives do not go back. */
  ghost predicate InOrder(token: u32, epochs: seq<u32>, seen: nat, path: seq<Stamp>) {
    && (forall i :: 0 <= i < |path| && path[i].token == token ==>
          seen <= path[i].life < |epochs| && path[i].epoch == epochs[path[i].life])
    && forall i, j :: 0 <= i < j < |path| && path[i].token == token && path[j].token == token ==>
         path[i].life <= path[j].life
  }

  /** The receiver follows the latest life it has accepted a frame of, unless
      misled, and each reset is paid for by a life passed or by a stale echo,
      which pays for the reset that undoes it too. */
  ghost predicate Follows(epochs: seq<u32>, p: Peer) {
    && p.seen < |epochs|
    && p.resets + (if Misled(p) then 1 else 0) <= p.seen + 2 * p.stale
    && (p.track.hadPeer && !Misled(p) ==> p.track.peer == epochs[p.seen])
  }

  ghost predicate Inv(token: u32, s: State) {
    && Lives(s)
    && InOrder(token, s.l.epochs, s.r.seen, s.lr) && Follows(s.l.epochs, s.r)
    && InOrder(token, s.r.epochs, s.l.seen, s.rl) && Follows(s.r.epochs, s.l)
  }

  /** What one frame of the other peer does: an epoch reset if and only if it was
      written in a later life than the last frame accepted, or corrects a misled
      receiver. */
  lemma AcceptFollows(token: u32, s: State, f: Stamp)
    requires Inv(token, s) && s.rl != [] && f == s.rl[0]
    ensures Follows(s.r.epochs, Accept(s.l, token, f))
    ensures InOrder(token, s.r.epochs, Accept(s.l, token, f).seen, s.rl[1..])
    ensures Observe(s.l.track, token, f.token, f.epoch).1.NewLife? <==>
            f.token == token && s.l.track.hadPeer && (f.life > s.l.seen || Misled(s.l))
    ensures f.token == token ==> Accept(s.l, token, f).seen == f.life
  {
    if f.token == token {
      assert f.epoch in s.r.epochs && s.l.track.local in s.l.epochs;
    }
  }

  /** What a reflection of an earlier life does: it misleads the receiver, at the
      cost of a reset unless no peer or that very life was being followed. */
  lemma EchoFollows(token: u32, s: State, life: nat)
    requires Inv(token, s) && life + 1 < |s.l.epochs|
    ensures Follows(s.r.epochs, Handled(s.l, token, token, s.l.epochs[life]).(stale := s.l.stale + 1))
    ensures Misled(Handled(s.l, token, token, s.l.epochs[life]))
    ensures Observe(s.l.track, token, token, s.l.epochs[life]).1.NewLife? <==>
            s.l.track.hadPeer && s.l.track.peer != s.l.epochs[life]
  {
    assert s.l.epochs[life] != s.l.track.local;
  }

  lemma LoseKeeps(token: u32, epochs: seq<u32>, seen: nat, path: seq<Stamp>, i: nat)
    requires InOrder(token, epochs, seen, path) && i < |path|
    ensures InOrder(token, epochs, seen, path[..i] + path[i + 1..])
  {
  }

  lemma DuplicateKeeps(token: u32, epochs: seq<u32>, seen: nat, path: seq<Stamp>, i: nat)
    requires InOrder(token, epochs, seen, path) && i < |path|
    ensures InOrder(token, epochs, seen, path[..i + 1] + path[i..])
  {
  }

  lemma NoiseKeeps(token: u32, epochs: seq<u32>, seen: nat, path: seq<Stamp>, i: nat, f: Stamp)
    requires InOrder(token, epochs, seen, path) && i <= |path| && f.token != token
    ensures InOrder(token, epochs, seen, path[..i] + [f] + path[i..])
  {
  }

  lemma EmitKeeps(token: u32, epochs: seq<u32>, seen: nat, path: seq<Stamp>)
    requires InOrder(token, epochs, seen, path) && seen < |epochs|
    ensures InOrder(token, epochs, seen, path + [Stamp(token, epochs[|epochs| - 1], |epochs| - 1)])
  {
  }

  lemma RestartKeeps(token: u32, s: State, epoch: u32)
    requires Inv(token, s) && epoch !in s.l.epochs && epoch !in s.r.epochs
    ensures Inv(token, s.(l := s.l.(track := Tracking(epoch, false, 0), epochs := s.l.epochs + [epoch])))
  {
    var epochs' := s.l.epochs + [epoch];
    assert forall i :: 0 <= i < |s.l.epochs| ==> s.l.epochs[i] in s.l.epochs;
    assert InOrder(token, epochs', s.r.seen, s.lr);
    assert Follows(epochs', s.r);
    hide InOrder;
    assert Follows(s.r.epochs, s.l.(track := Tracking(epoch, false, 0), epochs := epochs'));
    hide Follows;
    assert Distinct(epochs');
  }

  lemma StepKeeps(token: u32, s: State, e: Event, s': State)
    requires Inv(token, s) && StepL(token, s, e, s')
    ensures Inv(token, s')
  {
    hide InOrder;
    match e
    case Receive => AcceptFollows(token, s, s.rl[0]);
    case Restart(epoch) => RestartKeeps(token, s, epoch);
    case SelfEcho =>
    case StaleEcho(life) => EchoFollows(token, s, life);
    case Reconnect =>
    case Emit => EmitKeeps(token, s.l.epochs, s.r.seen, s.lr);
    case Lose(i) => LoseKeeps(token, s.l.epochs, s.r.seen, s.lr, i);
    case Duplicate(i) => DuplicateKeeps(token, s.l.epochs, s.r.seen, s.lr, i);
    case Noise(i, f) => NoiseKeeps(token, s.l.epochs, s.r.seen, s.lr, i, f);
  }

  lemma FlipKeeps(token: u32, s: State)
    ensures Inv(token, s) <==> Inv(token, Flip(s))
    ensures Flip(Flip(s)) == s
  {
    hide InOrder, Follows;
  }

  lemma {:induction false} RunKeeps(token: u32, moves: seq<Move>, trace: seq<State>, k: nat)
    requires IsRun(token, moves, trace) && k < |trace|
    ensures Inv(token, trace[k])
  {
    if k == 0 {
    } else {
      var p := k - 1;
      RunKeeps(token, moves, trace, p);
      assert if moves[p].left then StepL(token, trace[p], moves[p].e, trace[p + 1])
             else StepL(token, Flip(trace[p]), moves[p].e, Flip(trace[p + 1]));
      hide Inv, StepL;
      FlipKeeps(token, trace[p]);
      FlipKeeps(token, trace[k]);
      if moves[p].left {
        StepKeeps(token, trace[p], moves[p].e, trace[k]);
      } else {
        StepKeeps(token, Flip(trace[p]), moves[p].e, Flip(trace[k]));
      }
    }
  }

  /** Epoch stability: over every run a peer resets because of an epoch at most
      once for each restart of the other and twice for each reflection of an
      earlier life of its own.  With neither, two peers never reset each other. */
  lemma ResetsBounded(token: u32, moves: seq<Move>, trace: seq<State>, k: nat)
    requires IsRun(token, moves, trace) && k < |trace|
    ensures trace[k].l.resets <= Restarts(trace[k].r) + 2 * trace[k].l.stale
    ensures trace[k].r.resets <= Restarts(trace[k].l) + 2 * trace[k].r.stale
  {
    RunKeeps(token, moves, trace, k);
  }

  /** The state seen by the given peer, itself on the left. */
  function Facing(s: State, left: bool): State {
    if left then s else Flip(s)
  }

  /** Restart detection is exact: in every state of every run, taking the next
      frame resets either peer if and only if it comes from a later life than the
      last one accepted, in this life of the receiver, or finds it misled. */
  lemma ResetsExactly(token: u32, moves: seq<Move>, trace: seq<State>, k: nat, left: bool)
    requires IsRun(token, moves, trace) && k < |trace| && Facing(trace[k], left).rl != []
    ensures var me, f := Facing(trace[k], left).l, Facing(trace[k], left).rl[0];
            Observe(me.track, token, f.token, f.epoch).1 == NewLife <==>
            f.token == token && me.track.hadPeer && (f.life > me.seen || Misled(me))
  {
    RunKeeps(token, moves, trace, k);
    FlipKeeps(token, trace[k]);
    hide Inv, IsRun;
    AcceptFollows(token, Facing(trace[k], left), Facing(trace[k], left).rl[0]);
  }

  // ---------------------------------------------------------- any list of epochs

  /** The epoch resets a sequence of own-token frames causes. */
  function ResetsFor(t: Tracking, token: u32, epochs: seq<u32>): nat
    decreases |epochs|
  {
    if epochs == [] then 0
    else
      var (t', verdict) := Observe(t, token, token, epochs[0]);
      (if verdict == NewLife then 1 else 0) + ResetsFor(t', token, epochs[1..])
  }

  /** Frames that are neither an echo of this life nor of the peer being followed. */
  function Strangers(t: Tracking, epochs: seq<u32>): nat {
    if epochs == [] then 0
    else (if epochs[0] != t.local && epochs[0] != t.peer then 1 else 0) + Strangers(t, epochs[1..])
  }

  lemma {:induction false} NoStrangers(t: Tracking, epochs: seq<u32>)
    ensures Strangers(t, epochs) == 0 <==>
            forall i :: 0 <= i < |epochs| ==> epochs[i] == t.local || epochs[i] == t.peer
  {
    if epochs == [] {
    } else {
      NoStrangers(t, epochs[1..]);
      assert forall i :: 1 <= i < |epochs| ==> epochs[i] == epochs[1..][i - 1];
    }
  }

  /** A peer already followed: the frames cause no reset if and only if each is an
      echo of this life or comes from that peer. */
  lemma {:induction false} HarmlessExactly(t: Tracking, token: u32, epochs: seq<u32>)
    requires t.hadPeer
    ensures ResetsFor(t, token, epochs) == 0 <==>
            forall i :: 0 <= i < |epochs| ==> epochs[i] == t.local || epochs[i] == t.peer
  {
    if epochs == [] {
    } else {
      var rest := epochs[1..];
      assert forall i :: 1 <= i < |epochs| ==> epochs[i] == rest[i - 1];
      if epochs[0] == t.local || epochs[0] == t.peer {
        HarmlessExactly(t, token, rest);
      }
    }
  }

  /** No peer yet: they cause none if and only if all but the echoes of this life agree. */
  lemma {:induction false} FirstContactExactly(t: Tracking, token: u32, epochs: seq<u32>)
    requires !t.hadPeer
    ensures ResetsFor(t, token, epochs) == 0 <==>
            forall i, j :: 0 <= i < |epochs| && 0 <= j < |epochs| && epochs[i] != t.local && epochs[j] != t.local ==>
              epochs[i] == epochs[j]
  {
    if epochs == [] {
    } else {
      var rest := epochs[1..];
      assert forall i :: 1 <= i < |epochs| ==> epochs[i] == rest[i - 1];
      if epochs[0] == t.local {
        FirstContactExactly(t, token, rest);
        assert forall i :: 0 <= i < |rest| ==> rest[i] == epochs[i + 1];
      } else {
        HarmlessExactly(Tracking(t.local, true, epochs[0]), token, rest);
        assert forall i :: 0 <= i < |rest| ==> rest[i] == epochs[i + 1];
      }
    }
  }

  /** In between: at most two resets for each frame of neither, one to leave the
      peer and one to come back. */
  lemma {:induction false} TwoForEachStranger(t: Tracking, token: u32, follows: u32, epochs: seq<u32>)
    requires t.hadPeer && follows != t.local && t.peer != t.local
    ensures ResetsFor(t.(peer := follows), token, epochs) <=
            2 * Strangers(t, epochs) + if follows == t.peer then 0 else 1
    decreases |epochs|
  {
    if epochs == [] {
    } else {
      TwoForEachStranger(t, token, if epochs[0] == t.local then follows else epochs[0], epochs[1..]);
    }
  }

  function Alternating(x: u32, y: u32, n: nat): seq<u32> {
    if n == 0 then [] else [x, y] + Alternating(x, y, n - 1)
  }

  /** The bound is reached: reflections of an earlier life that alternate with the
      peer's frames cause two resets each, without end. */
  lemma {:induction false} StaleEchoesLoop(t: Tracking, token: u32, stale: u32, n: nat)
    requires t.hadPeer && t.peer != t.local && stale != t.local && stale != t.peer
    ensures ResetsFor(t, token, Alternating(stale, t.peer, n)) == 2 * n
    ensures Strangers(t, Alternating(stale, t.peer, n)) == n
  {
    if n == 0 {
    } else {
      var rest := Alternating(stale, t.peer, n - 1);
      StaleEchoesLoop(t, token, stale, n - 1);
      assert ([stale, t.peer] + rest)[1..] == [t.peer] + rest && ([t.peer] + rest)[1..] == rest;
    }
  }
}
