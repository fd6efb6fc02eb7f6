/** The ARQ endpoint with its mutable fields: the reassembly table of objects
    updated in place, the duplicate table, the ack waiters and the queues. */
module ArqTransport {
  import opened Bytes
  import opened Frames
  import opened Reassembly

  datatype Outcome = Acked | TimedOut | Closed

  /** What ends one wait of Send: an ack on the waiter, the timer, or Close. */
  datatype Wake = AckArrives(crc: u32) | TimerFires | CloseFires

  /** The outcome one wake-up decides, if any. */
  function Decides(w: Wake, crc: u32): Option<Outcome> {
    match w
    case AckArrives(c) => if c == crc then Some(Acked) else None
    case TimerFires => None
    case CloseFires => Some(Closed)
  }

  /** The number of attempts Send begins, and its outcome. */
  function Attempts(wakes: seq<Wake>, crc: u32, max: nat): (nat, Outcome)
    requires |wakes| >= max
    decreases max
  {
    if max == 0 then (0, TimedOut)
    else match Decides(wakes[0], crc)
      case Some(o) => (1, o)
      case None => var (n, o) := Attempts(wakes[1..], crc, max - 1); (n + 1, o)
  }

  ghost predicate Undecided(wakes: seq<Wake>, crc: u32) {
    forall i :: 0 <= i < |wakes| ==> Decides(wakes[i], crc) == None
  }

  /** The last attempt begun is the first whose wake-up decides. */
  lemma {:induction false} AttemptsFirst(wakes: seq<Wake>, crc: u32, max: nat)
    requires |wakes| >= max
    ensures var (n, o) := Attempts(wakes, crc, max);
            && n <= max
            && (forall i :: 0 <= i < n - 1 ==> Decides(wakes[i], crc) == None)
            && (if o == TimedOut then n == max && (n > 0 ==> Decides(wakes[n - 1], crc) == None)
                else n > 0 && Decides(wakes[n - 1], crc) == Some(o))
    decreases max
  {
    if max == 0 {
    } else {
      var rest := wakes[1..];
      AttemptsFirst(rest, crc, max - 1);
      assert forall i :: 1 <= i < max ==> wakes[i] == rest[i - 1];
    }
  }

  /** Send succeeds exactly when a matching ack is the first decisive wake-up. */
  lemma AttemptsAcked(wakes: seq<Wake>, crc: u32, max: nat)
    requires |wakes| >= max
    ensures Attempts(wakes, crc, max).1 == Acked <==>
            exists j :: 0 <= j < max && wakes[j] == AckArrives(crc) && forall i :: 0 <= i < j ==> wakes[i] != CloseFires
    ensures Attempts(wakes, crc, max).0 <= max
    ensures Attempts(wakes, crc, max).1 == TimedOut ==> Attempts(wakes, crc, max).0 == max
  {
    AttemptsFirst(wakes, crc, max);
    hide Attempts;
    var (n, o) := Attempts(wakes, crc, max);
    assert o == Acked ==> wakes[n - 1] == AckArrives(crc);
  }

  /** The first decisive wake-up decides; with none the attempts run out. */
  lemma AttemptsDecided(wakes: seq<Wake>, crc: u32, max: nat, k: nat)
    requires k <= max <= |wakes| && Undecided(wakes[..k], crc)
    ensures k == max ==> Attempts(wakes, crc, max) == (max, TimedOut)
    ensures k < max && Decides(wakes[k], crc).Some? ==>
              Attempts(wakes, crc, max) == (k + 1, Decides(wakes[k], crc).value)
    ensures k < max ==> k < Attempts(wakes, crc, max).0
  {
    AttemptsFirst(wakes, crc, max);
    hide Attempts;
    var (n, o) := Attempts(wakes, crc, max);
    if 0 < n <= k {
      assert wakes[..k][n - 1] == wakes[n - 1];
    }
  }

  /** One attempt's worth of encoded frames. */
  function Round(magic: u32, crc32: Checksum, size: nat, q: u32, data: bytes, upTo: nat): (r: seq<bytes>)
    requires size > 0 && upTo <= |Fragments(data, size)|
    ensures |r| == upTo
  {
    seq(upTo, i requires 0 <= i < upTo <= |Fragments(data, size)| => Wire(magic, MessageFrame(crc32, size, q, data, i)))
  }

  lemma RoundAt(magic: u32, crc32: Checksum, size: nat, q: u32, data: bytes, i: nat)
    requires size > 0 && i < |Fragments(data, size)|
    ensures var round := Round(magic, crc32, size, q, data, |Fragments(data, size)|);
            && round[i] == Wire(magic, MessageFrame(crc32, size, q, data, i))
            && round[..i + 1] == round[..i] + [round[i]]
  {
    hide Wire, Fragments, MessageFrame;
  }

  lemma SomeFragment(data: bytes, size: nat)
    requires size > 0
    ensures |Fragments(data, size)| > 0
  {
    FragmentAt(data, size, 0);
  }

  function Rounds(round: seq<bytes>, n: nat): seq<bytes> {
    if n == 0 then [] else Rounds(round, n - 1) + round
  }

  /** How much of its message Send has queued when Close cuts in, if it ever gets there. */
  datatype Cut = Cut(rounds: nat, frames: nat)

  /** What Send queues, and its outcome: a whole round for each attempt begun,
      unless Close comes before a round is complete. */
  function Transmitted(round: seq<bytes>, wakes: seq<Wake>, crc: u32, max: nat, cut: Cut): (seq<bytes>, Outcome)
    requires |wakes| >= max
  {
    var (n, o) := Attempts(wakes, crc, max);
    if cut.rounds < n && cut.frames < |round| then (Rounds(round, cut.rounds) + round[..cut.frames], Closed)
    else (Rounds(round, n), o)
  }

  /** With Close at any point: Send succeeds exactly when some wait ends with a
      matching ack before Close has ended a wait or cut a round. */
  lemma TransmittedAcked(round: seq<bytes>, wakes: seq<Wake>, crc: u32, max: nat, cut: Cut)
    requires |wakes| >= max
    ensures Transmitted(round, wakes, crc, max, cut).1 == Acked <==>
            exists j :: 0 <= j < max && wakes[j] == AckArrives(crc) && (cut.frames < |round| ==> j < cut.rounds) &&
                        forall i :: 0 <= i < j ==> wakes[i] != CloseFires
  {
    AttemptsFirst(wakes, crc, max);
    hide Attempts;
    var (n, o) := Attempts(wakes, crc, max);
    assert o == Acked ==> wakes[n - 1] == AckArrives(crc);
  }

  lemma UpdateTwice(table: map<u32, Pending>, q: u32, first: Pending, second: Pending)
    ensures table[q := second] == var once: map<u32, Pending> := table[q := first]; once[q := second]
  {
  }

  lemma RoundsNext(before: seq<bytes>, round: seq<bytes>, n: nat)
    ensures before + Rounds(round, n) + round == before + Rounds(round, n + 1)
    ensures Rounds(round, 0) == [] && before + [] == before
  {
  }

  /** Concluding forgets the entry, so it does not matter what was stored there. */
  lemma ConcludeForgets(crc32: Checksum, r: Receiver, q: u32, p: Pending)
    ensures Conclude(crc32, r.(inbound := r.inbound[q := p]), q, p) == Conclude(crc32, r, q, p)
  {
    assert r.inbound[q := p] - {q} == r.inbound - {q};
  }

  lemma UpsertParts(inbound: map<u32, Pending>, f: Frame)
    requires f.Data?
    ensures Upsert(inbound, f) ==
            var p := Entry(inbound, f);
            if f.fragIdx >= |p.frags| then (p, false)
            else (Fill(p, f.fragIdx, f.payload), Fill(p, f.fragIdx, f.payload).remain == 0)
  {
  }

  lemma JoinedFrom(frags: seq<Option<bytes>>, i: nat)
    requires i < |frags|
    ensures Joined(frags[i..]) == (match frags[i] case Some(b) => b case None => []) + Joined(frags[i + 1..])
  {
    assert frags[i..][1..] == frags[i + 1..];
  }

  class InboundMessage {
    const totalLen: u32
    const crc: u32
    const frags: array<Option<bytes>>
    var remain: int

    constructor (f: Frame)
      requires f.Data?
      ensures View() == NewPending(f) && fresh(frags)
    {
      totalLen := f.totalLen;
      crc := f.crc;
      frags := new Option<bytes>[f.fragTotal](i => None);
      remain := f.fragTotal;
    }

    function View(): Pending
      reads this, frags
    {
      Pending(totalLen, crc, frags[..], remain)
    }

    method Store(i: nat, payload: bytes)
      requires i < frags.Length
      modifies this`remain, frags
      ensures View() == Fill(old(View()), i, payload)
    {
      if frags[i].None? {
        frags[i] := Some(payload);
        remain := remain - 1;
      }
    }
  }

  class StreamTransport {
    const magic: u32
    const crc32: Checksum
    const fragmentSize: nat
    const maxSendAttempts: nat
    var closed: bool
    var nextSeq: u32
    var outbound: seq<bytes>
    var outboundAck: seq<bytes>
    var ackWaiters: map<u32, Option<u32>>
    var inbound: map<u32, InboundMessage>
    var delivered: map<u32, u32>
    var handed: seq<bytes>  // the arguments of the onData calls made so far

    constructor (magic: u32, crc32: Checksum, fragmentSize: nat, maxSendAttempts: nat)
      requires fragmentSize > 0
      ensures Valid() && Tables() == Receiver(map[], map[]) && !closed
      ensures nextSeq == 0 && outbound == outboundAck == handed == [] && ackWaiters == map[]
    {
      this.magic, this.crc32 := magic, crc32;
      this.fragmentSize, this.maxSendAttempts := fragmentSize, maxSendAttempts;
      closed, nextSeq := false, 0;
      outbound, outboundAck, handed := [], [], [];
      ackWaiters, inbound, delivered := map[], map[], map[];
    }

    ghost function Repr(): set<object>
      reads this`inbound
    {
      (set q | q in inbound :: inbound[q] as object) + (set q | q in inbound :: inbound[q].frags as object)
    }

    /** No two sequence numbers share a message object or its fragment array. */
    ghost predicate Valid()
      reads this`inbound, Repr()
    {
      && fragmentSize > 0 && this !in Repr()
      && forall q, q' :: q in inbound && q' in inbound && q != q' ==>
           inbound[q] != inbound[q'] && inbound[q].frags != inbound[q'].frags
    }

    ghost function Tables(): Receiver
      reads this`inbound, this`delivered, Repr()
    {
      Receiver(map q | q in inbound :: inbound[q].View(), delivered)
    }

    /** A fresh pending message under the frame's sequence number. */
    method Create(frame: Frame) returns (msg: InboundMessage)
      requires Valid() && frame.Data?
      modifies this`inbound
      ensures Valid() && fresh(Repr() - old(Repr()))
      ensures Tables() == old(Tables()).(inbound := old(Tables()).inbound[frame.seqno := NewPending(frame)])
      ensures frame.seqno in inbound && msg == inbound[frame.seqno] && msg.View() == NewPending(frame)
    {
      hide NewPending;
      msg := new InboundMessage(frame);
      inbound := inbound[frame.seqno := msg];
      assert Tables().inbound == old(Tables()).inbound[frame.seqno := msg.View()] by {
        assert forall q :: q in old(inbound) ==> old(inbound[q]).View() == old(inbound[q].View());
      }
      assert Repr() <= old(Repr()) + {msg, msg.frags};
    }

    /** The pending message a frame belongs to, replaced by a fresh one when its
        header disagrees with what is pending. */
    method FindOrCreate(frame: Frame) returns (msg: InboundMessage)
      requires Valid() && frame.Data?
      modifies this`inbound
      ensures Valid() && fresh(Repr() - old(Repr()))
      ensures Tables() ==
              old(Tables()).(inbound := old(Tables()).inbound[frame.seqno := Entry(old(Tables()).inbound, frame)])
      ensures frame.seqno in inbound && msg == inbound[frame.seqno]
      ensures msg.View() == Entry(old(Tables()).inbound, frame)
    {
      if frame.seqno in inbound && inbound[frame.seqno].crc == frame.crc &&
         inbound[frame.seqno].totalLen == frame.totalLen && inbound[frame.seqno].frags.Length == frame.fragTotal
      {
        msg := inbound[frame.seqno];
        assert Tables().inbound == old(Tables()).inbound[frame.seqno := msg.View()];
      } else {
        msg := Create(frame);
        hide NewPending;
      }
    }

    /** Writes a fragment into one pending message; no other message is touched. */
    method FillSlot(seqno: u32, i: nat, payload: bytes)
      requires Valid() && seqno in inbound && i < inbound[seqno].frags.Length
      modifies Repr()
      ensures Valid() && inbound == old(inbound) && delivered == old(delivered)
      ensures inbound[seqno].View() == Fill(old(inbound[seqno].View()), i, payload)
      ensures Tables().inbound == old(Tables()).inbound[seqno := Fill(old(inbound[seqno].View()), i, payload)]
    {
      hide Fill;
      inbound[seqno].Store(i, payload);
      assert forall q :: q in inbound && q != seqno ==> inbound[q].View() == old(inbound[q].View());
      assert Tables().inbound == old(Tables()).inbound[seqno := inbound[seqno].View()];
    }

    method UpsertInbound(frame: Frame) returns (msg: InboundMessage?, complete: bool)
      requires Valid() && frame.Data?
      modifies this`inbound, Repr()
      ensures Valid() && fresh(Repr() - old(Repr()))
      ensures Tables() ==
              old(Tables()).(inbound := old(Tables()).inbound[frame.seqno := Upsert(old(Tables()).inbound, frame).0])
      ensures complete == Upsert(old(Tables()).inbound, frame).1
      ensures complete ==> msg != null && msg.View() == Upsert(old(Tables()).inbound, frame).0
    {
      UpsertParts(Tables().inbound, frame);
      hide Entry, Fill, Upsert;
      ghost var table := Tables().inbound;
      msg := FindOrCreate(frame);
      if frame.fragIdx >= msg.frags.Length {
        return null, false;
      }
      ghost var entry := msg.View();
      FillSlot(frame.seqno, frame.fragIdx, frame.payload);
      ghost var filled := Fill(entry, frame.fragIdx, frame.payload);
      UpdateTwice(table, frame.seqno, entry, filled);
      complete := msg.remain == 0;
    }

    method AssembleMessage(msg: InboundMessage) returns (data: bytes)
      ensures data == Assemble(msg.View())
    {
      data := [];
      ghost var all := msg.frags[..];
      for i := 0 to msg.frags.Length
        invariant data + Joined(all[i..]) == Joined(all)
      {
        hide Joined;
        JoinedFrom(all, i);
        ghost var rest := Joined(all[i + 1..]);
        if msg.frags[i].Some? {
          assert data + (msg.frags[i].value + rest) == (data + msg.frags[i].value) + rest;
          data := data + msg.frags[i].value;
        }
      }
      if ToU32(|data|) > msg.totalLen {
        data := data[..msg.totalLen];
      }
    }

    /** closing says that Close comes before the queue has taken the frame. */
    method EnqueueFrame(frame: bytes, priority: bool, closing: bool) returns (ok: bool)
      modifies this`closed, this`outbound, this`outboundAck
      ensures closed == (old(closed) || closing) && ok == !closed
      ensures outbound == old(outbound) + (if ok && !priority then [frame] else [])
      ensures outboundAck == old(outboundAck) + (if ok && priority then [frame] else [])
    {
      closed := closed || closing;
      if closed {
        return false;
      }
      if priority {
        outboundAck := outboundAck + [frame];
      } else {
        outbound := outbound + [frame];
      }
      return true;
    }

    method SendAck(seqno: u32, crc: u32, closing: bool)
      modifies this`closed, this`outbound, this`outboundAck
      ensures closed == (old(closed) || closing) && outbound == old(outbound)
      ensures outboundAck == old(outboundAck) + (if closed then [] else [Wire(magic, Ack(seqno, crc))])
    {
      var frame := EncodeAckFrame(magic, seqno, crc);
      var _ := EnqueueFrame(frame[..], true, closing);
    }

    method ConcludeMessage(seqno: u32, msg: InboundMessage) returns (reaction: Reaction)
      requires Valid()
      modifies this`inbound, this`delivered
      ensures Valid() && Repr() <= old(Repr())
      ensures (Tables(), reaction) == Conclude(crc32, old(Tables()), seqno, old(msg.View()))
    {
      hide Assemble, Remember;
      Forget(seqno);
      ghost var left := Tables();
      var data := AssembleMessage(msg);
      assert Tables() == left;
      if crc32(data) != msg.crc {
        return Quiet;
      }
      MarkDelivered(seqno, msg.crc);
      return Hand(data);
    }

    /** The part of the handler that runs under recvMu. */
    method ReceiveLocked(frame: Frame) returns (reaction: Reaction)
      requires Valid() && frame.Data?
      modifies this`inbound, this`delivered, Repr()
      ensures Valid() && fresh(Repr() - old(Repr()))
      ensures (Tables(), reaction) == Handle(crc32, old(Tables()), frame)
    {
      hide Upsert, Conclude;
      if frame.seqno in delivered && delivered[frame.seqno] == frame.crc {
        return Reack;
      }
      var msg, complete := UpsertInbound(frame);
      if msg == null || !complete {
        return Quiet;
      }
      reaction := ConcludeMessage(frame.seqno, msg);
      ConcludeForgets(crc32, old(Tables()), frame.seqno, msg.View());
    }

    /** The handler proved against Handle: tables, the payload given to onData,
        and the ack, which comes after the payload and also for a duplicate.
        closing says that Close comes before the queue has taken the ack. */
    method HandleInboundFrame(frame: Frame, closing: bool)
      requires Valid() && frame.Data?
      modifies this`closed, this`inbound, this`delivered, this`outbound, this`outboundAck, this`handed, Repr()
      ensures Valid() && fresh(Repr() - old(Repr()))
      ensures Tables() == Handle(crc32, old(Tables()), frame).0
      ensures var reaction := Handle(crc32, old(Tables()), frame).1;
              && handed == old(handed) + (if reaction.Hand? then [reaction.data] else [])
              && closed == (old(closed) || (closing && !reaction.Quiet?))
              && outboundAck == old(outboundAck) +
                   (if reaction.Quiet? || closed then [] else [Wire(magic, Ack(frame.seqno, frame.crc))])
      ensures outbound == old(outbound)
    {
      hide Handle, Wire;
      var reaction := ReceiveLocked(frame);
      ghost var tables := Tables();
      if reaction.Hand? {
        handed := handed + [reaction.data];
        assert Tables() == tables;
      }
      if !reaction.Quiet? {
        SendAck(frame.seqno, frame.crc, closing);
        assert Tables() == tables;
      }
    }

    method Forget(seqno: u32)
      requires Valid()
      modifies this`inbound
      ensures Valid() && Repr() <= old(Repr())
      ensures Tables() == old(Tables()).(inbound := old(Tables()).inbound - {seqno})
    {
      inbound := inbound - {seqno};
    }

    method MarkDelivered(seqno: u32, crc: u32)
      requires Valid()
      modifies this`delivered
      ensures Valid() && Repr() == old(Repr())
      ensures Tables() == old(Tables()).(delivered := Remember(old(delivered), seqno, crc))
    {
      if |delivered| > DELIVERED_LIMIT {
        delivered := map[];
      }
      delivered := delivered[seqno := crc];
    }

    /** An ack fills the waiter of its sequence number if there is one and it is
        still empty; anything else is dropped. */
    method ResolveAck(seqno: u32, crc: u32)
      modifies this`ackWaiters
      ensures ackWaiters ==
              if seqno in old(ackWaiters) && old(ackWaiters)[seqno] == None then old(ackWaiters)[seqno := Some(crc)]
              else old(ackWaiters)
    {
      if seqno !in ackWaiters {
        return;
      }
      if ackWaiters[seqno] == None {
        ackWaiters := ackWaiters[seqno := Some(crc)];
      }
    }

    /** The inner loop of Send: every fragment once, in order, until Close comes
        with the given number of them queued. */
    method EnqueueRound(seqno: u32, data: bytes, fragments: seq<bytes>, cut: nat) returns (ok: bool)
      requires fragmentSize > 0 && fragments == Fragments(data, fragmentSize)
      modifies this`closed, this`outbound, this`outboundAck
      ensures closed == (old(closed) || cut < |fragments|) && ok == !closed
      ensures var queued := if old(closed) then 0 else if cut < |fragments| then cut else |fragments|;
              outbound == old(outbound) + Round(magic, crc32, fragmentSize, seqno, data, |fragments|)[..queued]
      ensures outboundAck == old(outboundAck)
    {
      hide Wire, Fragments, Round;
      SomeFragment(data, fragmentSize);
      ghost var round := Round(magic, crc32, fragmentSize, seqno, data, |fragments|);
      for idx := 0 to |fragments|
        invariant closed == old(closed) && (idx > 0 ==> !closed) && idx <= cut
        invariant outbound == old(outbound) + round[..idx]
        invariant outboundAck == old(outboundAck)
      {
        var frame := EncodeDataFrame(magic, seqno, crc32(data), |data|, idx, |fragments|, fragments[idx]);
        RoundAt(magic, crc32, fragmentSize, seqno, data, idx);
        ok := EnqueueFrame(frame[..], false, idx == cut);
        if !ok {
          return;
        }
      }
      return true;
    }

    /** The attempt loop of Send. */
    method Transmit(seqno: u32, data: bytes, wakes: seq<Wake>, cut: Cut) returns (outcome: Outcome)
      requires fragmentSize > 0 && |wakes| >= maxSendAttempts && !closed
      modifies this`closed, this`outbound, this`outboundAck
      ensures var round := Round(magic, crc32, fragmentSize, seqno, data, |Fragments(data, fragmentSize)|);
              var (queued, o) := Transmitted(round, wakes, crc32(data), maxSendAttempts, cut);
              outcome == o && closed == (o == Closed) && outbound == old(outbound) + queued
      ensures outboundAck == old(outboundAck)
    {
      hide Round, Rounds, Fragments, Attempts;
      var crc := crc32(data);
      var fragments := FragmentPayload(data, fragmentSize);
      ghost var round := Round(magic, crc32, fragmentSize, seqno, data, |fragments|);
      RoundsNext(outbound, round, 0);
      var attempt := 0;
      while attempt < maxSendAttempts
        invariant 0 <= attempt <= maxSendAttempts && !closed && Undecided(wakes[..attempt], crc)
        invariant cut.frames < |round| ==> attempt <= cut.rounds
        invariant outboundAck == old(outboundAck)
        invariant outbound == old(outbound) + Rounds(round, attempt)
      {
        AttemptsDecided(wakes, crc, maxSendAttempts, attempt);
        var ok := EnqueueRound(seqno, data, fragments, if attempt == cut.rounds then cut.frames else |fragments|);
        if !ok {
          assert outbound == old(outbound) + (Rounds(round, attempt) + round[..cut.frames]);
          return Closed;
        }
        assert round[..|round|] == round;
        RoundsNext(old(outbound), round, attempt);
        var wake := wakes[attempt];
        attempt := attempt + 1;
        closed := wake == CloseFires;
        if Decides(wake, crc).Some? {
          return Decides(wake, crc).value;
        }
      }
      AttemptsDecided(wakes, crc, maxSendAttempts, attempt);
      return TimedOut;
    }

    /** One call of Send, given the wake-up that ends each of its waits and where
        Close would cut in. */
    method Send(data: bytes, wakes: seq<Wake>, cut: Cut) returns (outcome: Outcome)
      requires fragmentSize > 0 && |wakes| >= maxSendAttempts
      modifies this`closed, this`nextSeq, this`ackWaiters, this`outbound, this`outboundAck
      ensures old(closed) ==>
                && outcome == Closed && closed && outbound == old(outbound)
                && nextSeq == old(nextSeq) && ackWaiters == old(ackWaiters)
      ensures !old(closed) ==>
                && nextSeq == (old(nextSeq) + 1) % 0x1_0000_0000
                && ackWaiters == old(ackWaiters) - {nextSeq}
                && var round := Round(magic, crc32, fragmentSize, nextSeq, data, |Fragments(data, fragmentSize)|);
                   var (queued, o) := Transmitted(round, wakes, crc32(data), maxSendAttempts, cut);
                   outcome == o && closed == (o == Closed) && outbound == old(outbound) + queued
      ensures outboundAck == old(outboundAck)
    {
      hide Round, Rounds, Fragments, Attempts, Transmitted;
      if closed {
        return Closed;
      }
      nextSeq := (nextSeq + 1) % 0x1_0000_0000;
      ackWaiters := ackWaiters[nextSeq := None];
      outcome := Transmit(nextSeq, data, wakes, cut);
      ackWaiters := ackWaiters - {nextSeq};
      assert ackWaiters == old(ackWaiters) - {nextSeq};
    }
  }
}
