/** vp8channel's frames: the layout every KCP packet is wrapped in, and the
    assembler that rebuilds frames from RTP packets (section 4.2 of RFC 7741,
    section 5.1 of RFC 3550). */
module Vp8Frames {
  import opened Bytes

  const KEEPALIVE: bytes := [
    0x30, 0x01, 0x00, 0x9d, 0x01, 0x2a, 0x10, 0x00,
    0x10, 0x00, 0x00, 0x47, 0x08, 0x85, 0x85, 0x88,
    0x99, 0x84, 0x88, 0xfc]
  const TOKEN_OFF := 20
  const EPOCH_OFF := 24
  const HDR_LEN := 28

  /** A keepalive keyframe, the binding token, the sender's epoch, the packet. */
  function Stamped(token: u32, epoch: u32, packet: bytes): bytes {
    KEEPALIVE + U32Bytes(token) + U32Bytes(epoch) + packet
  }

  function TokenOf(frame: bytes): u32
    requires |frame| >= HDR_LEN
  {
    ReadU32(frame[TOKEN_OFF..EPOCH_OFF])
  }

  function EpochOf(frame: bytes): u32
    requires |frame| >= HDR_LEN
  {
    ReadU32(frame[EPOCH_OFF..HDR_LEN])
  }

  function PacketOf(frame: bytes): bytes
    requires |frame| >= HDR_LEN
  {
    frame[HDR_LEN..]
  }

  /** What is stamped on a packet is what the receiver reads off it. */
  lemma StampedReads(token: u32, epoch: u32, packet: bytes)
    ensures var f := Stamped(token, epoch, packet);
            |f| >= HDR_LEN && TokenOf(f) == token && EpochOf(f) == epoch && PacketOf(f) == packet
    ensures var f := Stamped(token, epoch, packet);
            f[..20] == KEEPALIVE && ReadU32(f[20..24]) == token && ReadU32(f[24..28]) == epoch && f[28..] == packet
  {
    var f := Stamped(token, epoch, packet);
    ReadU32Inverse(token, [0, 0, 0, 0]);
    ReadU32Inverse(epoch, [0, 0, 0, 0]);
    assert f[TOKEN_OFF..EPOCH_OFF] == U32Bytes(token) && f[EPOCH_OFF..HDR_LEN] == U32Bytes(epoch);
    assert f[HDR_LEN..] == packet;
  }

  method EpochHeader(token: u32, epoch: u32) returns (hdr: array<byte>)
    ensures fresh(hdr) && hdr[..] == Stamped(token, epoch, [])
  {
    hdr := new byte[HDR_LEN](i => 0);
    CopyInto(hdr, 0, KEEPALIVE);
    PutU32(hdr, TOKEN_OFF, token);
    assert hdr[..EPOCH_OFF] == KEEPALIVE + U32Bytes(token);
    PutU32(hdr, EPOCH_OFF, epoch);
  }

  datatype Deadline = Unset | Passed | Ahead

  /** The case of WriteTo's select that is taken. */
  datatype Selected = QueueTakes | ConnCloses | TimerFires

  datatype WriteResult = Wrote(n: nat) | ErrClosed | ErrTimeout

  /** kcpConn.WriteTo; queued is what has gone to the outbound queue. */
  method WriteTo(hdr: bytes, p: bytes, deadline: Deadline, taken: Selected, ghost token: u32, ghost epoch: u32)
    returns (r: WriteResult, queued: seq<bytes>)
    requires hdr == Stamped(token, epoch, [])
    requires taken.TimerFires? ==> !deadline.Unset?
    ensures queued == if r.Wrote? then [Stamped(token, epoch, p)] else []
    ensures r.Wrote? <==> !deadline.Passed? && taken.QueueTakes?
    ensures r.Wrote? ==> r.n == |p|
    ensures r.ErrClosed? <==> !deadline.Passed? && taken.ConnCloses?
  {
    var buf := new byte[HDR_LEN + |p|](i => 0);
    CopyInto(buf, 0, hdr);
    assert buf[..HDR_LEN] == hdr;
    CopyInto(buf, HDR_LEN, p);
    assert buf[..] == Stamped(token, epoch, p);
    if deadline.Passed? {
      return ErrTimeout, [];
    }
    match taken
    case QueueTakes => return Wrote(|p|), [buf[..]];
    case ConnCloses => return ErrClosed, [];
    case TimerFires => return ErrTimeout, [];
  }

  // ----------------------------------------------------------------- assembling

  /** A VP8 payload descriptor that failed to parse, or the S bit and the payload. */
  datatype Body = Bad | Part(start: bool, payload: bytes)

  datatype Packet = Packet(seqno: u16, marker: bool, body: Body)

  datatype Assembly = Assembly(frameBuf: bytes, lastSeq: u16, haveLastSeq: bool, frameValid: bool)

  function Begin(): Assembly {
    Assembly([], 0, false, false)
  }

  function Drop(s: Assembly): Assembly {
    s.(frameBuf := [], frameValid := false)
  }

  function NextSeq(q: u16): (r: u16)
    ensures r == if q == 0xffff then 0 else q + 1
  {
    (q + 1) % 0x1_0000
  }

  function Process(s: Assembly, p: Packet): (Assembly, Option<bytes>) {
    var noGap := if s.haveLastSeq && p.seqno != NextSeq(s.lastSeq) then Drop(s) else s;
    var here := noGap.(lastSeq := p.seqno, haveLastSeq := true);
    match p.body
    case Bad => (Drop(here), None)
    case Part(start, payload) =>
      var open := if start then here.(frameBuf := [], frameValid := true) else here;
      if !open.frameValid then (open, None)
      else
        var buf := open.frameBuf + payload;
        if !p.marker then (open.(frameBuf := buf), None)
        else (Drop(open), if |buf| >= HDR_LEN then Some(buf) else None)
  }

  class Vp8FrameState {
    var frameBuf: bytes
    var lastSeq: u16
    var haveLastSeq: bool
    var frameValid: bool

    constructor ()
      ensures View() == Begin()
    {
      frameBuf, lastSeq, haveLastSeq, frameValid := [], 0, false, false;
    }

    function View(): Assembly
      reads this
    {
      Assembly(frameBuf, lastSeq, haveLastSeq, frameValid)
    }

    method ProcessRTPPacket(pkt: Packet) returns (frame: Option<bytes>)
      modifies this
      ensures (View(), frame) == Process(old(View()), pkt)
    {
      if haveLastSeq && pkt.seqno != NextSeq(lastSeq) {
        frameValid := false;
        frameBuf := [];
      }
      lastSeq := pkt.seqno;
      haveLastSeq := true;
      if pkt.body.Bad? {
        frameValid := false;
        frameBuf := [];
        return None;
      }
      if pkt.body.start {
        frameBuf := [];
        frameValid := true;
      }
      if !frameValid {
        return None;
      }
      frameBuf := frameBuf + pkt.body.payload;
      if !pkt.marker {
        return None;
      }
      frame := if |frameBuf| >= HDR_LEN then Some(frameBuf) else None;
      frameBuf := [];
      frameValid := false;
    }
  }

  /** The assembler after the first n packets. */
  function After(pkts: seq<Packet>, n: nat): Assembly
    requires n <= |pkts|
  {
    if n == 0 then Begin() else Process(After(pkts, n - 1), pkts[n - 1]).0
  }

  /** What it returns for packet i. */
  function Emitted(pkts: seq<Packet>, i: nat): Option<bytes>
    requires i < |pkts|
  {
    Process(After(pkts, i), pkts[i]).1
  }

  /** Packets j..i are one unbroken run that opens at its only start packet and
      has no marker before i. */
  ghost predicate Run(pkts: seq<Packet>, j: nat, i: nat) {
    && j <= i < |pkts| && pkts[j].body.Part? && pkts[j].body.start
    && (forall k :: j < k <= i ==>
          pkts[k].body.Part? && !pkts[k].body.start && pkts[k].seqno == (pkts[k - 1].seqno + 1) % 0x1_0000)
    && forall k :: j <= k < i ==> !pkts[k].marker
  }

  ghost function RunPayload(pkts: seq<Packet>, j: nat, i: nat): bytes
    requires Run(pkts, j, i)
    decreases i
  {
    if i == j then pkts[i].body.payload else RunPayload(pkts, j, i - 1) + pkts[i].body.payload
  }

  ghost predicate Complete(pkts: seq<Packet>, j: nat, i: nat) {
    Run(pkts, j, i) && pkts[i].marker && |RunPayload(pkts, j, i)| >= HDR_LEN
  }

  /** A run still waiting for its marker after the first n packets. */
  ghost predicate Open(pkts: seq<Packet>, j: nat, n: nat) {
    n > 0 && Run(pkts, j, n - 1) && !pkts[n - 1].marker
  }

  lemma RunUnique(pkts: seq<Packet>, j: nat, j': nat, i: nat)
    requires Run(pkts, j, i) && Run(pkts, j', i)
    ensures j == j'
  {
  }

  /** The fields say what has arrived: valid means a run is open, and the buffer
      is that run's payload. */
  ghost predicate Faithful(pkts: seq<Packet>, n: nat)
    requires n <= |pkts|
  {
    var s := After(pkts, n);
    && s.haveLastSeq == (n > 0)
    && (n > 0 ==> s.lastSeq == pkts[n - 1].seqno)
    && (s.frameValid <==> exists j: nat :: Open(pkts, j, n))
    && (forall j: nat :: Open(pkts, j, n) ==> s.frameBuf == RunPayload(pkts, j, n - 1))
  }

  /** Where the run that ends at packet n starts, if there is one. */
  lemma RunAt(pkts: seq<Packet>, n: nat, j: nat)
    requires n < |pkts|
    ensures Run(pkts, j, n) <==>
            pkts[n].body.Part? &&
            if pkts[n].body.start then j == n
            else Open(pkts, j, n) && pkts[n].seqno == NextSeq(pkts[n - 1].seqno)
  {
    if Run(pkts, j, n) && j < n {
      assert Run(pkts, j, n - 1);
    }
  }

  /** The bytes held once a packet has been taken in, if a run is open then. */
  function Grown(s: Assembly, p: Packet): Option<bytes> {
    match p.body
    case Bad => None
    case Part(start, payload) =>
      if start then Some(payload)
      else if s.frameValid && (s.haveLastSeq ==> p.seqno == NextSeq(s.lastSeq)) then Some(s.frameBuf + payload)
      else None
  }

  lemma ProcessGrown(s: Assembly, p: Packet)
    ensures var (s', out) := Process(s, p);
            && s'.haveLastSeq && s'.lastSeq == p.seqno
            && (s'.frameValid <==> Grown(s, p).Some? && !p.marker)
            && (s'.frameValid ==> s'.frameBuf == Grown(s, p).value)
            && out == if p.marker && Grown(s, p).Some? && |Grown(s, p).value| >= HDR_LEN then Grown(s, p) else None
  {
    assert p.body.Part? ==> [] + p.body.payload == p.body.payload;
  }

  /** Taking in packet n leaves a run open exactly when one ends at n. */
  lemma GrownIsRun(pkts: seq<Packet>, n: nat)
    requires n < |pkts| && Faithful(pkts, n)
    ensures forall j: nat :: Run(pkts, j, n) ==> Grown(After(pkts, n), pkts[n]) == Some(RunPayload(pkts, j, n))
    ensures Grown(After(pkts, n), pkts[n]).Some? ==> exists j: nat :: Run(pkts, j, n)
  {
    var s, p := After(pkts, n), pkts[n];
    forall j: nat | Run(pkts, j, n) ensures Grown(s, p) == Some(RunPayload(pkts, j, n)) {
      RunAt(pkts, n, j);
      if !p.body.start {
        assert Open(pkts, j, n);
      }
    }
    if Grown(s, p).Some? {
      if p.body.start {
        RunAt(pkts, n, n);
      } else {
        var j: nat :| Open(pkts, j, n);
        RunAt(pkts, n, j);
      }
    }
  }

  lemma FaithfulFrom(pkts: seq<Packet>, n: nat)
    requires 0 < n <= |pkts|
    requires After(pkts, n).haveLastSeq && After(pkts, n).lastSeq == pkts[n - 1].seqno
    requires After(pkts, n).frameValid ==> exists j: nat :: Open(pkts, j, n)
    requires forall j: nat :: Open(pkts, j, n) ==>
               After(pkts, n).frameValid && After(pkts, n).frameBuf == RunPayload(pkts, j, n - 1)
    ensures Faithful(pkts, n)
  {
    hide After, Open;
  }

  lemma StepFaithful(pkts: seq<Packet>, n: nat)
    requires n < |pkts| && Faithful(pkts, n)
    ensures Faithful(pkts, n + 1)
  {
    GrownIsRun(pkts, n);
    ProcessGrown(After(pkts, n), pkts[n]);
    hide Process, Grown, Run, Faithful;
    var s' := After(pkts, n + 1);
    assert s' == Process(After(pkts, n), pkts[n]).0;
    if s'.frameValid {
      var j: nat :| Run(pkts, j, n);
      assert Open(pkts, j, n + 1);
    }
    forall j: nat | Open(pkts, j, n + 1) ensures s'.frameValid && s'.frameBuf == RunPayload(pkts, j, n) {
    }
    FaithfulFrom(pkts, n + 1);
  }

  lemma {:induction false} AlwaysFaithful(pkts: seq<Packet>, n: nat)
    requires n <= |pkts|
    ensures Faithful(pkts, n)
  {
    if n == 0 {
    } else {
      AlwaysFaithful(pkts, n - 1);
      StepFaithful(pkts, n - 1);
    }
  }

  /** The assembler refines the declarative definition: packet i yields a frame
      exactly when it completes a run, and the frame is the run's payload. */
  lemma EmitsExactly(pkts: seq<Packet>, i: nat, frame: bytes)
    requires i < |pkts|
    ensures Emitted(pkts, i) == Some(frame) <==>
            exists j: nat :: Complete(pkts, j, i) && frame == RunPayload(pkts, j, i)
  {
    AlwaysFaithful(pkts, i);
    GrownIsRun(pkts, i);
    ProcessGrown(After(pkts, i), pkts[i]);
    hide Process, Grown, Run, Faithful, After;
    if Emitted(pkts, i) == Some(frame) {
      var j: nat :| Run(pkts, j, i);
      assert Complete(pkts, j, i);
    }
  }

  /** A frame cut into packets: S on the first, the marker on the last. */
  ghost predicate Cut(pkts: seq<Packet>, n: nat, parts: seq<bytes>, numbers: seq<u16>)
    requires |numbers| == |parts|
  {
    && n + |parts| <= |pkts|
    && forall k :: 0 <= k < |parts| ==> pkts[n + k] == Packet(numbers[k], k == |parts| - 1, Part(k == 0, parts[k]))
  }

  ghost predicate Consecutive(numbers: seq<u16>) {
    forall k :: 0 <= k < |numbers| ==> numbers[k] == (numbers[0] + k) % 0x1_0000
  }

  lemma CutAt(pkts: seq<Packet>, n: nat, parts: seq<bytes>, numbers: seq<u16>, k: nat)
    requires |numbers| == |parts| && Cut(pkts, n, parts, numbers) && k < |parts|
    ensures n + k < |pkts| && pkts[n + k] == Packet(numbers[k], k == |parts| - 1, Part(k == 0, parts[k]))
  {
  }

  lemma RunGrows(pkts: seq<Packet>, j: nat, i: nat)
    requires i + 1 < |pkts| && Run(pkts, j, i) && !pkts[i].marker
    requires pkts[i + 1].body.Part? && !pkts[i + 1].body.start
    requires pkts[i + 1].seqno == (pkts[i].seqno + 1) % 0x1_0000
    ensures Run(pkts, j, i + 1) && RunPayload(pkts, j, i + 1) == RunPayload(pkts, j, i) + pkts[i + 1].body.payload
  {
  }

  lemma NumberAfter(numbers: seq<u16>, k: nat)
    requires Consecutive(numbers) && 0 < k < |numbers|
    ensures numbers[k] == (numbers[k - 1] as int + 1) % 0x1_0000
  {
  }

  lemma {:induction false} CutRun(pkts: seq<Packet>, n: nat, parts: seq<bytes>, numbers: seq<u16>, k: nat)
    requires |numbers| == |parts| && Cut(pkts, n, parts, numbers) && Consecutive(numbers) && k < |parts|
    ensures Run(pkts, n, n + k) && RunPayload(pkts, n, n + k) == Flatten(parts[..k + 1])
    decreases k
  {
    CutAt(pkts, n, parts, numbers, k);
    if k == 0 {
      assert parts[..1] == [] + [parts[0]];
      FlattenSnoc([], parts[0]);
    } else {
      hide Cut, Run, RunPayload, Consecutive, Flatten;
      CutAt(pkts, n, parts, numbers, k - 1);
      NumberAfter(numbers, k);
      CutRun(pkts, n, parts, numbers, k - 1);
      RunGrows(pkts, n, n + (k - 1));
      assert parts[..k + 1] == parts[..k] + [parts[k]];
      FlattenSnoc(parts[..k], parts[k]);
    }
  }

  lemma {:induction false} NumbersFollow(pkts: seq<Packet>, n: nat, parts: seq<bytes>, numbers: seq<u16>, k: nat)
    requires |numbers| == |parts| && Cut(pkts, n, parts, numbers) && k < |parts| && Run(pkts, n, n + |parts| - 1)
    ensures numbers[k] == (numbers[0] + k) % 0x1_0000
    decreases k
  {
    if k == 0 {
    } else {
      NumbersFollow(pkts, n, parts, numbers, k - 1);
      CutAt(pkts, n, parts, numbers, k);
      CutAt(pkts, n, parts, numbers, k - 1);
      var i := n + k;
      assert pkts[i].seqno == (pkts[i - 1].seqno + 1) % 0x1_0000;
      hide Run, Cut;
      assert numbers[k] == (numbers[k - 1] as int + 1) % 0x1_0000;
    }
  }

  lemma CutStarts(pkts: seq<Packet>, n: nat, parts: seq<bytes>, numbers: seq<u16>, k: nat, j: nat)
    requires |numbers| == |parts| && Cut(pkts, n, parts, numbers) && k < |parts| && Complete(pkts, j, n + k)
    ensures j == n && k == |parts| - 1
  {
    CutAt(pkts, n, parts, numbers, k);
    CutAt(pkts, n, parts, numbers, 0);
    assert pkts[n].body.start;
    if j > n {
      CutAt(pkts, n, parts, numbers, j - n);
    }
  }

  /** A cut frame comes out whole at its last packet if it is long enough and the
      packets are numbered consecutively modulo 2^16; one number that deviates,
      and nothing comes out.  What came before makes no difference. */
  lemma CutFrameEmitted(pkts: seq<Packet>, n: nat, parts: seq<bytes>, numbers: seq<u16>, k: nat)
    requires |numbers| == |parts| && Cut(pkts, n, parts, numbers) && k < |parts|
    ensures Emitted(pkts, n + k) ==
            if k == |parts| - 1 && Consecutive(numbers) && |Flatten(parts)| >= 28 then Some(Flatten(parts)) else None
  {
    var i, out := n + k, Emitted(pkts, n + k);
    if out.Some? {
      EmitsExactly(pkts, i, out.value);
      var j: nat :| Complete(pkts, j, i) && out.value == RunPayload(pkts, j, i);
      CutStarts(pkts, n, parts, numbers, k, j);
      forall m | 0 <= m < |numbers| ensures numbers[m] == (numbers[0] + m) % 0x1_0000 {
        NumbersFollow(pkts, n, parts, numbers, m);
      }
      assert Consecutive(numbers);
    }
    if k == |parts| - 1 && Consecutive(numbers) {
      CutRun(pkts, n, parts, numbers, k);
      assert parts[..k + 1] == parts;
      assert pkts[i] == Packet(numbers[k], true, Part(k == 0, parts[k]));
      if |Flatten(parts)| >= 28 {
        assert Complete(pkts, n, i);
        EmitsExactly(pkts, i, Flatten(parts));
      }
    }
  }

  /** Every frame the assembler yields is long enough for the frame handler. */
  lemma EmittedHasHeader(pkts: seq<Packet>, i: nat)
    requires i < |pkts| && Emitted(pkts, i).Some?
    ensures |Emitted(pkts, i).value| >= HDR_LEN
  {
    EmitsExactly(pkts, i, Emitted(pkts, i).value);
  }
}
