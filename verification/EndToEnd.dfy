/** The byte stream of muxconn on top of the ARQ: two tunnels, one each way, with
    every Write one encrypted message and every Read an arbitrary slice. */
module EndToEnd {
  import opened Bytes
  import opened ArqTransport
  import opened ArqSystem
  import opened ArqIntake
  import opened ArqSafety
  import opened Muxconn

  /** The plaintext a wire payload adds to the stream; one that does not open adds nothing. */
  function Plain(dec: Decrypt, ciphertext: bytes): bytes {
    match dec(ciphertext) case Some(p) => p case None => []
  }

  function Plains(dec: Decrypt, payloads: seq<bytes>): (r: seq<bytes>)
    ensures |r| == |payloads|
  {
    seq(|payloads|, i requires 0 <= i < |payloads| => Plain(dec, payloads[i]))
  }

  /** One side's conn: the plaintexts of the Writes begun, the bytes its reader
      has taken, and the bytes still buffered for it. */
  datatype Mux = Mux(written: seq<bytes>, got: bytes, buf: bytes)

  datatype Tunnel = Tunnel(net: State, l: Mux, r: Mux)

  datatype Act = Write(plain: bytes, cipher: bytes) | Read(n: nat) | Net(e: Event)

  function Start(): Tunnel {
    Tunnel(Init(), Mux([], [], []), Mux([], [], []))
  }

  function Turn(t: Tunnel): Tunnel {
    Tunnel(Flip(t.net), t.r, t.l)
  }

  /** A step at the left end.  onData is Conn.Push. */
  ghost predicate ActL(cfg: Config, dec: Decrypt, t: Tunnel, a: Act, t': Tunnel)
    requires cfg.Valid()
  {
    match a
    case Write(plain, cipher) =>
      && dec(cipher) == Some(plain)
      && StepL(cfg, t.net, Begin(cipher), t'.net)
      && t' == t.(net := t'.net, l := t.l.(written := t.l.written + [plain]))
    case Read(n) =>
      && n <= |t.l.buf|
      && t' == t.(l := t.l.(got := t.l.got + t.l.buf[..n], buf := t.l.buf[n..]))
    case Net(e) =>
      && !e.Begin?
      && StepL(cfg, t.net, e, t'.net)
      && t' == t.(net := t'.net,
                  l := if e.CallOnData? then t.l.(buf := t.l.buf + Plain(dec, t.net.l.rcv.duty.data)) else t.l)
  }

  ghost predicate TunnelStep(cfg: Config, dec: Decrypt, t: Tunnel, a: Act, left: bool, t': Tunnel)
    requires cfg.Valid()
  {
    if left then ActL(cfg, dec, t, a, t') else ActL(cfg, dec, Turn(t), a, Turn(t'))
  }

  datatype Doing = Doing(a: Act, left: bool)

  ghost predicate IsTunnelRun(cfg: Config, dec: Decrypt, doings: seq<Doing>, trace: seq<Tunnel>)
    requires cfg.Valid()
  {
    && |trace| == |doings| + 1 && trace[0] == Start()
    && forall k :: 0 <= k < |doings| ==> TunnelStep(cfg, dec, trace[k], doings[k].a, doings[k].left, trace[k + 1])
  }

  /** One direction: the messages sent open to the writes, and the far reader's
      bytes are the plaintexts of the messages given to onData. */
  ghost predicate StreamInv(dec: Decrypt, sent: seq<bytes>, written: seq<bytes>, handed: seq<bytes>, far: Mux) {
    && |written| == |sent|
    && (forall k :: 0 <= k < |sent| ==> dec(sent[k]) == Some(written[k]))
    && far.got + far.buf == Flatten(Plains(dec, handed))
  }

  ghost predicate TunnelInv(cfg: Config, dec: Decrypt, t: Tunnel)
    requires cfg.Valid()
  {
    && Inv(cfg, t.net)
    && StreamInv(dec, t.net.l.snd.sent, t.l.written, t.net.r.rcv.handed, t.r)
    && StreamInv(dec, t.net.r.snd.sent, t.r.written, t.net.l.rcv.handed, t.l)
  }

  lemma PlainsSnoc(dec: Decrypt, xs: seq<bytes>, x: bytes)
    ensures Flatten(Plains(dec, xs + [x])) == Flatten(Plains(dec, xs)) + Plain(dec, x)
  {
    assert Plains(dec, xs + [x]) == Plains(dec, xs) + [Plain(dec, x)];
    FlattenSnoc(Plains(dec, xs), Plain(dec, x));
  }

  lemma HistoriesMove(cfg: Config, s: State, e: Event, s': State)
    requires cfg.Valid() && StepL(cfg, s, e, s')
    ensures s'.r == s.r
    ensures s'.l.snd.sent == s.l.snd.sent + (if e.Begin? then [e.data] else [])
    ensures s'.l.rcv.handed == s.l.rcv.handed + (if e.CallOnData? then [s.l.rcv.duty.data] else [])
  {
  }

  lemma ActKeeps(cfg: Config, dec: Decrypt, t: Tunnel, a: Act, t': Tunnel)
    requires cfg.Valid() && TunnelInv(cfg, dec, t) && ActL(cfg, dec, t, a, t')
    ensures TunnelInv(cfg, dec, t')
  {
    if a.Read? {
      hide Inv, Plains, Flatten;
      assert t.l.buf == t.l.buf[..a.n] + t.l.buf[a.n..];
      assert t'.l.got + t'.l.buf == t.l.got + t.l.buf;
    } else {
      hide Inv, Plains, Flatten;
      var e := if a.Write? then Begin(a.cipher) else a.e;
      HistoriesMove(cfg, t.net, e, t'.net);
      StepKeeps(cfg, t.net, e, true, t'.net);
      hide StepL, Plain;
      assert Flip(t'.net).l == t'.net.r;
      if e.CallOnData? {
        PlainsSnoc(dec, t.net.l.rcv.handed, t.net.l.rcv.duty.data);
      }
    }
  }

  lemma FlipHolds(cfg: Config, s: State)
    requires cfg.Valid() && Inv(cfg, s)
    ensures Inv(cfg, Flip(s))
  {
    assert Flip(Flip(s)) == s;
    hide Dir;
  }

  lemma {:induction false} TunnelRunKeeps(cfg: Config, dec: Decrypt, doings: seq<Doing>, trace: seq<Tunnel>, k: nat)
    requires cfg.Valid() && IsTunnelRun(cfg, dec, doings, trace) && k < |trace|
    ensures TunnelInv(cfg, dec, trace[k])
  {
    if k == 0 {
      InitHolds(cfg);
    } else {
      var p := k - 1;
      TunnelRunKeeps(cfg, dec, doings, trace, p);
      assert TunnelStep(cfg, dec, trace[p], doings[p].a, doings[p].left, trace[p + 1]);
      hide Inv, ActL, StreamInv;
      var t, t' := trace[p], trace[k];
      assert Flip(Flip(t.net)) == t.net && Flip(Flip(t'.net)) == t'.net;
      if doings[p].left {
        ActKeeps(cfg, dec, t, doings[p].a, t');
      } else {
        FlipHolds(cfg, t.net);
        ActKeeps(cfg, dec, Turn(t), doings[p].a, Turn(t'));
        FlipHolds(cfg, Flip(t'.net));
      }
    }
  }

  ghost predicate HasAll(qs: seq<u32>, c: nat) {
    forall q: int :: 1 <= q <= c ==> q in qs
  }

  ghost predicate InWrites(qs: seq<u32>, n: nat) {
    forall i :: 0 <= i < |qs| ==> 1 <= qs[i] <= n
  }

  /** An increasing list of positions that has every completed one and at most
      one more is an initial segment. */
  lemma {:induction false} InitialSegment(qs: seq<u32>, c: nat, n: nat, j: nat)
    requires Increasing(qs) && n <= c + 1
    requires InWrites(qs, n)
    requires HasAll(qs, c)
    requires j < |qs|
    ensures qs[j] == j + 1
    decreases j
  {
    if j == 0 {
    } else {
      InitialSegment(qs, c, n, j - 1);
    }
    assert qs[j] >= j + 1;
    if j < c {
      assert j + 1 in qs;
      var i :| 0 <= i < |qs| && qs[i] == j + 1;
      if i < j {
        InitialSegment(qs, c, n, i);
      }
    }
  }

  lemma SegmentLength(qs: seq<u32>, c: nat, n: nat)
    requires Increasing(qs) && n <= c + 1
    requires InWrites(qs, n)
    requires HasAll(qs, c)
    ensures c <= |qs| <= n
  {
    if c > 0 {
      assert c in qs;
      var i :| 0 <= i < |qs| && qs[i] == c;
      InitialSegment(qs, c, n, i);
    }
    if |qs| > 0 {
      InitialSegment(qs, c, n, |qs| - 1);
    }
  }

  ghost function Side(t: Tunnel, left: bool): Tunnel {
    if left then t else Turn(t)
  }

  /** The Writes at the given positions. */
  ghost function Picked(written: seq<bytes>, qs: seq<u32>): (r: seq<bytes>)
    requires InWrites(qs, |written|)
  {
    seq(|qs|, i requires 0 <= i < |qs| && InWrites(qs, |written|) => written[qs[i] - 1])
  }

  lemma HandedAreWrites(cfg: Config, dec: Decrypt, t: Tunnel)
    requires cfg.Valid() && Inv(cfg, t.net) && WithinLimits(cfg, t.net.l.snd.sent)
    requires StreamInv(dec, t.net.l.snd.sent, t.l.written, t.net.r.rcv.handed, t.r)
    ensures Increasing(t.net.r.rcv.handedSeq) && InWrites(t.net.r.rcv.handedSeq, |t.l.written|)
    ensures t.r.got + t.r.buf == Flatten(Picked(t.l.written, t.net.r.rcv.handedSeq))
  {
    hide Flow, SenderInv, FeedbackInv, WithinLimits, PendingInv, DeliveredInv;
    var far, sent := t.net.r.rcv, t.net.l.snd.sent;
    var qs := far.handedSeq;
    assert IntakeInv(cfg, sent, far);
    forall i, j | 0 <= i < j < |qs| ensures qs[i] < qs[j] {
      assert Increasing(Promised(far));
      assert Promised(far)[i] < Promised(far)[j];
    }
    forall i | 0 <= i < |qs| ensures Known(sent, qs[i]) && far.handed[i] == sent[qs[i] - 1] {
    }
    hide IntakeInv, Inv;
    assert Plains(dec, far.handed) == Picked(t.l.written, qs);
  }

  lemma SideHolds(cfg: Config, dec: Decrypt, doings: seq<Doing>, trace: seq<Tunnel>, k: nat, left: bool)
    requires cfg.Valid() && IsTunnelRun(cfg, dec, doings, trace) && k < |trace|
    ensures TunnelInv(cfg, dec, Side(trace[k], left))
  {
    TunnelRunKeeps(cfg, dec, doings, trace, k);
    FlipHolds(cfg, trace[k].net);
    hide Inv, StreamInv, IsTunnelRun;
  }

  /** The bytes the far reader has taken or can still take are always the
      plaintexts of Writes, whole and in order; some Write that failed, or is
      still in progress, may be missing. */
  lemma StreamIsWholeWrites(cfg: Config, dec: Decrypt, doings: seq<Doing>, trace: seq<Tunnel>, k: nat, left: bool)
    requires cfg.Valid() && IsTunnelRun(cfg, dec, doings, trace) && k < |trace|
    requires WithinLimits(cfg, Side(trace[k], left).net.l.snd.sent)
    ensures var t := Side(trace[k], left);
            exists qs :: Increasing(qs) && InWrites(qs, |t.l.written|) &&
                         t.r.got + t.r.buf == Flatten(Picked(t.l.written, qs))
  {
    SideHolds(cfg, dec, doings, trace, k, left);
    HandedAreWrites(cfg, dec, Side(trace[k], left));
    hide IsTunnelRun, TunnelInv, WithinLimits, Flatten, Picked, Increasing, InWrites;
  }

  lemma CompletedAreHanded(cfg: Config, s: State)
    requires cfg.Valid() && Inv(cfg, s) && WithinLimits(cfg, s.l.snd.sent)
    requires forall i :: 0 <= i < |s.l.snd.outcomes| ==> s.l.snd.outcomes[i] == Acked
    ensures HasAll(s.r.rcv.handedSeq, |s.l.snd.outcomes|)
    ensures |s.l.snd.outcomes| <= |s.l.snd.sent| <= |s.l.snd.outcomes| + 1
  {
    hide Flow, IntakeInv;
    var c := |s.l.snd.outcomes|;
    forall q: int | 1 <= q <= c ensures q in s.r.rcv.handedSeq {
      assert s.l.snd.outcomes[q - 1] == Acked;
    }
  }

  /** End to end: if every Write that has returned succeeded, the reader's bytes
      extend the completed Writes and are a prefix of all Writes begun. */
  lemma EndToEndStream(cfg: Config, dec: Decrypt, doings: seq<Doing>, trace: seq<Tunnel>, k: nat, left: bool)
    requires cfg.Valid() && IsTunnelRun(cfg, dec, doings, trace) && k < |trace|
    requires WithinLimits(cfg, Side(trace[k], left).net.l.snd.sent)
    requires var snd := Side(trace[k], left).net.l.snd;
             forall i :: 0 <= i < |snd.outcomes| ==> snd.outcomes[i] == Acked
    ensures var t := Side(trace[k], left);
            exists m :: |t.net.l.snd.outcomes| <= m <= |t.l.written| && t.r.got + t.r.buf == Flatten(t.l.written[..m])
  {
    var t := Side(trace[k], left);
    SideHolds(cfg, dec, doings, trace, k, left);
    HandedAreWrites(cfg, dec, t);
    CompletedAreHanded(cfg, t.net);
    assert |t.l.written| == |t.net.l.snd.sent|;
    hide IsTunnelRun, TunnelInv, WithinLimits, Side;
    var qs, c, n := t.net.r.rcv.handedSeq, |t.net.l.snd.outcomes|, |t.l.written|;
    SegmentLength(qs, c, n);
    forall i | 0 <= i < |qs| ensures qs[i] == i + 1 {
      InitialSegment(qs, c, n, i);
    }
    assert Picked(t.l.written, qs) == t.l.written[..|qs|];
  }

  /** The same conclusion, read as two prefix relations. */
  lemma StreamBetweenWrites(cfg: Config, dec: Decrypt, doings: seq<Doing>, trace: seq<Tunnel>, k: nat, left: bool)
    requires cfg.Valid() && IsTunnelRun(cfg, dec, doings, trace) && k < |trace|
    requires WithinLimits(cfg, Side(trace[k], left).net.l.snd.sent)
    requires var snd := Side(trace[k], left).net.l.snd;
             forall i :: 0 <= i < |snd.outcomes| ==> snd.outcomes[i] == Acked
    ensures var t := Side(trace[k], left);
            && |t.net.l.snd.outcomes| <= |t.l.written|
            && Flatten(t.l.written[..|t.net.l.snd.outcomes|]) <= t.r.got + t.r.buf <= Flatten(t.l.written)
  {
    EndToEndStream(cfg, dec, doings, trace, k, left);
    var t := Side(trace[k], left);
    var w, c := t.l.written, |t.net.l.snd.outcomes|;
    var m :| c <= m <= |w| && t.r.got + t.r.buf == Flatten(w[..m]);
    FlattenCut(w[..m], c);
    FlattenCut(w, m);
    assert w[..m][..c] == w[..c];
  }
}
