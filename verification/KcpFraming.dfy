/** Message boundaries on top of the KCP byte stream: a 4-byte length, then the
    message.  KCP itself is taken as a reliable ordered byte stream. */
module KcpFraming {
  import opened Bytes

  const LEN_PREFIX := 4
  const MAX_MESSAGE := 8 * 1024 * 1024

  function Framed(msg: bytes): (r: bytes)
    ensures |r| == LEN_PREFIX + |msg|
  {
    U32Bytes(ToU32(|msg|)) + msg
  }

  function Stream(msgs: seq<bytes>): bytes {
    if msgs == [] then [] else Framed(msgs[0]) + Stream(msgs[1..])
  }

  lemma {:induction false} StreamSnoc(msgs: seq<bytes>, msg: bytes)
    ensures Stream(msgs + [msg]) == Stream(msgs) + Framed(msg)
  {
    if msgs == [] {
      assert [msg][1..] == [];
    } else {
      StreamSnoc(msgs[1..], msg);
      assert (msgs + [msg])[1..] == msgs[1..] + [msg];
    }
  }

  ghost predicate Sendable(msgs: seq<bytes>) {
    forall k :: 0 <= k < |msgs| ==> |msgs[k]| <= MAX_MESSAGE
  }

  lemma Assoc<T>(a: seq<T>, b: seq<T>, c: seq<T>)
    ensures a + (b + c) == (a + b) + c
  {
  }

  /** A header that a dying session took without its payload. */
  ghost predicate Torn(s: bytes) {
    s == [] || exists size: u32 :: size <= MAX_MESSAGE && s == U32Bytes(size)
  }

  lemma HeaderIsTorn(msg: bytes)
    requires |msg| <= MAX_MESSAGE
    ensures ToU32(|msg|) == |msg| && Torn(U32Bytes(|msg|)) && U32Bytes(|msg|) != []
    ensures Framed(msg) == U32Bytes(|msg|) + msg
  {
    var size: u32 := |msg|;
    assert Torn(U32Bytes(size));
  }

  datatype SendResult = Sent | TooLarge | HeaderFails | PayloadFails

  /** The writing end.  Write of the KCP session takes all its bytes or, once the
      session has died, fails for ever.  accepted lists the messages sent whole,
      torn what a send that failed half-way has left behind them. */
  class KcpRuntime {
    var dead: bool
    var written: bytes
    ghost var accepted: seq<bytes>
    ghost var torn: bytes

    ghost predicate Valid()
      reads this
    {
      && written == Stream(accepted) + torn && Sendable(accepted)
      && Torn(torn) && (torn != [] ==> dead)
    }

    constructor ()
      ensures Valid() && accepted == [] && torn == [] && !dead
    {
      dead, written, accepted, torn := false, [], [], [];
    }

    /** send, for a session that dies before either of its writes or not at all. */
    method Send(msg: bytes, diesFirst: bool, diesBetween: bool) returns (r: SendResult)
      requires Valid()
      modifies this
      ensures Valid()
      ensures r.TooLarge? <==> |msg| > MAX_MESSAGE
      ensures r.HeaderFails? <==> |msg| <= MAX_MESSAGE && (old(dead) || diesFirst)
      ensures r.Sent? <==> |msg| <= MAX_MESSAGE && !old(dead) && !diesFirst && !diesBetween
      ensures accepted == old(accepted) + (if r.Sent? then [msg] else [])
      ensures torn == (if r.PayloadFails? then U32Bytes(|msg|) else old(torn))
      ensures dead == (old(dead) || r.HeaderFails? || r.PayloadFails?)
    {
      if |msg| > MAX_MESSAGE {
        return TooLarge;
      }
      HeaderIsTorn(msg);
      hide U32Bytes, ToU32, Stream, Framed, Torn;
      var hdr := U32Bytes(ToU32(|msg|));
      if dead || diesFirst {
        dead := true;
        return HeaderFails;
      }
      assert written == Stream(accepted) by {
        assert Stream(accepted) + [] == Stream(accepted);
      }
      written := written + hdr;
      if diesBetween {
        dead, torn := true, hdr;
        return PayloadFails;
      }
      StreamSnoc(accepted, msg);
      Assoc(Stream(accepted), hdr, msg);
      written := written + msg;
      accepted := accepted + [msg];
      assert written + [] == written;
      return Sent;
    }
  }

  /** The messages readLoop hands up from the bytes received so far. */
  function Deframed(s: bytes): seq<bytes>
    decreases |s|
  {
    if |s| < LEN_PREFIX then []
    else
      var size, rest := ReadU32(s[..LEN_PREFIX]), s[LEN_PREFIX..];
      if size == 0 then Deframed(rest)
      else if size > MAX_MESSAGE || size > |rest| then []
      else [rest[..size]] + Deframed(rest[size..])
  }

  lemma Halves(stream: bytes, from: nat, size: nat)
    requires from + size <= |stream|
    ensures stream[from..][..size] == stream[from..from + size]
    ensures stream[from..][size..] == stream[from + size..]
  {
  }

  lemma DeframeHead(s: bytes)
    ensures Deframed(s) ==
            if |s| < LEN_PREFIX then []
            else
              var size, rest := ReadU32(s[..LEN_PREFIX]), s[LEN_PREFIX..];
              if size == 0 then Deframed(rest)
              else if size > MAX_MESSAGE || size > |rest| then []
              else [rest[..size]] + Deframed(rest[size..])
  {
    hide ReadU32;
  }

  /** One round of the reading loop, at a position. */
  lemma DeframeAt(stream: bytes, pos: nat)
    requires pos <= |stream|
    ensures Deframed(stream[pos..]) ==
            if pos + LEN_PREFIX > |stream| then []
            else
              var size, from := ReadU32(stream[pos..pos + LEN_PREFIX]), pos + LEN_PREFIX;
              if size == 0 then Deframed(stream[from..])
              else if size > MAX_MESSAGE || from + size > |stream| then []
              else [stream[from..from + size]] + Deframed(stream[from + size..])
  {
    hide Deframed, ReadU32;
    DeframeHead(stream[pos..]);
    if pos + LEN_PREFIX <= |stream| {
      Halves(stream, pos, LEN_PREFIX);
      var from := pos + LEN_PREFIX;
      var size := ReadU32(stream[pos..from]);
      if from + size <= |stream| {
        Halves(stream, from, size);
      }
    }
  }

  lemma Regroup(handed: seq<bytes>, msg: bytes, rest: seq<bytes>)
    ensures handed + ([msg] + rest) == (handed + [msg]) + rest
    ensures handed + [] == handed && [] + rest == rest
  {
  }

  method ReadLoop(stream: bytes) returns (handed: seq<bytes>)
    ensures handed == Deframed(stream)
  {
    hide Deframed, ReadU32;
    handed := [];
    var pos := 0;
    assert stream[0..] == stream;
    Regroup([], [], Deframed(stream));
    while true
      invariant 0 <= pos <= |stream|
      invariant handed + Deframed(stream[pos..]) == Deframed(stream)
      decreases |stream| - pos
    {
      DeframeAt(stream, pos);
      Regroup(handed, [], []);
      if pos + LEN_PREFIX > |stream| {
        return;
      }
      var size := ReadU32(stream[pos..pos + LEN_PREFIX]);
      pos := pos + LEN_PREFIX;
      if size == 0 {
        continue;
      }
      if size > MAX_MESSAGE {
        return;
      }
      if pos + size > |stream| {
        return;
      }
      Regroup(handed, stream[pos..pos + size], Deframed(stream[pos + size..]));
      handed := handed + [stream[pos..pos + size]];
      pos := pos + size;
    }
  }

  /** How many of the framed messages lie wholly within the first n bytes. */
  function Whole(msgs: seq<bytes>, n: nat): (c: nat)
    ensures c <= |msgs|
  {
    if msgs == [] || n < |Framed(msgs[0])| then 0 else 1 + Whole(msgs[1..], n - |Framed(msgs[0])|)
  }

  lemma FramedHeader(msg: bytes)
    requires |msg| <= MAX_MESSAGE
    ensures ReadU32(Framed(msg)[..LEN_PREFIX]) == |msg| && Framed(msg)[LEN_PREFIX..] == msg
  {
    HeaderIsTorn(msg);
    ReadU32Inverse(|msg|, [0, 0, 0, 0]);
    hide ReadU32, U32Bytes, Framed, ToU32;
    assert (U32Bytes(|msg|) + msg)[..LEN_PREFIX] == U32Bytes(|msg|);
  }

  lemma DeframedFirst(msg: bytes, rest: bytes)
    requires |msg| <= MAX_MESSAGE
    ensures Deframed(Framed(msg) + rest) == (if msg == [] then [] else [msg]) + Deframed(rest)
  {
    FramedHeader(msg);
    hide ReadU32, U32Bytes;
    var s := Framed(msg) + rest;
    assert s[..LEN_PREFIX] == Framed(msg)[..LEN_PREFIX] && s[LEN_PREFIX..] == msg + rest;
    assert (msg + rest)[..|msg|] == msg && (msg + rest)[|msg|..] == rest;
    assert msg == [] ==> msg + rest == rest;
  }

  lemma DeframedPartial(msg: bytes, n: nat)
    requires |msg| <= MAX_MESSAGE && n < |Framed(msg)|
    ensures Deframed(Framed(msg)[..n]) == []
  {
    FramedHeader(msg);
    hide ReadU32, U32Bytes;
    if n >= LEN_PREFIX {
      assert Framed(msg)[..n][..LEN_PREFIX] == Framed(msg)[..LEN_PREFIX];
    }
  }

  /** From any prefix of what was sent, the reader hands up exactly the non-empty
      messages that lie wholly within it, in order and with their boundaries. */
  lemma {:induction false} PrefixDeframes(msgs: seq<bytes>, n: nat)
    requires Sendable(msgs) && n <= |Stream(msgs)|
    ensures Deframed(Stream(msgs)[..n]) == NonEmpty(msgs[..Whole(msgs, n)])
    decreases |msgs|
  {
    if msgs == [] {
    } else {
      var msg, rest := msgs[0], Stream(msgs[1..]);
      var d := |Framed(msg)|;
      if n < d {
        DeframedPartial(msg, n);
        hide Deframed, Framed;
        assert Stream(msgs)[..n] == Framed(msg)[..n];
      } else {
        hide Framed, Deframed;
        PrefixDeframes(msgs[1..], n - d);
        DeframedFirst(msg, rest[..n - d]);
        assert Stream(msgs)[..n] == Framed(msg) + rest[..n - d];
        var c := Whole(msgs[1..], n - d);
        assert msgs[..c + 1][1..] == msgs[1..][..c];
      }
    }
  }

  lemma {:induction false} WholeStream(msgs: seq<bytes>)
    ensures Whole(msgs, |Stream(msgs)|) == |msgs|
  {
    if msgs == [] {
    } else {
      WholeStream(msgs[1..]);
    }
  }

  /** The full stream yields every non-empty message. */
  lemma StreamDeframes(msgs: seq<bytes>)
    requires Sendable(msgs)
    ensures Deframed(Stream(msgs)) == NonEmpty(msgs)
  {
    PrefixDeframes(msgs, |Stream(msgs)|);
    WholeStream(msgs);
    assert Stream(msgs)[..|Stream(msgs)|] == Stream(msgs) && msgs[..|msgs|] == msgs;
  }

  lemma StreamCons(msg: bytes, msgs: seq<bytes>, rest: bytes)
    ensures Stream([msg] + msgs) + rest == Framed(msg) + (Stream(msgs) + rest)
    ensures NonEmpty([msg] + msgs) == (if msg == [] then [] else [msg]) + NonEmpty(msgs)
  {
    assert ([msg] + msgs)[1..] == msgs;
  }

  /** Whole messages do not affect how what follows them is read. */
  lemma {:induction false} DeframedBehind(msgs: seq<bytes>, rest: bytes)
    requires Sendable(msgs)
    ensures Deframed(Stream(msgs) + rest) == NonEmpty(msgs) + Deframed(rest)
  {
    if msgs == [] {
      hide Deframed;
      assert Stream(msgs) + rest == rest;
      Regroup([], [], Deframed(rest));
    } else {
      hide Deframed, Framed, Stream, NonEmpty;
      var msg, more := msgs[0], msgs[1..];
      assert msgs == [msg] + more;
      StreamCons(msg, more, rest);
      DeframedBehind(more, rest);
      DeframedFirst(msg, Stream(more) + rest);
      if msg == [] {
        Assoc([], NonEmpty(more), Deframed(rest));
        Regroup([], [], NonEmpty(more) + Deframed(rest));
      } else {
        Assoc([msg], NonEmpty(more), Deframed(rest));
      }
    }
  }

  /** A session that dies half-way through a send costs that message only. */
  lemma TornDeframes(msgs: seq<bytes>, torn: bytes)
    requires Sendable(msgs) && Torn(torn)
    ensures Deframed(Stream(msgs) + torn) == NonEmpty(msgs)
  {
    DeframedBehind(msgs, torn);
    assert Deframed(torn) == [];
  }

  /** Bytes from which the reader can hand up nothing more: a frame still
      incomplete, or a length over the cap. */
  ghost predicate Stuck(s: bytes) {
    |s| < LEN_PREFIX ||
    var size := ReadU32(s[..LEN_PREFIX]);
    size > MAX_MESSAGE || (size > 0 && size > |s| - LEN_PREFIX)
  }

  lemma ThreeParts(s: bytes, a: nat, b: nat)
    requires a <= b <= |s|
    ensures s == (s[..a] + s[a..b]) + s[b..]
  {
  }

  lemma FrameAhead(s: bytes)
    requires !Stuck(s)
    ensures var size := ReadU32(s[..LEN_PREFIX]);
            LEN_PREFIX + size <= |s| && size <= MAX_MESSAGE &&
            s == Framed(s[LEN_PREFIX..LEN_PREFIX + size]) + s[LEN_PREFIX + size..]
  {
    ReadU32Inverse(0, s[..LEN_PREFIX]);
    hide ReadU32, U32Bytes, Framed, ToU32;
    var size := ReadU32(s[..LEN_PREFIX]);
    ThreeParts(s, LEN_PREFIX, LEN_PREFIX + size);
    HeaderIsTorn(s[LEN_PREFIX..LEN_PREFIX + size]);
  }

  /** Whatever bytes arrive, they are framed messages followed by bytes on which
      the reader stops, and exactly the non-empty ones among them are handed up. */
  lemma {:induction false} DeframesAnything(s: bytes) returns (msgs: seq<bytes>, rest: bytes)
    ensures s == Stream(msgs) + rest && Sendable(msgs) && Stuck(rest)
    ensures Deframed(s) == NonEmpty(msgs)
    decreases |s|
  {
    if Stuck(s) {
      msgs, rest := [], s;
    } else {
      FrameAhead(s);
      var size := ReadU32(s[..LEN_PREFIX]);
      var msg, more := s[LEN_PREFIX..LEN_PREFIX + size], s[LEN_PREFIX + size..];
      msgs, rest := DeframesAnything(more);
      hide Framed, Stuck, Deframed, Stream, NonEmpty;
      DeframedFirst(msg, more);
      StreamCons(msg, msgs, rest);
      msgs := [msg] + msgs;
    }
  }
}
