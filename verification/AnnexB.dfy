/** Access units as Annex B byte streams: what buildVideoAccessUnit writes, what
    a splitter written from the standard (ITU-T H.264, section B.1) recovers from
    it, and the whole path of one transport frame through a video sample. */
module AnnexB {
  import opened Bytes
  import opened Frames
  import opened Sei

  const START_CODE: bytes := [0, 0, 0, 1]

  const BASE_SPS: bytes := [
    0x67, 0x42, 0xc0, 0x0a, 0xdd, 0xec, 0x04, 0x40, 0x00, 0x00, 0x03,
    0x00, 0x40, 0x00, 0x00, 0x03, 0x00, 0xa3, 0xc4, 0x89, 0xe0]
  const BASE_PPS: bytes := [0x68, 0xce, 0x0f, 0xc8]
  const BASE_IDR: bytes := [0x65, 0x88, 0x84, 0x3a, 0x26, 0x28, 0x00, 0x09, 0x02, 0xe0]

  // ------------------------------------------------------------------- writing

  method AppendStartCode(dst: bytes, nalu: bytes) returns (out: bytes)
    ensures out == dst + START_CODE + nalu
  {
    out := dst + [0x00, 0x00, 0x00, 0x01];
    out := out + nalu;
  }

  function Stream(nals: seq<bytes>): bytes {
    if nals == [] then [] else START_CODE + nals[0] + Stream(nals[1..])
  }

  lemma {:induction false} StreamAppend(xs: seq<bytes>, ys: seq<bytes>)
    ensures Stream(xs + ys) == Stream(xs) + Stream(ys)
  {
    if xs == [] {
      assert xs + ys == ys;
    } else {
      StreamAppend(xs[1..], ys);
      assert (xs + ys)[1..] == xs[1..] + ys;
    }
  }

  lemma StreamSnoc(xs: seq<bytes>, y: bytes)
    ensures Stream(xs + [y]) == Stream(xs) + START_CODE + y
  {
    StreamAppend(xs, [y]);
    assert Stream([y]) == START_CODE + y + Stream([]);
  }

  /** The NAL units of the access unit for a payload. */
  function UnitNals(payload: bytes): seq<bytes> {
    [BASE_SPS, BASE_PPS] + (if payload != [] then [SeiNal(payload)] else []) + [BASE_IDR]
  }

  lemma UnitBytes(payload: bytes)
    ensures Stream(UnitNals(payload)) ==
            START_CODE + BASE_SPS + START_CODE + BASE_PPS +
            (if payload == [] then [] else START_CODE + SeiNal(payload)) + START_CODE + BASE_IDR
  {
    hide SeiNal;
    StreamSnoc([], BASE_SPS);
    StreamSnoc([BASE_SPS], BASE_PPS);
    var heads := [BASE_SPS] + [BASE_PPS];
    var nals := heads + if payload == [] then [] else [SeiNal(payload)];
    if payload != [] {
      StreamSnoc(heads, SeiNal(payload));
    } else {
      assert nals == heads;
    }
    StreamSnoc(nals, BASE_IDR);
    assert UnitNals(payload) == nals + [BASE_IDR];
  }

  method BuildVideoAccessUnit(payload: bytes) returns (out: bytes)
    ensures out == Stream(UnitNals(payload))
    ensures out == START_CODE + BASE_SPS + START_CODE + BASE_PPS +
                   (if payload == [] then [] else START_CODE + SeiNal(payload)) + START_CODE + BASE_IDR
  {
    out := AppendStartCode([], BASE_SPS);
    out := AppendStartCode(out, BASE_PPS);
    StreamSnoc([], BASE_SPS);
    StreamSnoc([BASE_SPS], BASE_PPS);
    ghost var nals := [BASE_SPS] + [BASE_PPS];
    if |payload| > 0 {
      var sei := BuildSEINAL(payload);
      StreamSnoc(nals, sei);
      nals := nals + [sei];
      out := AppendStartCode(out, sei);
    }
    StreamSnoc(nals, BASE_IDR);
    assert UnitNals(payload) == nals + [BASE_IDR];
    out := AppendStartCode(out, BASE_IDR);
    UnitBytes(payload);
  }

  // ----------------------------------------------------------------- splitting

  /** A NAL unit ends where the next three bytes are 00 00 00 or 00 00 01. */
  predicate AtBoundary(s: bytes) {
    |s| >= 3 && s[0] == 0 && s[1] == 0 && s[2] <= 1
  }

  predicate AtStartCode(s: bytes) {
    |s| >= 3 && s[0] == 0 && s[1] == 0 && s[2] == 1
  }

  function NalEnd(s: bytes): (n: nat)
    ensures n <= |s|
  {
    if s == [] || AtBoundary(s) then 0 else 1 + NalEnd(s[1..])
  }

  /** What follows the first start code prefix. */
  function AfterStartCode(s: bytes): (r: Option<bytes>)
    ensures r.Some? ==> |r.value| < |s|
  {
    if s == [] then None else if AtStartCode(s) then Some(s[3..]) else AfterStartCode(s[1..])
  }

  function Split(s: bytes): seq<bytes>
    decreases |s|
  {
    match AfterStartCode(s)
    case None => []
    case Some(t) => [t[..NalEnd(t)]] + Split(t[NalEnd(t)..])
  }

  /** A NAL unit that can stand in a byte stream: no boundary inside, and no zero
      byte at its end to run into the next start code. */
  ghost predicate Streamable(n: bytes) {
    n != [] && n[|n| - 1] != 0 && forall i :: 0 <= i <= |n| ==> !AtBoundary(n[i..])
  }

  lemma {:induction false} NalEndsAt(n: bytes, rest: bytes)
    requires Streamable(n) && (rest == [] || START_CODE <= rest)
    ensures NalEnd(n + rest) == |n|
  {
    var s := n + rest;
    assert s[1..] == n[1..] + rest;
    assert !AtBoundary(s) by {
      assert !AtBoundary(n[0..]) && n[0..] == n;
    }
    if |n| == 1 {
      assert s[1..] == rest;
    } else {
      assert forall i :: 0 <= i <= |n[1..]| ==> n[1..][i..] == n[i + 1..];
      NalEndsAt(n[1..], rest);
    }
  }

  /** Splitting recovers any list of NAL units that can stand in a byte stream. */
  lemma {:induction false} SplitStream(nals: seq<bytes>)
    requires forall k :: 0 <= k < |nals| ==> Streamable(nals[k])
    ensures Split(Stream(nals)) == nals
  {
    if nals == [] {
    } else {
      var n, rest := nals[0], Stream(nals[1..]);
      var s := START_CODE + n + rest;
      assert !AtStartCode(s) && s[1..] == [0, 0, 1] + n + rest;
      assert AtStartCode(s[1..]) && s[1..][3..] == n + rest;
      assert AfterStartCode(s) == Some(n + rest);
      NalEndsAt(n, rest);
      SplitStream(nals[1..]);
      assert (n + rest)[..|n|] == n && (n + rest)[|n|..] == rest;
    }
  }

  lemma NoBoundaryInside(n: bytes, rest: bytes, j: nat)
    requires Streamable(n) && j < |n|
    ensures !AtBoundary((n + rest)[j..])
  {
    if j + 2 < |n| {
      assert !AtBoundary(n[j..]);
    }
  }

  /** The start code of NAL unit k begins, with its extra zero byte, where the
      stream of the units before it ends. */
  ghost predicate Placed(nals: seq<bytes>, i: nat) {
    exists k :: 0 <= k < |nals| && i == |Stream(nals[..k])| + 1
  }

  lemma PlacedNext(nals: seq<bytes>, i: nat)
    requires nals != [] && i >= |START_CODE| + |nals[0]|
    ensures Placed(nals, i) <==> Placed(nals[1..], i - |START_CODE| - |nals[0]|)
  {
    var d := |START_CODE| + |nals[0]|;
    forall k | 1 <= k <= |nals| ensures |Stream(nals[..k])| == d + |Stream(nals[1..][..k - 1])| {
      assert nals[..k][1..] == nals[1..][..k - 1];
    }
    if Placed(nals, i) {
      var k :| 0 <= k < |nals| && i == |Stream(nals[..k])| + 1;
      assert k >= 1 ==> i - d == |Stream(nals[1..][..k - 1])| + 1;
    }
    if Placed(nals[1..], i - d) {
      var k :| 0 <= k < |nals[1..]| && i - d == |Stream(nals[1..][..k])| + 1;
      assert i == |Stream(nals[..k + 1])| + 1;
    }
  }

  lemma PlacedFirst(nals: seq<bytes>, i: nat)
    requires nals != [] && i < |START_CODE| + |nals[0]|
    ensures Placed(nals, i) <==> i == 1
  {
    assert nals[..0] == [] && Stream(nals[..0]) == [];
    forall k | 1 <= k < |nals| ensures |Stream(nals[..k])| >= |START_CODE| + |nals[0]| {
      assert nals[..k][0] == nals[0];
    }
    if i == 1 {
      assert i == |Stream(nals[..0])| + 1;
    }
  }

  /** A start code prefix occurs in a stream exactly where the writer put one. */
  lemma {:induction false} StartCodesExactly(nals: seq<bytes>, i: nat)
    requires forall k :: 0 <= k < |nals| ==> Streamable(nals[k])
    requires i <= |Stream(nals)|
    ensures AtStartCode(Stream(nals)[i..]) <==> Placed(nals, i)
    decreases |nals|
  {
    if nals == [] {
    } else {
      var n, rest := nals[0], Stream(nals[1..]);
      var s := Stream(nals);
      var d := |START_CODE| + |n|;
      assert s == START_CODE + n + rest;
      if i < d {
        PlacedFirst(nals, i);
        if i >= 4 {
          NoBoundaryInside(n, rest, i - 4);
          assert s[i..] == (n + rest)[i - 4..];
        }
      } else {
        PlacedNext(nals, i);
        assert s[i..] == rest[i - d..];
        StartCodesExactly(nals[1..], i - d);
      }
    }
  }

  lemma CleanHasNoBoundary(n: bytes)
    requires Clean(n)
    ensures forall i :: 0 <= i <= |n| ==> !AtBoundary(n[i..])
  {
  }

  lemma BasesStreamable()
    ensures Streamable(BASE_SPS) && Streamable(BASE_PPS) && Streamable(BASE_IDR)
  {
    forall i | 0 <= i && i + 2 < |BASE_SPS|
      ensures !(BASE_SPS[i] == 0 && BASE_SPS[i + 1] == 0 && BASE_SPS[i + 2] <= 2)
    {
    }
    assert Clean(BASE_SPS) && Clean(BASE_PPS) && Clean(BASE_IDR);
    CleanHasNoBoundary(BASE_SPS);
    CleanHasNoBoundary(BASE_PPS);
    CleanHasNoBoundary(BASE_IDR);
  }

  lemma SeiNalStreamable(payload: bytes)
    ensures Streamable(SeiNal(payload))
  {
    var rbsp := MessageBytes(Message(USER_DATA, UUID + payload)) + [TRAILER];
    var e := Escaped(0, rbsp);
    EscapedClean(rbsp);
    EscapedLast(0, rbsp);
    var n := SeiNal(payload);
    forall i | 0 <= i && i + 2 < |n| ensures !(n[i] == 0 && n[i + 1] == 0 && n[i + 2] <= 2) {
      if i > 0 {
        assert n[i] == e[i - 1] && n[i + 1] == e[i - 1 + 1] && n[i + 2] == e[i - 1 + 2];
      }
    }
    CleanHasNoBoundary(n);
  }

  lemma UnitStreamable(payload: bytes)
    ensures forall k :: 0 <= k < |UnitNals(payload)| ==> Streamable(UnitNals(payload)[k])
  {
    BasesStreamable();
    SeiNalStreamable(payload);
    hide Streamable, SeiNal;
  }

  /** Start codes stand in an access unit only where the writer put them: a
      splitter recovers precisely SPS, PPS, the SEI of a non-empty payload, IDR. */
  lemma UnitSplits(payload: bytes, i: nat)
    ensures Split(Stream(UnitNals(payload))) == UnitNals(payload)
    ensures i <= |Stream(UnitNals(payload))| ==>
              (AtStartCode(Stream(UnitNals(payload))[i..]) <==> Placed(UnitNals(payload), i))
  {
    UnitStreamable(payload);
    hide Streamable, UnitNals, Split, Stream, Placed;
    SplitStream(UnitNals(payload));
    if i <= |Stream(UnitNals(payload))| {
      StartCodesExactly(UnitNals(payload), i);
    }
  }

  function NalTypes(nals: seq<bytes>): (r: seq<nat>)
    requires forall k :: 0 <= k < |nals| ==> nals[k] != []
    ensures |r| == |nals|
  {
    seq(|nals|, k requires 0 <= k < |nals| && nals[k] != [] => nals[k][0] % 0x20)
  }

  /** The bytes of an access unit: it opens with the SPS and the PPS, ends with the
      IDR, and splits into units of type 7, 8, 6 if there is a payload, and 5. */
  lemma UnitLayout(payload: bytes)
    ensures var unit := Stream(UnitNals(payload));
            && START_CODE + BASE_SPS + START_CODE + BASE_PPS <= unit
            && |unit| >= 14 && unit[|unit| - 14..] == START_CODE + BASE_IDR
            && (forall k :: 0 <= k < |Split(unit)| ==> Split(unit)[k] != [])
            && NalTypes(Split(unit)) == [7, 8] + (if payload == [] then [] else [6]) + [5]
  {
    UnitSplits(payload, 0);
    UnitBytes(payload);
    assert SeiNal(payload) != [] && SeiNal(payload)[0] == 6 by {
      SeiNalLayout(payload);
    }
    hide Split, SeiNal, Stream;
  }

  // ------------------------------------------------------------------- reading

  /** What one NAL unit contributes; anything that is not a well-formed SEI is skipped. */
  function NalPayloads(nal: bytes): seq<bytes> {
    if |nal| < 2 || nal[0] % 0x20 != SEI_NAL then []
    else match Parsed(Unescaped(0, nal[1..]))
      case Failure(_) => []
      case Success(found) => found
  }

  function UnitPayloads(nals: seq<bytes>): seq<bytes> {
    if nals == [] then [] else NalPayloads(nals[0]) + UnitPayloads(nals[1..])
  }

  /** A unit contributes if and only if it is of type 6 and unescapes to serialised
      messages, and then what our messages carry. */
  lemma NalContributesExactly(nal: bytes, out: seq<bytes>)
    requires out != []
    ensures NalPayloads(nal) == out <==>
            |nal| >= 2 && nal[0] % 0x20 == 6 &&
            exists ms, tail ::
              (tail == [] || tail == [0x80]) && Unescaped(0, nal[1..]) == Serialised(ms) + tail && Transported(ms, out)
  {
    if |nal| >= 2 {
      ParsedExactly(Unescaped(0, nal[1..]), out);
    }
    hide Parsed, Unescaped, Serialised, Transported;
  }

  lemma UnitStep(out: seq<bytes>, nals: seq<bytes>)
    requires nals != []
    ensures out + UnitPayloads(nals) == out + NalPayloads(nals[0]) + UnitPayloads(nals[1..])
  {
    hide NalPayloads;
  }

  lemma NoUnits()
    ensures UnitPayloads([]) == []
  {
  }

  /** Units are read one after the other. */
  lemma {:induction false} UnitPayloadsAppend(xs: seq<bytes>, ys: seq<bytes>)
    ensures UnitPayloads(xs + ys) == UnitPayloads(xs) + UnitPayloads(ys)
    ensures xs != [] ==> UnitPayloads([xs[0]]) == NalPayloads(xs[0])
  {
    hide NalPayloads;
    if xs == [] {
      assert xs + ys == ys;
    } else {
      UnitPayloadsAppend(xs[1..], ys);
      assert (xs + ys)[1..] == xs[1..] + ys;
      var first: seq<bytes> := [xs[0]];
      UnitStep([], first);
      assert first[1..] == [];
    }
  }

  method ExtractVideoPayloads(nals: seq<bytes>) returns (payloads: seq<bytes>)
    ensures payloads == UnitPayloads(nals)
  {
    hide Parsed, Unescaped, UnitPayloads;
    payloads := [];
    assert nals[0..] == nals && [] + UnitPayloads(nals) == UnitPayloads(nals);
    for i := 0 to |nals|
      invariant payloads + UnitPayloads(nals[i..]) == UnitPayloads(nals)
    {
      UnitStep(payloads, nals[i..]);
      assert nals[i..][1..] == nals[i + 1..];
      var nal := nals[i];
      if |nal| < 2 || nal[0] % 0x20 != SEI_NAL {
        assert payloads + [] == payloads;
        continue;
      }
      var found := ExtractTransportSEI(nal[1..]);
      if found.Failure? {
        assert payloads + [] == payloads;
        continue;
      }
      payloads := payloads + found.value;
    }
    assert UnitPayloads([]) == [] && payloads + [] == payloads by {
      NoUnits();
    }
  }

  lemma NalContributions(payload: bytes)
    ensures NalPayloads(BASE_SPS) == NalPayloads(BASE_PPS) == NalPayloads(BASE_IDR) == []
    ensures NalPayloads(SeiNal(payload)) == [payload]
  {
    SeiNalCarries(payload);
    SeiNalStreamable(payload);
    hide Parsed, Unescaped;
    assert |SeiNal(payload)| >= 2 && SeiNal(payload)[0] == SEI_NAL by {
      EscapedLast(0, MessageBytes(Message(USER_DATA, UUID + payload)) + [TRAILER]);
    }
  }

  lemma NalsCarry(payload: bytes)
    ensures UnitPayloads(UnitNals(payload)) == if payload == [] then [] else [payload]
  {
    NalContributions(payload);
    hide NalPayloads, SeiNal;
    var nals: seq<bytes> := UnitNals(payload);
    var none: seq<bytes> := [];
    UnitStep([], nals);
    UnitStep([], nals[1..]);
    UnitStep([], nals[2..]);
    if payload != [] {
      UnitStep([], nals[3..]);
      assert nals[3..][1..] == none;
    } else {
      assert nals[2..][1..] == none;
    }
    assert nals[1..][1..] == nals[2..] && (payload != [] ==> nals[2..][1..] == nals[3..]);
  }

  /** An access unit carries exactly its payload; the idle one carries none. */
  lemma UnitCarries(payload: bytes)
    ensures UnitPayloads(Split(Stream(UnitNals(payload)))) == if payload == [] then [] else [payload]
  {
    UnitSplits(payload, 0);
    NalsCarry(payload);
    hide UnitNals, UnitPayloads, Split, Stream;
  }

  function UnitsNals(payloads: seq<bytes>): seq<bytes> {
    if payloads == [] then [] else UnitNals(payloads[0]) + UnitsNals(payloads[1..])
  }

  lemma {:induction false} UnitsStreamable(payloads: seq<bytes>)
    ensures forall k :: 0 <= k < |UnitsNals(payloads)| ==> Streamable(UnitsNals(payloads)[k])
  {
    hide Streamable, UnitNals;
    if payloads == [] {
    } else {
      UnitStreamable(payloads[0]);
      UnitsStreamable(payloads[1..]);
    }
  }

  lemma {:induction false} UnitsPayloads(payloads: seq<bytes>)
    ensures UnitPayloads(UnitsNals(payloads)) == NonEmpty(payloads)
  {
    hide UnitNals;
    if payloads == [] {
    } else {
      NalsCarry(payloads[0]);
      UnitsPayloads(payloads[1..]);
      UnitPayloadsAppend(UnitNals(payloads[0]), UnitsNals(payloads[1..]));
    }
  }

  /** A byte stream of access units carries their payloads in order. */
  lemma UnitsCarry(payloads: seq<bytes>)
    ensures UnitPayloads(Split(Stream(UnitsNals(payloads)))) == NonEmpty(payloads)
  {
    UnitsStreamable(payloads);
    UnitsPayloads(payloads);
    hide Streamable, Stream, Split, UnitsNals, UnitPayloads, NonEmpty;
    SplitStream(UnitsNals(payloads));
  }

  // ---------------------------------------------------------------- whole path

  /** The transport frames a reader finds in a video sample; payloads that are
      not frames of this transport are skipped. */
  function FramesIn(magic: u32, payloads: seq<bytes>): seq<Frame> {
    if payloads == [] then []
    else
      (match Decode(magic, payloads[0]) case Success(f) => [f] case Failure(_) => [])
      + FramesIn(magic, payloads[1..])
  }

  ghost function Wires(magic: u32, fs: seq<Frame>): (r: seq<bytes>)
    ensures |r| == |fs|
  {
    seq(|fs|, k requires 0 <= k < |fs| => Wire(magic, fs[k]))
  }

  lemma {:induction false} FramesRead(magic: u32, fs: seq<Frame>)
    ensures NonEmpty(Wires(magic, fs)) == Wires(magic, fs)
    ensures FramesIn(magic, Wires(magic, fs)) == fs
  {
    hide Wire, Decode;
    if fs == [] {
    } else {
      var w := Wires(magic, fs);
      assert w[1..] == Wires(magic, fs[1..]) && w[0] == Wire(magic, fs[0]);
      assert w[0] != [] by { WireLayout(magic, fs[0]); }
      FramesRead(magic, fs[1..]);
      DecodeWire(magic, fs[0]);
    }
  }

  /** Transport frames written as video samples are read back as themselves, in order. */
  lemma SampleRoundTrip(magic: u32, fs: seq<Frame>)
    ensures FramesIn(magic, UnitPayloads(Split(Stream(UnitsNals(Wires(magic, fs)))))) == fs
  {
    UnitsCarry(Wires(magic, fs));
    FramesRead(magic, fs);
    hide Wires, UnitPayloads, Split, Stream, UnitsNals, FramesIn, NonEmpty;
  }
}
