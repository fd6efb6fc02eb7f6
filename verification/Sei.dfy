/** The SEI codec: emulation prevention, the 0xFF-run numbers, and the list of
    SEI messages from which the transport picks its own (ITU-T H.264, sections
    7.3.1, 7.4.1 and 7.3.2.3.1). */
module Sei {
  import opened Bytes

  // ------------------------------------------------------ emulation prevention

  /** The escaped form of what follows an output ending in z zero bytes. */
  function Escaped(z: nat, s: bytes): bytes
    decreases |s|
  {
    if s == [] then []
    else if z >= 2 && s[0] <= 3 then [3, s[0]] + Escaped(if s[0] == 0 then 1 else 0, s[1..])
    else [s[0]] + Escaped(if s[0] == 0 then z + 1 else 0, s[1..])
  }

  /** The unescaped form of what follows an input ending in z zero bytes. */
  function Unescaped(z: nat, s: bytes): bytes
    decreases |s|
  {
    if s == [] then []
    else if z >= 2 && s[0] == 3 then Unescaped(0, s[1..])
    else [s[0]] + Unescaped(if s[0] == 0 then z + 1 else 0, s[1..])
  }

  function TrailingZeros(s: bytes): nat {
    if s == [] || s[|s| - 1] != 0 then 0 else TrailingZeros(s[..|s| - 1]) + 1
  }

  lemma TrailingZerosSnoc(s: bytes, b: byte)
    ensures TrailingZeros(s + [b]) == if b == 0 then TrailingZeros(s) + 1 else 0
  {
    assert (s + [b])[..|s|] == s;
  }

  lemma TrailingPair(s: bytes)
    ensures TrailingZeros(s) >= 2 <==> |s| >= 2 && s[|s| - 1] == 0 && s[|s| - 2] == 0
  {
    if |s| >= 1 && s[|s| - 1] == 0 {
      var t := s[..|s| - 1];
      assert |t| >= 1 ==> t[|t| - 1] == s[|s| - 2];
    }
  }

  lemma Regroup(out: bytes, mid: bytes, rest: bytes)
    ensures out + (mid + rest) == out + mid + rest
    ensures |mid| == 2 ==> out + mid == out + [mid[0]] + [mid[1]]
  {
  }

  lemma EscapedStep(out: bytes, z: nat, s: bytes)
    requires s != []
    ensures z >= 2 && s[0] <= 3 ==>
              out + Escaped(z, s) == out + [3] + [s[0]] + Escaped(if s[0] == 0 then 1 else 0, s[1..])
    ensures !(z >= 2 && s[0] <= 3) ==>
              out + Escaped(z, s) == out + [s[0]] + Escaped(if s[0] == 0 then z + 1 else 0, s[1..])
  {
    if z >= 2 && s[0] <= 3 {
      Regroup(out, [3, s[0]], Escaped(if s[0] == 0 then 1 else 0, s[1..]));
    } else {
      Regroup(out, [s[0]], Escaped(if s[0] == 0 then z + 1 else 0, s[1..]));
    }
  }

  lemma UnescapedStep(out: bytes, z: nat, s: bytes)
    requires s != []
    ensures z >= 2 && s[0] == 3 ==> Unescaped(z, s) == Unescaped(0, s[1..])
    ensures !(z >= 2 && s[0] == 3) ==>
              out + Unescaped(z, s) == out + [s[0]] + Unescaped(if s[0] == 0 then z + 1 else 0, s[1..])
  {
    Regroup(out, [s[0]], Unescaped(if s[0] == 0 then z + 1 else 0, s[1..]));
  }

  method EscapeRBSP(rbsp: bytes) returns (out: bytes)
    ensures out == Escaped(0, rbsp)
  {
    out := [];
    var zeroCount := 0;
    assert TrailingZeros(out) == 0 && rbsp[0..] == rbsp;
    for i := 0 to |rbsp|
      invariant zeroCount == TrailingZeros(out) <= 2
      invariant out + Escaped(zeroCount, rbsp[i..]) == Escaped(0, rbsp)
    {
      hide TrailingZeros, Escaped;
      var b := rbsp[i];
      EscapedStep(out, zeroCount, rbsp[i..]);
      assert rbsp[i..][1..] == rbsp[i + 1..];
      if zeroCount >= 2 && b <= 3 {
        TrailingZerosSnoc(out, 3);
        out := out + [3];
        zeroCount := 0;
      }
      TrailingZerosSnoc(out, b);
      out := out + [b];
      if b == 0 {
        zeroCount := zeroCount + 1;
      } else {
        zeroCount := 0;
      }
    }
    assert out + [] == out;
  }

  method UnescapeRBSP(rbsp: bytes) returns (out: bytes)
    ensures out == Unescaped(0, rbsp)
  {
    out := [];
    assert TrailingZeros([]) == 0 && rbsp[..0] == [] && rbsp[0..] == rbsp;
    for i := 0 to |rbsp|
      invariant out + Unescaped(TrailingZeros(rbsp[..i]), rbsp[i..]) == Unescaped(0, rbsp)
    {
      hide TrailingZeros, Unescaped;
      var b := rbsp[i];
      UnescapedStep(out, TrailingZeros(rbsp[..i]), rbsp[i..]);
      assert rbsp[i..][1..] == rbsp[i + 1..];
      TrailingPair(rbsp[..i]);
      TrailingZerosSnoc(rbsp[..i], b);
      assert rbsp[..i] + [b] == rbsp[..i + 1];
      if i >= 2 && b == 3 && rbsp[i - 1] == 0 && rbsp[i - 2] == 0 {
        continue;
      }
      out := out + [b];
    }
    assert out + [] == out;
  }

  /** Unescaping undoes escaping, on every byte string. */
  lemma {:induction false} UnescapeEscape(z: nat, s: bytes)
    ensures Unescaped(z, Escaped(z, s)) == s
    decreases |s|
  {
    if s == [] {
    } else {
      var b := s[0];
      var z' := if b == 0 then (if z >= 2 then 1 else z + 1) else 0;
      UnescapeEscape(z', s[1..]);
      var rest := Escaped(z', s[1..]);
      if z >= 2 && b <= 3 {
        assert Escaped(z, s)[1..] == [b] + rest && ([b] + rest)[1..] == rest;
      } else {
        assert Escaped(z, s) == [b] + rest && ([b] + rest)[1..] == rest;
      }
    }
  }

  /** No 00 00 00, 00 00 01 or 00 00 02 anywhere. */
  ghost predicate Clean(s: bytes) {
    forall i :: 0 <= i && i + 2 < |s| ==> !(s[i] == 0 && s[i + 1] == 0 && s[i + 2] <= 2)
  }

  ghost predicate TidyAt(s: bytes, i: nat) {
    i + 2 < |s| && s[i] == 0 && s[i + 1] == 0 ==> s[i + 2] > 3 || (s[i + 2] == 3 && i + 3 < |s| && s[i + 3] <= 3)
  }

  /** After two zero bytes there is a byte above 3, or an escape that is needed. */
  ghost predicate Tidy(s: bytes) {
    forall i: nat :: TidyAt(s, i)
  }

  /** The same, for bytes that follow z zero bytes. */
  ghost predicate TidyAfter(z: nat, s: bytes)
    decreases |s|
  {
    s == [] ||
    ((z >= 2 ==> s[0] > 3 || (s[0] == 3 && |s| > 1 && s[1] <= 3)) && TidyAfter(if s[0] == 0 then z + 1 else 0, s[1..]))
  }

  function Zeros(z: nat): bytes {
    if z == 0 then [] else if z == 1 then [0] else [0, 0]
  }

  lemma NotTidy(s: bytes, i: nat)
    requires !TidyAt(s, i)
    ensures !Tidy(s)
  {
  }

  lemma TidyIsClean(s: bytes)
    requires Tidy(s)
    ensures Clean(s)
  {
    forall i | 0 <= i && i + 2 < |s| ensures !(s[i] == 0 && s[i + 1] == 0 && s[i + 2] <= 2) {
      assert TidyAt(s, i);
    }
  }

  lemma TidyShift(p: bytes, s: bytes, i: nat)
    ensures TidyAt(p + s, |p| + i) <==> TidyAt(s, i)
  {
  }

  lemma TidyBehind(p: bytes, s: bytes)
    ensures Tidy(p + s) <==> Tidy(s) && forall i: nat :: i < |p| ==> TidyAt(p + s, i)
  {
    forall i: nat ensures TidyAt(p + s, |p| + i) <==> TidyAt(s, i) {
      TidyShift(p, s, i);
    }
    hide TidyAt;
    if Tidy(p + s) {
      forall i: nat ensures TidyAt(s, i) {
        assert TidyAt(p + s, |p| + i);
      }
    }
    if Tidy(s) && forall i: nat :: i < |p| ==> TidyAt(p + s, i) {
      forall i: nat ensures TidyAt(p + s, i) {
        if i >= |p| {
          assert TidyAt(s, i - |p|) && |p| + (i - |p|) == i;
        }
      }
    }
  }

  /** Before a byte other than zero at most two zeros matter. */
  lemma TidyZeros(z: nat, s: bytes)
    requires s != [] && s[0] != 0
    ensures Tidy(Zeros(z) + s) <==> Tidy(s[1..]) && (z >= 2 ==> s[0] > 3 || (s[0] == 3 && |s| > 1 && s[1] <= 3))
  {
    var p, t := Zeros(z) + [s[0]], Zeros(z) + s;
    assert t == p + s[1..];
    TidyBehind(p, s[1..]);
    hide Tidy;
    assert |p| == |Zeros(z)| + 1 && p[|p| - 1] == t[|p| - 1] == s[0];
    assert TidyAt(t, |p| - 1) && (|p| >= 2 ==> TidyAt(t, |p| - 2));
    assert |p| == 3 ==> t[0] == 0 && t[1] == 0 && t[2] == s[0] && (|t| > 3 <==> |s| > 1) && (|s| > 1 ==> t[3] == s[1]);
    assert z >= 2 ==> (TidyAt(t, 0) <==> s[0] > 3 || (s[0] == 3 && |s| > 1 && s[1] <= 3));
  }

  lemma {:induction false} TidyAfterMeans(z: nat, s: bytes)
    ensures TidyAfter(z, s) <==> Tidy(Zeros(z) + s)
    decreases |s|
  {
    var p := Zeros(z) + s;
    if s == [] {
    } else {
      var z' := if s[0] == 0 then z + 1 else 0;
      TidyAfterMeans(z', s[1..]);
      if s[0] == 0 {
        hide Tidy;
        if z < 2 {
          assert Zeros(z') + s[1..] == p;
        } else {
          assert !TidyAt(p, 0);
          assert !Tidy(p) by { NotTidy(p, 0); }
        }
      } else {
        TidyZeros(z, s);
        assert Zeros(0) + s[1..] == s[1..];
      }
    }
  }

  lemma {:induction false} EscapedTidyAfter(z: nat, s: bytes)
    ensures TidyAfter(z, Escaped(z, s))
    decreases |s|
  {
    if s == [] {
    } else {
      var b := s[0];
      if z >= 2 && b <= 3 {
        var rest := Escaped(if b == 0 then 1 else 0, s[1..]);
        EscapedTidyAfter(if b == 0 then 1 else 0, s[1..]);
        assert ([b] + rest)[1..] == rest;
        assert TidyAfter(0, [b] + rest);
        assert ([3, b] + rest)[1..] == [b] + rest;
      } else {
        var rest := Escaped(if b == 0 then z + 1 else 0, s[1..]);
        EscapedTidyAfter(if b == 0 then z + 1 else 0, s[1..]);
        assert ([b] + rest)[1..] == rest;
      }
    }
  }

  /** Escaped output is free of the three forbidden triples. */
  lemma EscapedClean(s: bytes)
    ensures Clean(Escaped(0, s))
  {
    EscapedTidyAfter(0, s);
    TidyAfterMeans(0, Escaped(0, s));
    assert Zeros(0) + Escaped(0, s) == Escaped(0, s);
    hide Tidy, Clean;
    TidyIsClean(Escaped(0, s));
  }

  lemma {:induction false} EscapeUnescape(z: nat, e: bytes)
    requires TidyAfter(z, e)
    ensures Escaped(z, Unescaped(z, e)) == e
    decreases |e|
  {
    if e == [] {
    } else if z >= 2 && e[0] == 3 {
      var z' := if e[1] == 0 then 1 else 0;
      assert e[1..][1..] == e[2..] && e == [3, e[1]] + e[2..];
      EscapeUnescape(z', e[2..]);
      assert Unescaped(z, e) == [e[1]] + Unescaped(z', e[2..]);
    } else {
      var z' := if e[0] == 0 then z + 1 else 0;
      EscapeUnescape(z', e[1..]);
      assert Unescaped(z, e) == [e[0]] + Unescaped(z', e[1..]);
    }
  }

  /** The escaped form is the only byte string that unescapes to the original,
      contains no forbidden triple and has no escape that is not needed. */
  lemma EscapedExactly(s: bytes, e: bytes)
    ensures e == Escaped(0, s) <==> Unescaped(0, e) == s && Tidy(e)
  {
    TidyAfterMeans(0, e);
    assert Zeros(0) + e == e;
    if e == Escaped(0, s) {
      EscapedTidyAfter(0, s);
      UnescapeEscape(0, s);
    } else if Tidy(e) {
      EscapeUnescape(0, e);
    }
  }

  /** How many zero bytes end an input that follows z of them. */
  function ZerosAfter(z: nat, s: bytes): nat
    decreases |s|
  {
    if s == [] then z else ZerosAfter(if s[0] == 0 then z + 1 else 0, s[1..])
  }

  lemma {:induction false} ZerosAfterSnoc(z: nat, s: bytes, b: byte)
    ensures ZerosAfter(z, s + [b]) == if b == 0 then ZerosAfter(z, s) + 1 else 0
    decreases |s|
  {
    if s == [] {
      assert s + [b] == [b];
    } else {
      assert (s + [b])[1..] == s[1..] + [b];
      ZerosAfterSnoc(if s[0] == 0 then z + 1 else 0, s[1..], b);
    }
  }

  lemma {:induction false} ZerosAfterTwo(s: bytes)
    ensures ZerosAfter(0, s) >= 1 <==> |s| >= 1 && s[|s| - 1] == 0
    ensures ZerosAfter(0, s) >= 2 <==> |s| >= 2 && s[|s| - 1] == 0 && s[|s| - 2] == 0
    decreases |s|
  {
    if s == [] {
    } else {
      var front := s[..|s| - 1];
      assert s == front + [s[|s| - 1]];
      ZerosAfterSnoc(0, front, s[|s| - 1]);
      ZerosAfterTwo(front);
    }
  }

  lemma {:induction false} UnescapedSnoc(z: nat, s: bytes, b: byte)
    ensures Unescaped(z, s + [b]) == Unescaped(z, s) + if ZerosAfter(z, s) >= 2 && b == 3 then [] else [b]
    decreases |s|
  {
    if s == [] {
      assert s + [b] == [b];
    } else {
      assert (s + [b])[1..] == s[1..] + [b];
      UnescapedSnoc(if s[0] == 0 then z + 1 else 0, s[1..], b);
    }
  }

  /** Unescaping drops a 3 that follows two zero bytes in the input, and nothing else. */
  lemma UnescapedExactly(s: bytes, i: nat)
    requires i < |s|
    ensures var dropped := i >= 2 && s[i] == 3 && s[i - 1] == 0 && s[i - 2] == 0;
            Unescaped(0, s[..i + 1]) == Unescaped(0, s[..i]) + (if dropped then [] else [s[i]])
  {
    assert s[..i + 1] == s[..i] + [s[i]];
    UnescapedSnoc(0, s[..i], s[i]);
    ZerosAfterTwo(s[..i]);
  }

  lemma {:induction false} EscapedLast(z: nat, s: bytes)
    requires s != []
    ensures var e := Escaped(z, s); e != [] && e[|e| - 1] == s[|s| - 1]
    decreases |s|
  {
    if |s| == 1 {
      assert s[1..] == [];
    } else {
      EscapedLast(if s[0] == 0 then (if z >= 2 then 1 else z + 1) else 0, s[1..]);
    }
  }

  // ---------------------------------------------------------------- SEI numbers

  function SeiValue(v: nat): bytes {
    if v >= 255 then [255] + SeiValue(v - 255) else [v]
  }

  method AppendSEIValue(dst: bytes, value: nat) returns (out: bytes)
    ensures out == dst + SeiValue(value)
  {
    out := dst;
    var v := value;
    while v >= 255
      invariant out + SeiValue(v) == dst + SeiValue(value)
    {
      out := out + [255];
      v := v - 255;
    }
    out := out + [v];
  }

  /** A number and what follows it, or None if the bytes run out inside it. */
  function TakeValue(s: bytes): (r: Option<(nat, bytes)>)
    ensures r.Some? ==> |r.value.1| < |s|
  {
    if s == [] then None
    else if s[0] != 255 then Some((s[0], s[1..]))
    else match TakeValue(s[1..])
      case None => None
      case Some((v, rest)) => Some((v + 255, rest))
  }

  method ConsumeSEIValue(data: bytes, pos: nat) returns (ok: bool, value: nat, next: nat)
    requires pos <= |data|
    ensures ok <==> TakeValue(data[pos..]).Some?
    ensures ok ==> pos < next <= |data| && TakeValue(data[pos..]) == Some((value, data[next..]))
  {
    value, next := 0, pos;
    while next < |data|
      invariant pos <= next <= |data|
      invariant match TakeValue(data[next..])
                case None => TakeValue(data[pos..]).None?
                case Some((v, rest)) => TakeValue(data[pos..]) == Some((value + v, rest))
    {
      var b := data[next];
      assert data[next..][1..] == data[next + 1..];
      next := next + 1;
      value := value + b;
      if b != 255 {
        return true, value, next;
      }
    }
    return false, 0, next;
  }

  /** Reading a number is the exact inverse of writing it. */
  lemma {:induction false} TakeValueExact(s: bytes, v: nat, rest: bytes)
    ensures TakeValue(s) == Some((v, rest)) <==> s == SeiValue(v) + rest
    decreases |s|
  {
    if s != [] && s[0] == 255 && v >= 255 {
      TakeValueExact(s[1..], v - 255, rest);
      assert s == SeiValue(v) + rest <==> s[1..] == SeiValue(v - 255) + rest by {
        assert s == [255] + s[1..];
        assert ([255] + SeiValue(v - 255) + rest)[1..] == SeiValue(v - 255) + rest;
      }
    } else if s != [] && s[0] != 255 {
      assert s == [s[0]] + s[1..];
      assert s == SeiValue(v) + rest ==> s[0] == SeiValue(v)[0];
      assert v < 255 ==> (SeiValue(v) + rest)[1..] == rest;
    }
  }

  /** The layout: 255s, then one smaller byte, that add up to the number. */
  lemma {:induction false} SeiValueLayout(v: nat)
    ensures |SeiValue(v)| == v / 255 + 1 && SeiValue(v)[v / 255] == v % 255
    ensures forall i :: 0 <= i < v / 255 ==> SeiValue(v)[i] == 255
  {
    if v < 255 {
    } else {
      SeiValueLayout(v - 255);
      assert v / 255 == (v - 255) / 255 + 1 && v % 255 == (v - 255) % 255;
    }
  }

  ghost predicate AllFull(s: bytes) {
    forall i :: 0 <= i < |s| ==> s[i] == 255
  }

  /** Only a run of 255s, the empty one included, breaks off inside a number. */
  lemma {:induction false} TakeValueNone(s: bytes)
    ensures TakeValue(s).None? <==> AllFull(s)
  {
    if s == [] {
    } else {
      TakeValueNone(s[1..]);
      assert s == [s[0]] + s[1..];
      assert AllFull(s) <==> s[0] == 255 && AllFull(s[1..]);
    }
  }

  // --------------------------------------------------------------- SEI messages

  const UUID: bytes := [
    0x5d, 0xc0, 0x3b, 0xa8, 0x45, 0x0f, 0x4b, 0x55,
    0x9a, 0x77, 0x1f, 0x91, 0x6c, 0x5b, 0x07, 0x39]
  const USER_DATA: nat := 5
  const TRAILER: byte := 0x80

  datatype SeiError = ValueTruncated | PayloadTruncated

  datatype Message = Message(typ: nat, body: bytes)

  function MessageBytes(m: Message): (r: bytes)
    ensures |r| >= 2
  {
    SeiValue(m.typ) + SeiValue(|m.body|) + m.body
  }

  function Serialised(ms: seq<Message>): bytes {
    if ms == [] then [] else MessageBytes(ms[0]) + Serialised(ms[1..])
  }

  /** What the transport takes from one message. */
  function Wanted(m: Message): seq<bytes> {
    if m.typ == USER_DATA && |m.body| >= |UUID| && m.body[..|UUID|] == UUID then [m.body[|UUID|..]] else []
  }

  function AllWanted(ms: seq<Message>): seq<bytes> {
    if ms == [] then [] else Wanted(ms[0]) + AllWanted(ms[1..])
  }

  /** The positions of the messages that carry user data under our UUID. */
  ghost function OursIn(ms: seq<Message>): set<nat> {
    set i: nat | i < |ms| && ms[i].typ == 5 && UUID <= ms[i].body
  }

  /** out is what the messages at these positions carry behind the UUID. */
  ghost predicate Carried(ms: seq<Message>, at: seq<nat>, out: seq<bytes>) {
    && Lists(at, OursIn(ms)) && |out| == |at|
    && forall k :: 0 <= k < |at| ==> at[k] < |ms| && ms[at[k]].body == UUID + out[k]
  }

  /** out is what our messages carry, in order. */
  ghost predicate Transported(ms: seq<Message>, out: seq<bytes>) {
    exists at :: Carried(ms, at, out)
  }

  lemma {:induction false} AllWantedSnoc(ms: seq<Message>, m: Message)
    ensures AllWanted(ms + [m]) == AllWanted(ms) + Wanted(m)
  {
    if ms == [] {
      assert ms + [m] == [m] && [m][1..] == [];
    } else {
      AllWantedSnoc(ms[1..], m);
      assert (ms + [m])[1..] == ms[1..] + [m];
    }
  }

  lemma CarriedSnoc(ms: seq<Message>, m: Message, at: seq<nat>, out: seq<bytes>)
    requires Carried(ms, at, out)
    ensures Carried(ms + [m], if Wanted(m) == [] then at else at + [|ms|], out + Wanted(m))
  {
    var all := ms + [m];
    assert forall i :: 0 <= i < |ms| ==> all[i] == ms[i];
    if Wanted(m) == [] {
      assert OursIn(all) == OursIn(ms);
    } else {
      assert m.body == UUID + Wanted(m)[0];
      ListsSnoc(at, OursIn(ms), |ms|);
      assert OursIn(all) == OursIn(ms) + {|ms|};
    }
  }

  lemma {:induction false} AllWantedCarried(ms: seq<Message>) returns (at: seq<nat>)
    ensures Carried(ms, at, AllWanted(ms))
  {
    if ms == [] {
      at := [];
    } else {
      var front, m := ms[..|ms| - 1], ms[|ms| - 1];
      assert ms == front + [m];
      at := AllWantedCarried(front);
      AllWantedSnoc(front, m);
      hide Carried, AllWanted, Wanted;
      CarriedSnoc(front, m, at, AllWanted(front));
      at := if Wanted(m) == [] then at else at + [|front|];
    }
  }

  /** There is one such list for any messages. */
  lemma TransportedOne(ms: seq<Message>, out: seq<bytes>)
    ensures Transported(ms, out) <==> out == AllWanted(ms)
  {
    var at := AllWantedCarried(ms);
    var all := AllWanted(ms);
    hide AllWanted;
    if other :| Carried(ms, other, out) {
      ListsUnique(at, other, OursIn(ms));
      forall k | 0 <= k < |at| ensures out[k] == all[k] {
        assert (UUID + out[k])[|UUID|..] == out[k] && (UUID + all[k])[|UUID|..] == all[k];
      }
    }
  }

  /** One message and what follows it. */
  function TakeMessage(s: bytes): (r: Result<(Message, bytes), SeiError>)
    ensures r.Success? ==> |r.value.1| < |s|
  {
    match TakeValue(s)
    case None => Failure(ValueTruncated)
    case Some((typ, s1)) =>
      match TakeValue(s1)
      case None => Failure(ValueTruncated)
      case Some((size, s2)) =>
        if size > |s2| then Failure(PayloadTruncated)
        else Success((Message(typ, s2[..size]), s2[size..]))
  }

  function Prepend(out: seq<bytes>, r: Result<seq<bytes>, SeiError>): Result<seq<bytes>, SeiError> {
    match r
    case Failure(e) => Failure(e)
    case Success(more) => Success(out + more)
  }

  lemma PrependTwice(a: seq<bytes>, b: seq<bytes>, r: Result<seq<bytes>, SeiError>)
    ensures Prepend(a, Prepend(b, r)) == Prepend(a + b, r)
    ensures Prepend([], r) == r && a + [] == a
  {
    assert r.Success? ==> a + (b + r.value) == a + b + r.value && [] + r.value == r.value;
  }

  /** extractTransportSEI on unescaped bytes. */
  function Parsed(s: bytes): Result<seq<bytes>, SeiError>
    decreases |s|
  {
    if s == [] || s == [TRAILER] then Success([])
    else match TakeMessage(s)
      case Failure(e) => Failure(e)
      case Success((m, rest)) => Prepend(Wanted(m), Parsed(rest))
  }

  lemma TakeMessageExact(s: bytes, m: Message, rest: bytes)
    ensures TakeMessage(s) == Success((m, rest)) <==> s == MessageBytes(m) + rest
  {
    var tail := SeiValue(|m.body|) + m.body + rest;
    assert MessageBytes(m) + rest == SeiValue(m.typ) + tail;
    TakeValueExact(s, m.typ, tail);
    TakeValueExact(tail, |m.body|, m.body + rest);
    assert tail == SeiValue(|m.body|) + (m.body + rest);
    assert (m.body + rest)[..|m.body|] == m.body && (m.body + rest)[|m.body|..] == rest;
    if TakeMessage(s) == Success((m, rest)) {
      var (typ, s1) := TakeValue(s).value;
      var (size, s2) := TakeValue(s1).value;
      TakeValueExact(s, typ, s1);
      TakeValueExact(s1, size, s2);
      assert s2 == m.body + rest;
    }
  }

  /** Whole messages do not affect how what follows them is parsed. */
  lemma {:induction false} ParsedBehind(ms: seq<Message>, rest: bytes)
    ensures Parsed(Serialised(ms) + rest) == Prepend(AllWanted(ms), Parsed(rest))
  {
    if ms == [] {
      assert Serialised(ms) + rest == rest;
      PrependTwice([], [], Parsed(rest));
    } else {
      var more := Serialised(ms[1..]) + rest;
      assert Serialised(ms) + rest == MessageBytes(ms[0]) + more;
      TakeMessageExact(Serialised(ms) + rest, ms[0], more);
      ParsedBehind(ms[1..], rest);
      PrependTwice(Wanted(ms[0]), AllWanted(ms[1..]), Parsed(rest));
    }
  }

  /** Any serialised message list parses, with or without the trailer, to exactly
      what our messages carry. */
  lemma ParsedSerialised(ms: seq<Message>, tail: bytes)
    requires tail == [] || tail == [TRAILER]
    ensures Parsed(Serialised(ms) + tail).Success? && Transported(ms, Parsed(Serialised(ms) + tail).value)
  {
    ParsedBehind(ms, tail);
    TransportedOne(ms, AllWanted(ms));
    assert AllWanted(ms) + [] == AllWanted(ms);
    hide Transported, AllWanted;
  }

  lemma {:induction false} ParsedOnlySerialised(s: bytes) returns (ms: seq<Message>, tail: bytes)
    requires Parsed(s).Success?
    ensures (tail == [] || tail == [TRAILER]) && s == Serialised(ms) + tail
    decreases |s|
  {
    if s == [] || s == [TRAILER] {
      ms, tail := [], s;
    } else {
      var (m, rest) := TakeMessage(s).value;
      TakeMessageExact(s, m, rest);
      ms, tail := ParsedOnlySerialised(rest);
      assert ([m] + ms)[1..] == ms;
      ms := [m] + ms;
    }
  }

  /** The parser accepts exactly the serialised message lists, with or without the
      trailer, and returns exactly what our messages carry, in order. */
  lemma ParsedExactly(s: bytes, out: seq<bytes>)
    ensures Parsed(s) == Success(out) <==>
            exists ms, tail :: (tail == [] || tail == [0x80]) && s == Serialised(ms) + tail && Transported(ms, out)
  {
    if Parsed(s) == Success(out) {
      var ms, tail := ParsedOnlySerialised(s);
      ParsedSerialised(ms, tail);
    }
    if ms, tail :| (tail == [] || tail == [TRAILER]) && s == Serialised(ms) + tail && Transported(ms, out) {
      ParsedSerialised(ms, tail);
      TransportedOne(ms, out);
      TransportedOne(ms, Parsed(s).value);
    }
  }

  /** The two numbers of a message, and too little payload. */
  ghost predicate PayloadCut(s: bytes) {
    exists typ, size, short :: s == SeiValue(typ) + (SeiValue(size) + short) && |short| < size
  }

  /** Bytes that end inside the two numbers of a message. */
  ghost predicate NumbersCut(s: bytes) {
    s != [] && s != [0x80] && (AllFull(s) || exists typ, run :: s == SeiValue(typ) + run && AllFull(run))
  }

  lemma PayloadCutFails(s: bytes)
    requires PayloadCut(s)
    ensures TakeMessage(s) == Failure(PayloadTruncated)
  {
    var typ, size, short :| s == SeiValue(typ) + (SeiValue(size) + short) && |short| < size;
    TakeValueExact(s, typ, SeiValue(size) + short);
    TakeValueExact(SeiValue(size) + short, size, short);
    hide TakeValue, SeiValue;
  }

  lemma NumbersCutFails(s: bytes)
    requires NumbersCut(s)
    ensures TakeMessage(s) == Failure(ValueTruncated)
  {
    TakeValueNone(s);
    hide TakeValue, SeiValue, AllFull;
    if !AllFull(s) {
      var typ, run :| s == SeiValue(typ) + run && AllFull(run);
      TakeValueExact(s, typ, run);
      TakeValueNone(run);
    }
  }

  lemma FailsWhenCut(s: bytes)
    requires s != [] && s != [0x80] && TakeMessage(s).Failure?
    ensures if TakeMessage(s).error.PayloadTruncated? then PayloadCut(s) else NumbersCut(s)
  {
    TakeValueNone(s);
    hide TakeValue, SeiValue, AllFull;
    if TakeValue(s).Some? {
      var (typ, s1) := TakeValue(s).value;
      TakeValueExact(s, typ, s1);
      TakeValueNone(s1);
      if TakeValue(s1).Some? {
        var (size, s2) := TakeValue(s1).value;
        TakeValueExact(s1, size, s2);
      }
    }
  }

  lemma ParsedFirst(s: bytes, e: SeiError)
    requires s != [] && s != [TRAILER] && TakeMessage(s) == Failure(e)
    ensures Parsed(s) == Failure(e)
  {
  }

  lemma SerialisedCons(m: Message, ms: seq<Message>, rest: bytes)
    ensures Serialised([m] + ms) + rest == MessageBytes(m) + (Serialised(ms) + rest)
  {
    assert ([m] + ms)[1..] == ms;
    hide MessageBytes;
  }

  lemma {:induction false} FailsOnlyCut(s: bytes) returns (ms: seq<Message>, rest: bytes)
    requires Parsed(s).Failure?
    ensures s == Serialised(ms) + rest && rest != [] && rest != [TRAILER]
    ensures TakeMessage(rest) == Failure(Parsed(s).error)
    decreases |s|
  {
    match TakeMessage(s) {
      case Failure(_) =>
        ms, rest := [], s;
        assert Serialised(ms) + rest == rest;
      case Success((m, more)) =>
        TakeMessageExact(s, m, more);
        ms, rest := FailsOnlyCut(more);
        hide Serialised, MessageBytes, TakeMessage;
        SerialisedCons(m, ms, rest);
        ms := [m] + ms;
    }
  }

  lemma PayloadCutLong(s: bytes)
    requires PayloadCut(s)
    ensures |s| >= 2
  {
    var typ, size, short :| s == SeiValue(typ) + (SeiValue(size) + short) && |short| < size;
    SeiValueLayout(typ);
    SeiValueLayout(size);
  }

  lemma NumbersCutLong(s: bytes)
    requires NumbersCut(s)
    ensures s != [] && s != [TRAILER]
  {
  }

  /** And it fails exactly where, after whole messages, the bytes are cut short:
      inside a payload, or inside the numbers before it. */
  lemma FailsExactly(s: bytes)
    ensures Parsed(s) == Failure(PayloadTruncated) <==>
            exists ms, rest :: s == Serialised(ms) + rest && PayloadCut(rest)
    ensures Parsed(s) == Failure(ValueTruncated) <==>
            exists ms, rest :: s == Serialised(ms) + rest && NumbersCut(rest)
  {
    if Parsed(s).Failure? {
      var ms, rest := FailsOnlyCut(s);
      FailsWhenCut(rest);
    }
    hide Parsed, Serialised, TakeMessage, PayloadCut, NumbersCut;
    if ms, rest :| s == Serialised(ms) + rest && PayloadCut(rest) {
      PayloadCutLong(rest);
      PayloadCutFails(rest);
      ParsedFirst(rest, PayloadTruncated);
      ParsedBehind(ms, rest);
    }
    if ms, rest :| s == Serialised(ms) + rest && NumbersCut(rest) {
      assert rest != [] && rest != [TRAILER] by { NumbersCutLong(rest); }
      NumbersCutFails(rest);
      ParsedFirst(rest, ValueTruncated);
      ParsedBehind(ms, rest);
    }
  }

  /** One round of the parsing loop: the two numbers and the payload. */
  method ConsumeMessage(data: bytes, pos: nat) returns (r: Result<(Message, nat), SeiError>)
    requires pos <= |data|
    ensures match TakeMessage(data[pos..])
            case Failure(e) => r == Failure(e)
            case Success((m, rest)) =>
              r.Success? && r.value.0 == m && pos < r.value.1 <= |data| && rest == data[r.value.1..]
  {
    var ok, payloadType, next := ConsumeSEIValue(data, pos);
    if !ok {
      return Failure(ValueTruncated);
    }
    var payloadSize, start;
    ok, payloadSize, start := ConsumeSEIValue(data, next);
    if !ok {
      return Failure(ValueTruncated);
    }
    if start + payloadSize > |data| {
      return Failure(PayloadTruncated);
    }
    assert data[start..][..payloadSize] == data[start..start + payloadSize];
    assert data[start..][payloadSize..] == data[start + payloadSize..];
    return Success((Message(payloadType, data[start..start + payloadSize]), start + payloadSize));
  }

  method ExtractTransportSEI(rbsp: bytes) returns (r: Result<seq<bytes>, SeiError>)
    ensures r == Parsed(Unescaped(0, rbsp))
  {
    hide TakeMessage, Unescaped;
    var data := UnescapeRBSP(rbsp);
    var out: seq<bytes> := [];
    var pos := 0;
    assert data[pos..] == data;
    PrependTwice([], [], Parsed(data));
    while pos < |data|
      invariant 0 <= pos <= |data|
      invariant Parsed(data) == Prepend(out, Parsed(data[pos..]))
      decreases |data| - pos
    {
      if data[pos] == TRAILER && pos == |data| - 1 {
        assert data[pos..] == [TRAILER];
        break;
      }
      assert data[pos..] != [TRAILER];
      var step := ConsumeMessage(data, pos);
      if step.Failure? {
        return Failure(step.error);
      }
      var (m, next) := step.value;
      PrependTwice(out, Wanted(m), Parsed(data[next..]));
      pos := next;
      if m.typ != USER_DATA || |m.body| < |UUID| {
        continue;
      }
      if m.body[..|UUID|] != UUID {
        continue;
      }
      out := out + [m.body[|UUID|..]];
    }
    assert out + [] == out;
    return Success(out);
  }

  // -------------------------------------------------------------- the SEI NAL

  const SEI_NAL: byte := 6

  function SeiNal(payload: bytes): bytes {
    [SEI_NAL] + Escaped(0, MessageBytes(Message(USER_DATA, UUID + payload)) + [TRAILER])
  }

  method BuildSEINAL(payload: bytes) returns (out: bytes)
    ensures out == SeiNal(payload)
  {
    var userData := UUID + payload;
    var rbsp := AppendSEIValue([], USER_DATA);
    rbsp := AppendSEIValue(rbsp, |userData|);
    rbsp := rbsp + userData + [TRAILER];
    var escaped := EscapeRBSP(rbsp);
    assert rbsp == MessageBytes(Message(USER_DATA, userData)) + [TRAILER];
    out := [SEI_NAL] + escaped;
  }

  /** Any list of messages, foreign ones included, survives escaping. */
  lemma ExtractsOurs(ms: seq<Message>)
    ensures var r := Parsed(Unescaped(0, Escaped(0, Serialised(ms) + [TRAILER])));
            r.Success? && Transported(ms, r.value)
  {
    UnescapeEscape(0, Serialised(ms) + [TRAILER]);
    ParsedSerialised(ms, [TRAILER]);
  }

  /** The unit is of type 6 and holds one message, user data under our UUID. */
  lemma SeiNalLayout(payload: bytes)
    ensures SeiNal(payload)[0] == 6
    ensures Unescaped(0, SeiNal(payload)[1..]) == [5] + SeiValue(16 + |payload|) + UUID + payload + [0x80]
  {
    var m, size := Message(USER_DATA, UUID + payload), SeiValue(16 + |payload|);
    UnescapeEscape(0, MessageBytes(m) + [TRAILER]);
    assert SeiNal(payload)[1..] == Escaped(0, MessageBytes(m) + [TRAILER]);
    assert SeiValue(USER_DATA) == [5];
    hide SeiValue, Escaped, Unescaped, SeiNal;
    assert MessageBytes(m) == [5] + size + (UUID + payload);
    Regroup([5] + size, UUID, payload);
  }

  lemma SeiNalCarries(payload: bytes)
    ensures Parsed(Unescaped(0, SeiNal(payload)[1..])) == Success([payload])
  {
    var m := Message(USER_DATA, UUID + payload);
    UnescapeEscape(0, MessageBytes(m) + [TRAILER]);
    ParsedBehind([m], [TRAILER]);
    assert [m][1..] == [];
    assert Serialised([m]) == MessageBytes(m) + [] == MessageBytes(m);
    assert AllWanted([m]) == Wanted(m) + [] == [payload];
    assert SeiNal(payload)[1..] == Escaped(0, MessageBytes(m) + [TRAILER]);
  }
}
