/** SaluteJazz data packets: a nested protobuf writer and the tolerant scanner
    that reads them back with a moving cursor. */
module Jazz {
  import opened Bytes

  type u64 = n: int | 0 <= n < 0x1_0000_0000_0000_0000
  type i64 = n: int | -0x8000_0000_0000_0000 <= n < 0x8000_0000_0000_0000

  const MAX_VARINT_LEN := 10

  /** The longest byte slice a Go int can measure. */
  const MAX_SLICE := 0x7fff_ffff_ffff_ffff

  // -------------------------------------------------------------------- varints

  function Varint(v: nat): (r: bytes)
    ensures r != []
  {
    if v < 0x80 then [v] else [v % 0x80 + 0x80] + Varint(v / 0x80)
  }

  /** The number whose groups of seven bits, the lowest first, the bytes hold. */
  function Groups(s: bytes): nat {
    if s == [] then 0 else s[0] % 0x80 + 0x80 * Groups(s[1..])
  }

  /** The layout: the groups of the number, marked by the top bit except for the
      last, which is not zero unless it is the only one. */
  lemma {:induction false} VarintLayout(v: nat)
    ensures var s := Varint(v);
            && Groups(s) == v
            && (forall i :: 0 <= i < |s| - 1 ==> s[i] >= 0x80) && s[|s| - 1] < 0x80
            && (|s| > 1 ==> s[|s| - 1] > 0)
    decreases v
  {
    if v < 0x80 {
      assert Groups([v]) == v % 0x80 + 0x80 * Groups([v][1..]);
    } else {
      VarintLayout(v / 0x80);
      var rest := Varint(v / 0x80);
      assert Varint(v)[1..] == rest;
      assert |rest| == 1 ==> rest[0] == v / 0x80;
    }
  }

  /** 2^(64 - 7i): what is left of a 64-bit value after i groups of seven bits. */
  function Limit(i: nat): nat {
    if i == 0 then 0x1_0000_0000_0000_0000 else Limit(i - 1) / 0x80
  }

  lemma Limits()
    ensures Limit(1) == 0x200_0000_0000_0000 && Limit(2) == 0x4_0000_0000_0000 && Limit(3) == 0x800_0000_0000
    ensures Limit(4) == 0x10_0000_0000 && Limit(5) == 0x2000_0000 && Limit(6) == 0x40_0000
    ensures Limit(7) == 0x8000 && Limit(8) == 0x100 && Limit(9) == 2
  {
    assert Limit(1) == 0x200_0000_0000_0000;
    assert Limit(2) == 0x4_0000_0000_0000;
    assert Limit(3) == 0x800_0000_0000;
    assert Limit(4) == 0x10_0000_0000;
    assert Limit(5) == 0x2000_0000;
    assert Limit(6) == 0x40_0000;
    assert Limit(7) == 0x8000;
    assert Limit(8) == 0x100;
  }

  lemma LimitStep(i: nat)
    requires i < 9
    ensures Limit(i) == 0x80 * Limit(i + 1) && Limit(0) == 0x1_0000_0000_0000_0000 && Limit(9) == 2
  {
    Limits();
  }

  /** encodeVarint: ten bytes always suffice. */
  method EncodeVarint(value: u64) returns (out: bytes)
    ensures out == Varint(value)
  {
    hide Limit;
    LimitStep(8);
    var buf := new byte[MAX_VARINT_LEN](i => 0);
    var x: nat := value;
    var n := 0;
    while x >= 0x80
      invariant n <= 9 && x < Limit(n)
      invariant buf[..n] + Varint(x) == Varint(value)
      decreases x
    {
      if n < 9 {
        LimitStep(n);
      }
      buf[n] := x % 0x80 + 0x80;
      x := x / 0x80;
      n := n + 1;
    }
    buf[n] := x;
    out := buf[..n + 1];
  }

  /** A varint read, or the failure; used is how far the cursor has moved. */
  datatype VarintRead = Val(v: nat, used: nat) | Err(used: nat)

  /** binary.ReadUvarint from its byte number i on. */
  function TakeVarint(s: bytes, i: nat): (r: VarintRead)
    requires i <= 9
    ensures r.used <= |s| && (r.Val? ==> r.used > 0)
    decreases |s|
  {
    if s == [] then Err(0)
    else if s[0] < 0x80 then (if i == 9 && s[0] > 1 then Err(1) else Val(s[0], 1))
    else if i == 9 then Err(1)
    else match TakeVarint(s[1..], i + 1)
      case Val(v, used) => Val(s[0] - 0x80 + 0x80 * v, used + 1)
      case Err(used) => Err(used + 1)
  }

  /** Values read fit 64 bits. */
  lemma {:induction false} TakeVarintBound(s: bytes, i: nat)
    requires i <= 9
    ensures TakeVarint(s, i).Val? ==> TakeVarint(s, i).v < Limit(i)
    decreases |s|
  {
    Limits();
    if i == 9 {
    } else {
      LimitStep(i);
      if s != [] {
        TakeVarintBound(s[1..], i + 1);
      }
    }
  }

  /** What encodeVarint writes is read back, whatever follows. */
  lemma {:induction false} VarintRoundTrip(v: nat, rest: bytes, i: nat)
    requires i <= 9 && v < Limit(i)
    ensures TakeVarint(Varint(v) + rest, i) == Val(v, |Varint(v)|)
    decreases v
  {
    Limits();
    var s := Varint(v) + rest;
    if v < 0x80 {
    } else {
      LimitStep(i);
      VarintRoundTrip(v / 0x80, rest, i + 1);
      assert s[1..] == Varint(v / 0x80) + rest;
    }
  }

  // --------------------------------------------------------------------- fields

  function Pow2(w: nat): nat {
    if w == 0 then 1 else 2 * Pow2(w - 1)
  }

  lemma {:induction false} Pow2Add(v: nat, w: nat)
    ensures Pow2(v + w) == Pow2(v) * Pow2(w)
    decreases v
  {
    if v == 0 {
    } else {
      Pow2Add(v - 1, w);
      assert Pow2(v + w) == 2 * (Pow2(v - 1) * Pow2(w)) == (2 * Pow2(v - 1)) * Pow2(w);
    }
  }

  lemma Pow64()
    ensures Pow2(64) == 0x1_0000_0000_0000_0000
  {
    assert Pow2(1) == 2 && Pow2(2) == 4 && Pow2(3) == 8 && Pow2(4) == 0x10;
    Pow2Add(4, 4);
    Pow2Add(8, 8);
    Pow2Add(16, 16);
    Pow2Add(32, 32);
  }

  /** The bitwise or. */
  function Or(a: nat, b: nat): nat
    decreases a + b
  {
    if a == 0 then b
    else if b == 0 then a
    else 2 * Or(a / 2, b / 2) + if a % 2 == 1 || b % 2 == 1 then 1 else 0
  }

  predicate Bit(n: nat, k: nat) {
    if k == 0 then n % 2 == 1 else Bit(n / 2, k - 1)
  }

  lemma {:induction false} ZeroBits(k: nat)
    ensures !Bit(0, k)
  {
    if k == 0 {
    } else {
      ZeroBits(k - 1);
    }
  }

  /** A bit is set in the or exactly when it is set in one of the two. */
  lemma {:induction false} OrBits(a: nat, b: nat, k: nat)
    ensures Bit(Or(a, b), k) <==> Bit(a, k) || Bit(b, k)
    decreases k
  {
    ZeroBits(k);
    if k == 0 {
    } else {
      OrBits(a / 2, b / 2, k - 1);
    }
  }

  lemma {:induction false} OrBound(a: nat, b: nat, w: nat)
    requires a < Pow2(w) && b < Pow2(w)
    ensures Or(a, b) < Pow2(w)
    decreases w
  {
    if a == 0 || b == 0 {
    } else {
      OrBound(a / 2, b / 2, w - 1);
    }
  }

  /** uint64(n) of a signed integer. */
  function ToU64(n: i64): u64 {
    n % 0x1_0000_0000_0000_0000
  }

  /** uint64(fieldNumber)<<3 | uint64(wireType). */
  function Tag(number: i64, wire: i64): u64 {
    var high, low := ToU64(number) * 8 % 0x1_0000_0000_0000_0000, ToU64(wire);
    Pow64();
    OrBound(high, low, 64);
    Or(high, low)
  }

  lemma OrLow(n: nat, low: nat)
    requires low < 8
    ensures Or(8 * n, low) == 8 * n + low
  {
    if n > 0 && low > 0 {
      assert Or(2 * n, low / 4) == 2 * n + low / 4;
      assert Or(4 * n, low / 2) == 4 * n + low / 2;
    }
  }

  /** For the numbers and wire types protobuf has, the tag holds both. */
  lemma TagPlain(number: i64, wire: i64)
    requires 0 <= number < 0x2000_0000_0000_0000 && 0 <= wire < 8
    ensures Tag(number, wire) == number * 8 + wire
  {
    var high: nat, low: nat := 8 * number, wire;
    OrLow(number, wire);
    assert ToU64(number) == number && ToU64(wire) == wire;
    assert high < 0x1_0000_0000_0000_0000 && high % 0x1_0000_0000_0000_0000 == high;
    hide Or, Pow2, ToU64;
  }

  /** A field as encodeField takes it. */
  datatype Field = Field(number: i64, wire: i64, data: bytes)

  function FieldBytes(f: Field): bytes {
    Varint(Tag(f.number, f.wire)) + (if f.wire == 2 then Varint(|f.data|) else []) + f.data
  }

  method EncodeField(number: i64, wire: i64, data: bytes) returns (out: bytes)
    requires |data| <= MAX_SLICE
    ensures out == FieldBytes(Field(number, wire, data))
  {
    var tag := EncodeVarint(Tag(number, wire));
    if wire == 2 {
      var length := EncodeVarint(|data|);
      out := tag + length + data;
    } else {
      out := tag + data;
    }
  }

  function FieldsBytes(fs: seq<Field>): bytes {
    if fs == [] then [] else FieldBytes(fs[0]) + FieldsBytes(fs[1..])
  }

  /** A field of one of the four wire types that protobuf still uses. */
  ghost predicate WellFormed(f: Field) {
    && 0 <= f.number < 0x2000_0000_0000_0000
    && match f.wire
       case 0 => exists v: u64 :: f.data == Varint(v)
       case 1 => |f.data| == 8
       case 2 => |f.data| <= MAX_SLICE
       case 5 => |f.data| == 4
       case _ => false
  }

  // ------------------------------------------------------------------- scanning

  /** What handleWireType does with the bytes after a tag: the field's content if
      it has one and the bytes left, or the end of the scan. */
  datatype Step = Stop | Go(content: Option<bytes>, rest: bytes)

  function Dropped(s: bytes, n: nat): bytes {
    if n <= |s| then s[n..] else []
  }

  function HandleWire(wire: nat, s: bytes): (r: Step)
    ensures r.Go? ==> |r.rest| <= |s|
  {
    if wire == 0 then Go(None, s[TakeVarint(s, 0).used..])
    else if wire == 1 then Go(None, Dropped(s, 8))
    else if wire == 5 then Go(None, Dropped(s, 4))
    else if wire == 2 then
      match TakeVarint(s, 0)
      case Err(_) => Stop
      case Val(length, used) =>
        var body := s[used..];
        if length > |body| || body == [] then Stop else Go(Some(body[..length]), body[length..])
    else Stop
  }

  /** parseFields from some point on, with the result so far. */
  function Scan(s: bytes, target: nat, result: bytes): bytes
    decreases |s|
  {
    if s == [] then result
    else match TakeVarint(s, 0)
      case Err(_) => result
      case Val(tag, used) =>
        match HandleWire(tag % 8, s[used..])
        case Stop => result
        case Go(content, rest) =>
          Scan(rest, target, if tag / 8 == target && content.Some? then content.value else result)
  }

  lemma Suffixes(data: bytes, from: nat, mid: nat, end: nat)
    requires from <= mid <= end <= |data|
    ensures data[from..][mid - from..] == data[mid..]
    ensures data[mid..][..end - mid] == data[mid..end] && data[mid..][end - mid..] == data[end..]
  {
  }

  lemma ContentAt(data: bytes, pos: nat)
    requires pos <= |data|
    ensures HandleWire(2, data[pos..]) ==
            match TakeVarint(data[pos..], 0)
            case Err(_) => Stop
            case Val(length, used) =>
              var from := pos + used;
              if length > |data| - from || from == |data| then Stop
              else Go(Some(data[from..from + length]), data[from + length..])
  {
    var r := TakeVarint(data[pos..], 0);
    if r.Val? && r.v <= |data| - pos - r.used {
      Suffixes(data, pos, pos + r.used, pos + r.used + r.v);
    }
    hide TakeVarint;
  }

  lemma SkipPast(data: bytes, from: nat, n: nat)
    requires from <= |data|
    ensures Dropped(data[from..], n) == Dropped(data, from + n)
  {
  }

  /** The result of reading the remaining bytes of a varint, put behind i groups already read. */
  function Shifted(r: VarintRead, x: nat, scale: nat, i: nat): VarintRead {
    match r
    case Val(v, used) => Val(x + scale * v, i + used)
    case Err(used) => Err(i + used)
  }

  /** x | uint64(low) << s, for scale = 2^s above every bit of x. */
  function Plus(x: nat, scale: nat, low: nat): nat {
    x + scale * low
  }

  function ValueOf(r: VarintRead): Option<nat> {
    match r case Val(v, _) => Some(v) case Err(_) => None
  }

  lemma ShiftedTwice(r: VarintRead, x: nat, scale: nat, i: nat, low: nat)
    ensures var r' := match r case Val(v, used) => Val(low + 0x80 * v, used + 1) case Err(used) => Err(used + 1);
            Shifted(r', x, scale, i) == Shifted(r, x + scale * low, scale * 0x80, i + 1)
  {
    if r.Val? {
      assert scale * (low + 0x80 * r.v) == scale * low + scale * 0x80 * r.v;
    }
  }

  /** One round of the varint loop, at a position. */
  lemma TakeVarintAt(data: bytes, pos: nat, i: nat, x: nat, scale: nat)
    requires pos <= |data| && i <= 9
    ensures var r := Shifted(TakeVarint(data[pos..], i), x, scale, i);
            if pos == |data| then r == Err(i)
            else
              var low := data[pos] as nat;
              if low < 0x80 then r == if i == 9 && low > 1 then Err(i + 1) else Val(Plus(x, scale, low), i + 1)
              else if i == 9 then r == Err(i + 1)
              else r == Shifted(TakeVarint(data[pos + 1..], i + 1), Plus(x, scale, low - 0x80), scale * 0x80, i + 1)
  {
    if pos < |data| {
      assert data[pos..][1..] == data[pos + 1..];
      if data[pos] >= 0x80 && i < 9 {
        ShiftedTwice(TakeVarint(data[pos + 1..], i + 1), x, scale, i, data[pos] - 0x80);
      }
    }
  }

  class ByteReader {
    const data: bytes
    var pos: nat

    constructor (data: bytes)
      ensures this.data == data && pos == 0
    {
      this.data := data;
      pos := 0;
    }

    function Rest(): bytes
      reads this`pos
    {
      Dropped(data, pos)
    }

    method ReadByte() returns (b: Option<byte>)
      modifies this`pos
      ensures old(pos) < |data| ==> b == Some(data[old(pos)]) && pos == old(pos) + 1
      ensures old(pos) >= |data| ==> b == None && pos == old(pos)
    {
      if pos >= |data| {
        return None;
      }
      b := Some(data[pos]);
      pos := pos + 1;
    }

    method Read(n: nat) returns (r: Option<bytes>)
      modifies this`pos
      ensures old(pos) >= |data| ==> r == None && pos == old(pos)
      ensures old(pos) < |data| ==>
                pos == (if old(pos) + n < |data| then old(pos) + n else |data|) && r == Some(data[old(pos)..pos])
    {
      if pos >= |data| {
        return None;
      }
      var end := if pos + n < |data| then pos + n else |data|;
      r := Some(data[pos..end]);
      pos := end;
    }

    method ReadVarint() returns (r: Option<nat>)
      requires pos <= |data|
      modifies this`pos
      ensures pos == old(pos) + TakeVarint(data[old(pos)..], 0).used <= |data|
      ensures r == ValueOf(TakeVarint(data[old(pos)..], 0))
    {
      var x: nat, scale: nat, i: nat := 0, 1, 0;
      while true
        invariant i <= 9 && old(pos) + i == pos <= |data|
        invariant TakeVarint(data[old(pos)..], 0) == Shifted(TakeVarint(data[pos..], i), x, scale, i)
        decreases 9 - i
      {
        hide TakeVarint, Shifted, Plus;
        TakeVarintAt(data, pos, i, x, scale);
        var b := ReadByte();
        if b.None? {
          return None;
        }
        var low: nat := b.value;
        if low < 0x80 {
          if i == 9 && low > 1 {
            return None;
          }
          return Some(Plus(x, scale, low));
        }
        if i == 9 {
          return None;
        }
        x := Plus(x, scale, low - 0x80);
        scale := scale * 0x80;
        i := i + 1;
      }
    }

    /** The length-delimited case of handleWireType. */
    method ReadContent() returns (r: Option<bytes>)
      requires pos <= |data|
      modifies this`pos
      ensures old(pos) <= pos <= |data|
      ensures match HandleWire(2, data[old(pos)..])
              case Stop => r.None?
              case Go(content, rest) => r == content && rest == data[pos..]
    {
      hide TakeVarint, HandleWire;
      ContentAt(data, pos);
      var length := ReadVarint();
      if length.None? || length.value > |data| - pos {
        return None;
      }
      var fieldData := Read(length.value);
      if fieldData.None? || |fieldData.value| != length.value {
        return None;
      }
      return fieldData;
    }

    /** handleWireType: the skips of 8 and 4 may run past the end, which ends the
        scan as an exhausted input does. */
    method HandleWireType(wire: nat) returns (r: Step)
      requires pos <= |data|
      modifies this`pos
      ensures pos >= old(pos)
      ensures r == HandleWire(wire, data[old(pos)..])
      ensures r.Go? ==> r.rest == Rest()
    {
      hide TakeVarint;
      if wire == 0 {
        var _ := ReadVarint();
        Suffixes(data, old(pos), pos, pos);
        return Go(None, Rest());
      } else if wire == 2 {
        var content := ReadContent();
        if content.None? {
          return Stop;
        }
        return Go(content, Rest());
      } else if wire == 1 {
        pos := pos + 8;
        SkipPast(data, old(pos), 8);
        return Go(None, Rest());
      } else if wire == 5 {
        pos := pos + 4;
        SkipPast(data, old(pos), 4);
        return Go(None, Rest());
      }
      return Stop;
    }
  }

  /** parseFields: every round moves the cursor forward. */
  method ParseFields(data: bytes, target: nat) returns (result: bytes, ok: bool)
    ensures result == Scan(data, target, []) && (ok <==> result != [])
  {
    var reader := new ByteReader(data);
    result := [];
    while reader.pos < |reader.data|
      invariant reader.data == data && fresh(reader)
      invariant Scan(reader.Rest(), target, result) == Scan(data, target, [])
      decreases |data| - reader.pos
    {
      ghost var s := reader.Rest();
      var tag := reader.ReadVarint();
      if tag.None? {
        break;
      }
      assert reader.Rest() == s[TakeVarint(s, 0).used..] == data[reader.pos..];
      var step := reader.HandleWireType(tag.value % 8);
      if step.Stop? {
        return result, |result| > 0;
      }
      if tag.value / 8 == target && tag.value % 8 == 2 {
        result := step.content.value;
      }
    }
    ok := |result| > 0;
  }

  // ------------------------------------------------------------------- packets

  /** The last length-delimited field with the target number. */
  function LastMatch(fs: seq<Field>, target: nat, result: bytes): bytes {
    if fs == [] then result
    else LastMatch(fs[1..], target, if fs[0].number == target && fs[0].wire == 2 then fs[0].data else result)
  }

  /** The scanner never takes an empty length-delimited field that ends the input. */
  function Effective(fs: seq<Field>): seq<Field> {
    if fs != [] && fs[|fs| - 1].wire == 2 && fs[|fs| - 1].data == [] then fs[..|fs| - 1] else fs
  }

  /** What follows the tag of a field. */
  function Content(f: Field): bytes {
    (if f.wire == 2 then Varint(|f.data|) else []) + f.data
  }

  lemma HandleField(f: Field, rest: bytes)
    requires WellFormed(f)
    ensures HandleWire(f.wire, Content(f) + rest) ==
            if f.wire == 2 && f.data == [] && rest == [] then Stop
            else Go(if f.wire == 2 then Some(f.data) else None, rest)
  {
    hide TakeVarint, Varint;
    var s := Content(f) + rest;
    match f.wire
    case 0 =>
      var v: u64 :| f.data == Varint(v);
      VarintRoundTrip(v, rest, 0);
      assert s == Varint(v) + rest && s[|Varint(v)|..] == rest;
    case 2 =>
      VarintRoundTrip(|f.data|, f.data + rest, 0);
      assert s == Varint(|f.data|) + (f.data + rest);
      assert s[|Varint(|f.data|)|..] == f.data + rest;
      assert (f.data + rest)[..|f.data|] == f.data && (f.data + rest)[|f.data|..] == rest;
    case 1 =>
      assert s == f.data + rest && Dropped(s, 8) == rest;
    case 5 =>
      assert s == f.data + rest && Dropped(s, 4) == rest;
  }

  lemma BehindTag(f: Field, rest: bytes)
    ensures FieldBytes(f) + rest == Varint(Tag(f.number, f.wire)) + (Content(f) + rest)
  {
    hide Tag, Varint;
  }

  lemma TagRead(f: Field, rest: bytes)
    requires WellFormed(f)
    ensures var s, r := FieldBytes(f) + rest, TakeVarint(FieldBytes(f) + rest, 0);
            s != [] && r.Val? && r.v / 8 == f.number && r.v % 8 == f.wire && s[r.used..] == Content(f) + rest
  {
    var tag := f.number * 8 + f.wire;
    TagPlain(f.number, f.wire);
    hide Tag, WellFormed;
    var t, c := Varint(tag), Content(f) + rest;
    VarintRoundTrip(tag, c, 0);
    hide TakeVarint, Varint;
    assert FieldBytes(f) + rest == t + c by { hide Content; BehindTag(f, rest); }
    assert (t + c)[|t|..] == c;
  }

  lemma ScanField(f: Field, rest: bytes, target: nat, result: bytes)
    requires WellFormed(f)
    ensures Scan(FieldBytes(f) + rest, target, result) ==
            if f.wire == 2 && f.data == [] && rest == [] then result
            else Scan(rest, target, if f.number == target && f.wire == 2 then f.data else result)
  {
    TagRead(f, rest);
    HandleField(f, rest);
    hide TakeVarint, HandleWire, Content, FieldBytes;
  }

  lemma EffectiveTail(fs: seq<Field>)
    requires |fs| > 1
    ensures Effective(fs) != [] && Effective(fs)[0] == fs[0] && Effective(fs)[1..] == Effective(fs[1..])
    ensures FieldsBytes(fs[1..]) != []
  {
  }

  lemma ScanNothing(target: nat, result: bytes)
    ensures Scan([], target, result) == result
  {
  }

  /** Over any list of well-formed fields the scanner returns the last
      length-delimited match among those it takes. */
  lemma {:induction false} ScanFields(fs: seq<Field>, target: nat, result: bytes)
    requires forall k :: 0 <= k < |fs| ==> WellFormed(fs[k])
    ensures Scan(FieldsBytes(fs), target, result) == LastMatch(Effective(fs), target, result)
  {
    if fs == [] {
    } else {
      var f := fs[0];
      ScanField(f, FieldsBytes(fs[1..]), target, result);
      ScanFields(fs[1..], target, if f.number == target && f.wire == 2 then f.data else result);
      hide Scan, FieldBytes, WellFormed;
      if |fs| > 1 {
        EffectiveTail(fs);
      } else {
        assert fs[1..] == [] && fs[..0] == [];
        ScanNothing(target, if f.number == target && f.wire == 2 then f.data else result);
      }
    }
  }

  lemma FieldsCons(f: Field, fs: seq<Field>, tail: bytes)
    ensures FieldsBytes([f] + fs) + tail == FieldBytes(f) + (FieldsBytes(fs) + tail)
  {
    assert ([f] + fs)[1..] == fs;
    hide FieldBytes;
  }

  /** What follows well-formed fields is scanned with the last match among them. */
  lemma {:induction false} ScanBehind(fs: seq<Field>, tail: bytes, target: nat, result: bytes)
    requires tail != [] && forall k :: 0 <= k < |fs| ==> WellFormed(fs[k])
    ensures Scan(FieldsBytes(fs) + tail, target, result) == Scan(tail, target, LastMatch(fs, target, result))
  {
    if fs == [] {
      assert FieldsBytes(fs) + tail == tail;
    } else {
      var f := fs[0];
      assert [f] + fs[1..] == fs;
      FieldsCons(f, fs[1..], tail);
      hide Scan, FieldBytes, WellFormed;
      assert WellFormed(f);
      ScanField(f, FieldsBytes(fs[1..]) + tail, target, result);
      ScanBehind(fs[1..], tail, target, if f.number == target && f.wire == 2 then f.data else result);
    }
  }

  /** A field on which the scan stops: a tag that breaks off, a wire type other
      than 0, 1, 2 and 5, or a length that breaks off or exceeds what is left. */
  ghost predicate Stops(tail: bytes) {
    tail != [] &&
    match TakeVarint(tail, 0)
    case Err(_) => true
    case Val(tag, used) =>
      || (tag % 8 != 0 && tag % 8 != 1 && tag % 8 != 2 && tag % 8 != 5)
      || (tag % 8 == 2 &&
            var length := TakeVarint(tail[used..], 0);
            length.Err? || length.v > |tail| - used - length.used)
  }

  /** A last field whose content is shorter than its wire type says, or not there. */
  ghost predicate RunsOut(tail: bytes) {
    tail != [] && TakeVarint(tail, 0).Val? &&
    var tag, used := TakeVarint(tail, 0).v, TakeVarint(tail, 0).used;
    || (tag % 8 == 0 && TakeVarint(tail[used..], 0).Err? && TakeVarint(tail[used..], 0).used == |tail| - used)
    || (tag % 8 == 1 && |tail| - used < 8)
    || (tag % 8 == 5 && |tail| - used < 4)
  }

  /** Malformed input ends the scan, and what was found before it stands. */
  lemma ScanEnds(fs: seq<Field>, tail: bytes, target: nat)
    requires forall k :: 0 <= k < |fs| ==> WellFormed(fs[k])
    requires Stops(tail) || RunsOut(tail)
    ensures Scan(FieldsBytes(fs) + tail, target, []) == LastMatch(fs, target, [])
  {
    ScanBehind(fs, tail, target, []);
    var result := LastMatch(fs, target, []);
    if Stops(tail) {
      hide TakeVarint;
    } else {
      var used := TakeVarint(tail, 0).used;
      hide TakeVarint;
      ScanNothing(target, result);
      assert HandleWire(TakeVarint(tail, 0).v % 8, tail[used..]) == Go(None, []);
    }
  }

  function UserFields(payload: bytes, msgID: bytes): seq<Field> {
    [Field(2, 2, payload), Field(8, 2, msgID)]
  }

  function PacketFields(payload: bytes, msgID: bytes): seq<Field> {
    [Field(1, 0, Varint(0)), Field(2, 2, FieldsBytes(UserFields(payload, msgID)))]
  }

  lemma TwoFields(f: Field, g: Field)
    ensures FieldsBytes([f, g]) == FieldBytes(f) + FieldBytes(g)
  {
    assert [f, g][1..] == [g];
    assert FieldsBytes([g]) == FieldBytes(g) + FieldsBytes([g][1..]) == FieldBytes(g);
  }

  lemma PacketSizes(payload: bytes, msgID: bytes)
    ensures |FieldsBytes(UserFields(payload, msgID))| <= |FieldsBytes(PacketFields(payload, msgID))|
    ensures |payload| <= |FieldsBytes(UserFields(payload, msgID))|
    ensures |msgID| <= |FieldsBytes(UserFields(payload, msgID))|
  {
    TwoFields(Field(2, 2, payload), Field(8, 2, msgID));
    TwoFields(Field(1, 0, Varint(0)), Field(2, 2, FieldsBytes(UserFields(payload, msgID))));
  }

  /** EncodeDataPacket, for the message id it draws. */
  method EncodeDataPacket(payload: bytes, msgID: bytes) returns (dp: bytes)
    requires |FieldsBytes(PacketFields(payload, msgID))| <= MAX_SLICE
    ensures dp == FieldsBytes(PacketFields(payload, msgID))
  {
    PacketSizes(payload, msgID);
    TwoFields(Field(2, 2, payload), Field(8, 2, msgID));
    TwoFields(Field(1, 0, Varint(0)), Field(2, 2, FieldsBytes(UserFields(payload, msgID))));
    var userFields := EncodeField(2, 2, payload);
    var id := EncodeField(8, 2, msgID);
    userFields := userFields + id;
    var zero := EncodeVarint(0);
    dp := EncodeField(1, 0, zero);
    var data := EncodeField(2, 2, userFields);
    dp := dp + data;
  }

  /** The payload and whether DecodeDataPacket reports success. */
  function Decoded(raw: bytes): (bytes, bool) {
    var userData := Scan(raw, 2, []);
    if userData == [] then ([], false)
    else var payload := Scan(userData, 2, []); (payload, payload != [])
  }

  method DecodeDataPacket(raw: bytes) returns (payload: bytes, ok: bool)
    ensures (payload, ok) == Decoded(raw)
  {
    var userData;
    userData, ok := ParseFields(raw, 2);
    if !ok {
      return [], false;
    }
    payload, ok := ParseFields(userData, 2);
  }

  lemma LastOfTwo(f: Field, g: Field, target: nat)
    ensures LastMatch([f, g], target, []) ==
            if g.number == target && g.wire == 2 then g.data
            else if f.number == target && f.wire == 2 then f.data else []
  {
    assert [f, g][1..] == [g];
    var r := if f.number == target && f.wire == 2 then f.data else [];
    assert LastMatch([g], target, r) == if g.number == target && g.wire == 2 then g.data else r;
  }

  /** The first scan finds the user packet. */
  lemma UserPacketRead(payload: bytes, msgID: bytes)
    requires |FieldsBytes(PacketFields(payload, msgID))| <= MAX_SLICE
    ensures var user := FieldsBytes(UserFields(payload, msgID));
            user != [] && Scan(FieldsBytes(PacketFields(payload, msgID)), 2, []) == user
  {
    PacketSizes(payload, msgID);
    var user := FieldsBytes(UserFields(payload, msgID));
    var zero: u64 := 0;
    assert WellFormed(Field(1, 0, Varint(zero)));
    ScanFields(PacketFields(payload, msgID), 2, []);
    TwoFields(Field(2, 2, payload), Field(8, 2, msgID));
    assert user != [];
    assert Effective(PacketFields(payload, msgID)) == PacketFields(payload, msgID);
    LastOfTwo(Field(1, 0, Varint(0)), Field(2, 2, user), 2);
  }

  /** A scan of the user packet finds the payload in field 2 and the message id in field 8. */
  lemma UserFieldsRead(payload: bytes, msgID: bytes)
    requires |FieldsBytes(PacketFields(payload, msgID))| <= MAX_SLICE
    ensures Scan(FieldsBytes(UserFields(payload, msgID)), 2, []) == payload
    ensures Scan(FieldsBytes(UserFields(payload, msgID)), 8, []) == msgID
  {
    PacketSizes(payload, msgID);
    ScanFields(UserFields(payload, msgID), 2, []);
    ScanFields(UserFields(payload, msgID), 8, []);
    hide Scan, FieldsBytes, FieldBytes, Varint, Tag;
    LastOfTwo(Field(2, 2, payload), Field(8, 2, msgID), 2);
    LastOfTwo(Field(2, 2, payload), Field(8, 2, msgID), 8);
    if msgID == [] {
      assert Effective(UserFields(payload, msgID)) == [Field(2, 2, payload)];
      assert [Field(2, 2, payload)][1..] == [];
    }
  }

  /** Every non-empty payload survives, with any message id; an empty one is the
      only one that does not decode. */
  lemma PacketRoundTrip(payload: bytes, msgID: bytes)
    requires |FieldsBytes(PacketFields(payload, msgID))| <= MAX_SLICE
    ensures Decoded(FieldsBytes(PacketFields(payload, msgID))) == (payload, payload != [])
  {
    UserPacketRead(payload, msgID);
    UserFieldsRead(payload, msgID);
    hide Scan, FieldsBytes;
  }

  /** And the message id is where a scan for field 8 of the user packet finds it. */
  lemma MessageIdRead(payload: bytes, msgID: bytes)
    requires |FieldsBytes(PacketFields(payload, msgID))| <= MAX_SLICE
    ensures Scan(Scan(FieldsBytes(PacketFields(payload, msgID)), 2, []), 8, []) == msgID
  {
    UserPacketRead(payload, msgID);
    UserFieldsRead(payload, msgID);
    hide Scan, FieldsBytes;
  }

  lemma SmallTags()
    ensures Varint(Tag(1, 0)) == [0x08] && Varint(Tag(2, 2)) == [0x12] && Varint(Tag(8, 2)) == [0x42]
  {
    TagPlain(1, 0);
    TagPlain(2, 2);
    TagPlain(8, 2);
    hide Tag;
  }

  lemma FieldLayout(number: i64, tag: byte, data: bytes)
    requires Varint(Tag(number, 2)) == [tag]
    ensures FieldBytes(Field(number, 2, data)) == [tag] + Varint(|data|) + data
  {
    hide Varint, Tag;
  }

  lemma FirstField()
    ensures FieldBytes(Field(1, 0, Varint(0))) == [0x08, 0x00]
  {
    SmallTags();
    assert Varint(0) == [0];
    hide Varint, Tag;
  }

  lemma Chained(x: bytes, a: bytes, b: bytes, c: bytes)
    ensures x + (a + b + c) == x + a + b + c
  {
  }

  /** The bytes of a packet: field 1 is the varint 0, field 2 the user packet, which
      has the payload in its field 2 and the message id in its field 8. */
  lemma PacketLayout(payload: bytes, msgID: bytes)
    ensures var user := [0x12] + Varint(|payload|) + payload + [0x42] + Varint(|msgID|) + msgID;
            FieldsBytes(PacketFields(payload, msgID)) == [0x08, 0x00] + [0x12] + Varint(|user|) + user
  {
    SmallTags();
    FirstField();
    TwoFields(Field(2, 2, payload), Field(8, 2, msgID));
    var user := FieldsBytes(UserFields(payload, msgID));
    TwoFields(Field(1, 0, Varint(0)), Field(2, 2, user));
    hide Tag, Varint, FieldBytes, FieldsBytes;
    FieldLayout(2, 0x12, payload);
    FieldLayout(8, 0x42, msgID);
    FieldLayout(2, 0x12, user);
    Chained([0x12] + Varint(|payload|) + payload, [0x42], Varint(|msgID|), msgID);
    Chained([0x08, 0x00], [0x12], Varint(|user|), user);
  }

  ghost predicate SliceOf(x: bytes, s: bytes) {
    exists a, b :: 0 <= a <= b <= |s| && x == s[a..b]
  }

  lemma SliceOfSuffix(x: bytes, s: bytes, skip: nat)
    requires skip <= |s| && SliceOf(x, s[skip..])
    ensures SliceOf(x, s)
  {
    var a, b :| 0 <= a <= b <= |s| - skip && x == s[skip..][a..b];
    assert x == s[skip + a..skip + b];
  }

  lemma WireSlices(wire: nat, s: bytes)
    requires HandleWire(wire, s).Go?
    ensures var step := HandleWire(wire, s);
            && step.rest == s[|s| - |step.rest|..]
            && (step.content.Some? ==> SliceOf(step.content.value, s))
  {
    if HandleWire(wire, s).content.Some? {
      var used, n := TakeVarint(s, 0).used, |HandleWire(wire, s).content.value|;
      assert s[used..][..n] == s[used..used + n];
    }
  }

  /** On arbitrary bytes the result is what the scan started with, or a
      contiguous slice of the input. */
  lemma {:induction false} ScanSlice(s: bytes, target: nat, result: bytes)
    ensures Scan(s, target, result) == result || SliceOf(Scan(s, target, result), s)
    decreases |s|
  {
    if s == [] || TakeVarint(s, 0).Err? {
    } else {
      var tag, used := TakeVarint(s, 0).v, TakeVarint(s, 0).used;
      var step := HandleWire(tag % 8, s[used..]);
      if step.Go? {
        WireSlices(tag % 8, s[used..]);
        var next := if tag / 8 == target && step.content.Some? then step.content.value else result;
        assert Scan(s, target, result) == Scan(step.rest, target, next);
        hide TakeVarint, HandleWire, SliceOf, Scan;
        var skip := |s| - |step.rest|;
        assert step.rest == s[skip..];
        ScanSlice(step.rest, target, next);
        if step.content.Some? {
          SliceOfSuffix(step.content.value, s, used);
        }
        if SliceOf(Scan(step.rest, target, next), step.rest) {
          SliceOfSuffix(Scan(step.rest, target, next), s, skip);
        }
      }
    }
  }
}
