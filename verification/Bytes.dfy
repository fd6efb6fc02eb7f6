/** Byte strings, the fixed-width integers of the wire formats, and the small
    amount of sequence algebra every codec in the project relies on. */
module Bytes {
  type byte = b: int | 0 <= b < 0x100
  type u16 = n: int | 0 <= n < 0x1_0000
  type u32 = n: int | 0 <= n < 0x1_0000_0000
  type bytes = seq<byte>

  datatype Option<+T> = None | Some(value: T)
  datatype Result<+T, +E> = Success(value: T) | Failure(error: E)

  /** Concatenation of a list of byte strings. */
  function Flatten(parts: seq<bytes>): (r: bytes) {
    if parts == [] then [] else parts[0] + Flatten(parts[1..])
  }

  /** A list may be cut anywhere. */
  lemma {:induction false} FlattenCut(parts: seq<bytes>, k: nat)
    requires k <= |parts|
    ensures Flatten(parts) == Flatten(parts[..k]) + Flatten(parts[k..])
  {
    if k == 0 {
      assert parts[0..] == parts && Flatten(parts[..0]) == [];
    } else {
      FlattenCut(parts[1..], k - 1);
      assert parts[1..][..k - 1] == parts[..k][1..] && parts[1..][k - 1..] == parts[k..];
    }
  }

  lemma FlattenSnoc(xs: seq<bytes>, y: bytes)
    ensures Flatten(xs + [y]) == Flatten(xs) + y
  {
    var all := xs + [y];
    FlattenCut(all, |xs|);
    assert all[..|xs|] == xs && all[|xs|..] == [y];
    assert Flatten([y]) == y + Flatten([]);
  }

  /** The list without its empty members. */
  function NonEmpty(parts: seq<bytes>): seq<bytes> {
    if parts == [] then [] else (if parts[0] == [] then [] else [parts[0]]) + NonEmpty(parts[1..])
  }

  /** The chosen positions, listed in increasing order. */
  ghost predicate Lists(at: seq<nat>, chosen: set<nat>) {
    && (forall i, j :: 0 <= i < j < |at| ==> at[i] < at[j])
    && forall x :: x in at <==> x in chosen
  }

  lemma ListsSnoc(at: seq<nat>, chosen: set<nat>, n: nat)
    requires Lists(at, chosen) && forall x :: x in chosen ==> x < n
    ensures Lists(at + [n], chosen + {n})
  {
    forall i | 0 <= i < |at| ensures at[i] < n {
      assert at[i] in chosen;
    }
    assert forall x :: x in at + [n] <==> x in at || x == n;
  }

  lemma ListsFront(at: seq<nat>, chosen: set<nat>)
    requires Lists(at, chosen) && at != []
    ensures Lists(at[..|at| - 1], chosen - {at[|at| - 1]}) && at[|at| - 1] in chosen
    ensures forall x :: x in chosen ==> x <= at[|at| - 1]
  {
    var front, last := at[..|at| - 1], at[|at| - 1];
    assert at == front + [last];
    forall x | x in at ensures x <= last && (x in front <==> x != last) {
      var i :| 0 <= i < |at| && at[i] == x;
      assert i < |front| ==> front[i] == x;
    }
    assert forall x :: x in front ==> x in at;
  }

  lemma ListsEmpty(at: seq<nat>, chosen: set<nat>)
    requires Lists(at, chosen)
    ensures at == [] <==> chosen == {}
  {
    if at != [] {
      assert at[0] in chosen;
    }
  }

  /** There is only one such list. */
  lemma {:induction false} ListsUnique(at: seq<nat>, other: seq<nat>, chosen: set<nat>)
    requires Lists(at, chosen) && Lists(other, chosen)
    ensures at == other
  {
    ListsEmpty(at, chosen);
    ListsEmpty(other, chosen);
    if at == [] {
    } else {
      ListsFront(at, chosen);
      ListsFront(other, chosen);
      hide Lists;
      var last := at[|at| - 1];
      assert last == other[|other| - 1];
      ListsUnique(at[..|at| - 1], other[..|other| - 1], chosen - {last});
      assert at == at[..|at| - 1] + [last] && other == other[..|other| - 1] + [last];
    }
  }

  /** The result of the source's uint32(n) conversion. */
  function ToU32(n: nat): u32 { n % 0x1_0000_0000 }

  /** The result of the source's uint16(n) conversion. */
  function ToU16(n: nat): u16 { n % 0x1_0000 }

  /** Big-endian layout of a 32-bit value. */
  function U32Bytes(v: u32): (r: bytes)
    ensures |r| == 4
  {
    [v / 0x100 / 0x100 / 0x100, v / 0x100 / 0x100 % 0x100, v / 0x100 % 0x100, v % 0x100]
  }

  function U16Bytes(v: u16): (r: bytes)
    ensures |r| == 2
  {
    [v / 0x100, v % 0x100]
  }

  function ReadU32(s: bytes): u32
    requires |s| == 4
  {
    (((s[0] as int) * 0x100 + s[1]) * 0x100 + s[2]) * 0x100 + s[3]
  }

  function ReadU16(s: bytes): u16
    requires |s| == 2
  {
    (s[0] as int) * 0x100 + s[1]
  }

  lemma DigitSplit(high: nat, low: byte)
    ensures (high * 0x100 + low) / 0x100 == high && (high * 0x100 + low) % 0x100 == low
  {
  }

  lemma ReadU32Inverse(v: u32, s: bytes)
    requires |s| == 4
    ensures ReadU32(U32Bytes(v)) == v
    ensures U32Bytes(ReadU32(s)) == s
    ensures ReadU32(s) == 0x100_0000 * (s[0] as int) + 0x1_0000 * (s[1] as int) + 0x100 * (s[2] as int) + s[3]
  {
    var top: nat := (s[0] as int) * 0x100 + s[1];
    DigitSplit(s[0], s[1]);
    DigitSplit(top, s[2]);
    DigitSplit(top * 0x100 + s[2], s[3]);
  }

  lemma ReadU16Inverse(v: u16, s: bytes)
    requires |s| == 2
    ensures ReadU16(U16Bytes(v)) == v
    ensures U16Bytes(ReadU16(s)) == s
    ensures ReadU16(s) == 0x100 * (s[0] as int) + s[1]
  {
  }

  /** binary.BigEndian.PutUint32(a[off:off+4], v). */
  method PutU32(a: array<byte>, off: nat, v: u32)
    requires off + 4 <= a.Length
    modifies a
    ensures a[..] == old(a[..off]) + U32Bytes(v) + old(a[off + 4..])
  {
    a[off], a[off + 1] := v / 0x100 / 0x100 / 0x100, v / 0x100 / 0x100 % 0x100;
    a[off + 2], a[off + 3] := v / 0x100 % 0x100, v % 0x100;
  }

  /** binary.BigEndian.PutUint16(a[off:off+2], v). */
  method PutU16(a: array<byte>, off: nat, v: u16)
    requires off + 2 <= a.Length
    modifies a
    ensures a[..] == old(a[..off]) + U16Bytes(v) + old(a[off + 2..])
  {
    a[off], a[off + 1] := v / 0x100, v % 0x100;
  }

  /** copy(a[off:], src) for a source that fits. */
  method CopyInto(a: array<byte>, off: nat, src: bytes)
    requires off + |src| <= a.Length
    modifies a
    ensures a[..] == old(a[..off]) + src + old(a[off + |src|..])
  {
    for i := 0 to |src|
      invariant forall k :: 0 <= k < a.Length ==> a[k] == if off <= k < off + i then src[k - off] else old(a[k])
    {
      a[off + i] := src[i];
    }
  }
}
