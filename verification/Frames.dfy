/** The transport frames of seichannel and videochannel: a fixed header, then
    the fragment.  Both packages share the layout; only the magic differs. */
module Frames {
  import opened Bytes

  const SEI_MAGIC: u32 := 0x4f56_4331
  const VISUAL_MAGIC: u32 := 0x4f56_5632
  const VERSION: byte := 1
  const TYPE_DATA: byte := 1
  const TYPE_ACK: byte := 2
  const ACK_LEN := 14
  const DATA_HDR_LEN := 22

  datatype Frame =
    | Data(seqno: u32, crc: u32, totalLen: u32, fragIdx: u16, fragTotal: u16, payload: bytes)
    | Ack(seqno: u32, crc: u32)

  datatype DecodeError =
    FrameTooShort | UnexpectedMagic | UnexpectedVersion | AckTooShort | DataTooShort | UnexpectedFrameType

  /** The header both frame types start with. */
  function Prefix(magic: u32, typ: byte, seqno: u32, crc: u32): (r: bytes)
    ensures |r| == ACK_LEN
  {
    U32Bytes(magic) + [VERSION, typ] + U32Bytes(seqno) + U32Bytes(crc)
  }

  /** The wire form of a frame. */
  function Wire(magic: u32, f: Frame): bytes {
    match f
    case Ack(seqno, crc) => Prefix(magic, TYPE_ACK, seqno, crc)
    case Data(seqno, crc, totalLen, fragIdx, fragTotal, payload) =>
      Prefix(magic, TYPE_DATA, seqno, crc) + U32Bytes(totalLen) + U16Bytes(fragIdx) + U16Bytes(fragTotal) + payload
  }

  /** The frame encodeDataFrame describes: counts are cut to their field widths. */
  function DataFrame(seqno: u32, crc: u32, totalLen: nat, fragIdx: nat, fragTotal: nat, payload: bytes): Frame {
    Data(seqno, crc, ToU32(totalLen), ToU16(fragIdx), ToU16(fragTotal), payload)
  }

  method PutPrefix(magic: u32, typ: byte, seqno: u32, crc: u32, out: array<byte>)
    requires out.Length >= ACK_LEN
    modifies out
    ensures out[..] == Prefix(magic, typ, seqno, crc) + old(out[ACK_LEN..])
  {
    ghost var rest := out[ACK_LEN..];
    PutU32(out, 0, magic);
    out[4], out[5] := VERSION, typ;
    assert out[..6] == U32Bytes(magic) + [VERSION, typ] && out[ACK_LEN..] == rest;
    PutU32(out, 6, seqno);
    assert out[..10] == U32Bytes(magic) + [VERSION, typ] + U32Bytes(seqno) && out[ACK_LEN..] == rest;
    PutU32(out, 10, crc);
  }

  method EncodeDataFrame(magic: u32, seqno: u32, crc: u32, totalLen: nat, fragIdx: nat, fragTotal: nat, payload: bytes)
    returns (out: array<byte>)
    ensures fresh(out)
    ensures out[..] == Wire(magic, DataFrame(seqno, crc, totalLen, fragIdx, fragTotal, payload))
  {
    out := new byte[DATA_HDR_LEN + |payload|](i => 0);
    PutPrefix(magic, TYPE_DATA, seqno, crc, out);
    PutU32(out, 14, ToU32(totalLen));
    assert out[..18] == Prefix(magic, TYPE_DATA, seqno, crc) + U32Bytes(ToU32(totalLen));
    PutU16(out, 18, ToU16(fragIdx));
    assert out[..20] == Prefix(magic, TYPE_DATA, seqno, crc) + U32Bytes(ToU32(totalLen)) + U16Bytes(ToU16(fragIdx));
    PutU16(out, 20, ToU16(fragTotal));
    CopyInto(out, DATA_HDR_LEN, payload);
  }

  method EncodeAckFrame(magic: u32, seqno: u32, crc: u32) returns (out: array<byte>)
    ensures fresh(out)
    ensures out[..] == Wire(magic, Ack(seqno, crc))
  {
    out := new byte[ACK_LEN](i => 0);
    PutPrefix(magic, TYPE_ACK, seqno, crc, out);
  }

  /** decodeTransportFrame. */
  function Decode(magic: u32, data: bytes): Result<Frame, DecodeError> {
    if |data| < 6 then Failure(FrameTooShort)
    else if ReadU32(data[0..4]) != magic then Failure(UnexpectedMagic)
    else if data[4] != VERSION then Failure(UnexpectedVersion)
    else if data[5] == TYPE_ACK then
      if |data| < ACK_LEN then Failure(AckTooShort)
      else Success(Ack(ReadU32(data[6..10]), ReadU32(data[10..14])))
    else if data[5] == TYPE_DATA then
      if |data| < DATA_HDR_LEN then Failure(DataTooShort)
      else Success(Data(ReadU32(data[6..10]), ReadU32(data[10..14]), ReadU32(data[14..18]),
                        ReadU16(data[18..20]), ReadU16(data[20..22]), data[22..]))
    else Failure(UnexpectedFrameType)
  }

  lemma DecodeWire(magic: u32, f: Frame)
    ensures Decode(magic, Wire(magic, f)) == Success(f)
  {
    var w := Wire(magic, f);
    ReadU32Inverse(magic, w[0..4]);
    ReadU32Inverse(f.seqno, w[6..10]);
    ReadU32Inverse(f.crc, w[10..14]);
    assert w[0..4] == U32Bytes(magic) && w[6..10] == U32Bytes(f.seqno) && w[10..14] == U32Bytes(f.crc);
    if f.Data? {
      ReadU32Inverse(f.totalLen, w[14..18]);
      ReadU16Inverse(f.fragIdx, w[18..20]);
      ReadU16Inverse(f.fragTotal, w[20..22]);
      assert w[14..18] == U32Bytes(f.totalLen);
      assert w[18..20] == U16Bytes(f.fragIdx) && w[20..22] == U16Bytes(f.fragTotal);
      assert w[22..] == f.payload;
    }
  }

  /** The layout, byte by byte; all numbers are big-endian. */
  lemma WireLayout(magic: u32, f: Frame)
    ensures var w := Wire(magic, f);
            && |w| == (if f.Data? then 22 + |f.payload| else 14)
            && ReadU32(w[0..4]) == magic && w[4] == 1 && w[5] == (if f.Data? then 1 else 2)
            && ReadU32(w[6..10]) == f.seqno && ReadU32(w[10..14]) == f.crc
            && (f.Data? ==>
                  && ReadU32(w[14..18]) == f.totalLen && ReadU16(w[18..20]) == f.fragIdx
                  && ReadU16(w[20..22]) == f.fragTotal && w[22..] == f.payload)
  {
    DecodeWire(magic, f);
    hide ReadU32, ReadU16, U32Bytes, U16Bytes;
  }

  /** And why a byte string is refused, in the order of the tests. */
  lemma DecodeRefuses(magic: u32, data: bytes)
    ensures var r, head := Decode(magic, data), U32Bytes(magic);
            && (r == Failure(FrameTooShort) <==> |data| < 6)
            && (r == Failure(UnexpectedMagic) <==> |data| >= 6 && !(head <= data))
            && (r == Failure(UnexpectedVersion) <==> |data| >= 6 && head <= data && data[4] != 1)
            && (r == Failure(AckTooShort) <==> |data| < 14 && head + [1, 2] <= data)
            && (r == Failure(DataTooShort) <==> |data| < 22 && head + [1, 1] <= data)
            && (r == Failure(UnexpectedFrameType) <==>
                  |data| >= 6 && head + [1] <= data && data[5] != 1 && data[5] != 2)
  {
    if |data| >= 6 {
      ReadU32Inverse(magic, data[0..4]);
      assert U32Bytes(magic) <= data <==> data[0..4] == U32Bytes(magic);
    }
    hide ReadU32, ReadU16, U32Bytes;
  }

  lemma WireSplit(magic: u32, data: bytes)
    requires |data| >= ACK_LEN
    requires ReadU32(data[0..4]) == magic && data[4] == VERSION
    ensures data[..ACK_LEN] == Prefix(magic, data[5], ReadU32(data[6..10]), ReadU32(data[10..14]))
  {
    ReadU32Inverse(magic, data[0..4]);
    ReadU32Inverse(0, data[6..10]);
    ReadU32Inverse(0, data[10..14]);
    assert data[..ACK_LEN] == data[0..4] + [data[4], data[5]] + data[6..10] + data[10..14];
  }

  /** The decoder accepts exactly the wire forms; an ack may carry trailing
      bytes, a data frame owns everything after its header. */
  lemma DecodeAccepts(magic: u32, data: bytes, f: Frame)
    ensures Decode(magic, data) == Success(f) <==>
            if f.Data? then data == Wire(magic, f)
            else |data| >= ACK_LEN && data[..ACK_LEN] == Wire(magic, f)
  {
    DecodeWire(magic, f);
    if Decode(magic, data) == Success(f) {
      WireSplit(magic, data);
      if f.Data? {
        ReadU32Inverse(0, data[14..18]);
        ReadU16Inverse(0, data[18..20]);
        ReadU16Inverse(0, data[20..22]);
        assert data == data[..ACK_LEN] + data[14..18] + data[18..20] + data[20..22] + data[22..];
      }
    }
    if f.Ack? && |data| >= ACK_LEN && data[..ACK_LEN] == Wire(magic, f) {
      var w := Wire(magic, f);
      assert data[0..4] == w[0..4] && data[4] == w[4] && data[5] == w[5];
      assert data[6..10] == w[6..10] && data[10..14] == w[10..14];
    }
  }

  /** A frame of one package is never taken for a frame of the other. */
  lemma MagicSeparates(magic: u32, other: u32, f: Frame)
    requires magic != other
    ensures Decode(other, Wire(magic, f)) == Failure(UnexpectedMagic)
  {
    var w := Wire(magic, f);
    assert w[0..4] == U32Bytes(magic);
    ReadU32Inverse(magic, w[0..4]);
  }

  lemma PackagesSeparate(f: Frame)
    ensures Decode(VISUAL_MAGIC, Wire(SEI_MAGIC, f)) == Failure(UnexpectedMagic)
    ensures Decode(SEI_MAGIC, Wire(VISUAL_MAGIC, f)) == Failure(UnexpectedMagic)
  {
    MagicSeparates(SEI_MAGIC, VISUAL_MAGIC, f);
    MagicSeparates(VISUAL_MAGIC, SEI_MAGIC, f);
    hide Wire, Decode;
  }
}
