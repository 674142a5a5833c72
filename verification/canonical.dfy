/**
 Canonical little-endian marker varints and ZigZag integers: a byte up to 250 is the value
 itself, the markers 251 to 254 announce 2, 4, 8 or 16 little-endian bytes, and a value is only
 accepted in its narrowest form.
 */
module Canonical {
  import opened Bytes

  const MARKER_U16 := 251
  const MARKER_U32 := 252
  const MARKER_U64 := 253
  const MARKER_U128 := 254

  const U16_LIMIT := 0x1_0000
  const I128_LIMIT := 0x8000_0000_0000_0000_0000_0000_0000_0000  // 2^127
  const U128_LIMIT := 0x1_0000_0000_0000_0000_0000_0000_0000_0000

  /** The first byte: the value itself, or the marker of the narrowest payload that holds it. */
  function MarkerFor(value: nat): Byte {
    if value <= 250 then value
    else if value < U16_LIMIT then MARKER_U16
    else if value < U32_LIMIT then MARKER_U32
    else if value < U64_LIMIT then MARKER_U64
    else MARKER_U128
  }

  function WidthFor(value: nat): (width: nat)
    ensures width <= 16 && (value < U64_LIMIT ==> width <= 8)
  {
    if value <= 250 then 0
    else if value < U16_LIMIT then 2
    else if value < U32_LIMIT then 4
    else if value < U64_LIMIT then 8
    else 16
  }

  function EncodeVarint(value: nat): (bytes: seq<Byte>)
    requires value < U128_LIMIT
    ensures 1 <= |bytes| <= 17
    ensures value < U64_LIMIT ==> |bytes| <= 9
  {
    [MarkerFor(value)] + LeBytes(value, WidthFor(value))
  }

  /** Payload bytes announced by a marker; 255 is reserved. */
  function PayloadWidth(marker: Byte): (width: Option<nat>)
    ensures width.Some? <==> marker != 255
  {
    if marker <= 250 then Some(0)
    else if marker == MARKER_U16 then Some(2)
    else if marker == MARKER_U32 then Some(4)
    else if marker == MARKER_U64 then Some(8)
    else if marker == MARKER_U128 then Some(16)
    else None
  }

  /** The smallest value that needs a marker. */
  function Minimum(marker: Byte): nat {
    if marker <= 250 then 0
    else if marker == MARKER_U16 then 251
    else if marker == MARKER_U32 then U16_LIMIT
    else if marker == MARKER_U64 then U32_LIMIT
    else U64_LIMIT
  }

  /** `decode_varint_le`: nothing for a reserved marker, a short payload or a narrow value. */
  function DecodeVarint(marker: Byte, payload: seq<Byte>): Option<nat> {
    if marker <= 250 then Some(marker)
    else match PayloadWidth(marker)
      case None => None
      case Some(width) =>
        if |payload| < width then None
        else
          var value := LeValue(payload[..width]);
          if value < Minimum(marker) then None else Some(value)
  }

  /** `decode_varint_le_u64`: the same without the widest marker. */
  function DecodeVarintU64(marker: Byte, payload: seq<Byte>): Option<nat> {
    if marker <= 250 then Some(marker)
    else if marker == MARKER_U16 then NarrowAtLeast(payload, 2, 251)
    else if marker == MARKER_U32 then NarrowAtLeast(payload, 4, U16_LIMIT)
    else if marker == MARKER_U64 then NarrowAtLeast(payload, 8, U32_LIMIT)
    else None
  }

  function NarrowAtLeast(payload: seq<Byte>, width: nat, minimum: nat): Option<nat> {
    if |payload| < width || LeValue(payload[..width]) < minimum then None else Some(LeValue(payload[..width]))
  }

  // ---------- Limits of the payload widths ----------

  function WidthLimit(width: nat): nat {
    if width == 2 then U16_LIMIT
    else if width == 4 then U32_LIMIT
    else if width == 8 then U64_LIMIT
    else if width == 16 then U128_LIMIT
    else 1
  }

  lemma WidthLimits(width: nat)
    requires width == 2 || width == 4 || width == 8 || width == 16
    ensures WidthLimit(width) == Pow2(8 * width)
  {
    Pow2Table();
    if width == 2 {
      assert 8 * width == 16;
    } else if width == 4 {
      assert 8 * width == 32;
    } else if width == 8 {
      assert 8 * width == 64;
    } else {
      assert 8 * width == 128;
    }
  }

  lemma PayloadReadsBack(value: nat, width: nat)
    requires width == 2 || width == 4 || width == 8 || width == 16
    requires value < WidthLimit(width)
    ensures LeValue(LeBytes(value, width)) == value
  {
    WidthLimits(width);
    LeValueOfBytes(value, width);
  }

  lemma PayloadIsBytes(payload: seq<Byte>)
    requires |payload| == 2 || |payload| == 4 || |payload| == 8 || |payload| == 16
    ensures LeValue(payload) < WidthLimit(|payload|)
    ensures LeBytes(LeValue(payload), |payload|) == payload
  {
    WidthLimits(|payload|);
    LeBytesOfValue(payload);
  }

  // ---------- The encoding is a bijection onto the accepted byte strings ----------

  lemma EncodedParts(value: nat)
    requires value < U128_LIMIT
    ensures EncodeVarint(value)[0] == MarkerFor(value)
    ensures PayloadWidth(MarkerFor(value)) == Some(|EncodeVarint(value)| - 1)
    ensures DecodeVarint(MarkerFor(value), EncodeVarint(value)[1..]) == Some(value)
  {
    if value > 250 {
      var width := PayloadWidth(MarkerFor(value)).value;
      PayloadReadsBack(value, width);
      assert EncodeVarint(value)[1..] == LeBytes(value, width);
      assert LeBytes(value, width)[..width] == LeBytes(value, width);
    }
  }

  lemma DecodedIsEncoded(marker: Byte, payload: seq<Byte>)
    requires PayloadWidth(marker) == Some(|payload|) && DecodeVarint(marker, payload).Some?
    ensures DecodeVarint(marker, payload).value < U128_LIMIT
    ensures EncodeVarint(DecodeVarint(marker, payload).value) == [marker] + payload
    ensures MarkerFor(DecodeVarint(marker, payload).value) == marker
  {
    if marker > 250 {
      PayloadIsBytes(payload);
      assert payload[..|payload|] == payload;
    } else {
      assert payload == [];
    }
  }

  /** The `u64` reader agrees with the general one on every marker but the widest. */
  lemma NarrowReaderAgrees(marker: Byte, payload: seq<Byte>)
    ensures DecodeVarintU64(marker, payload) == if marker == MARKER_U128 then None else DecodeVarint(marker, payload)
  {
  }

  // ---------- Reading at a position ----------

  datatype VarintRead =
    | Cut
    | BadMarker(marker: Byte)
    | NonCanonical
    | Read(value: nat, next: nat)

  /** What stands at a position of an input. */
  function ReadVarint(input: seq<Byte>, pos: nat): VarintRead {
    if pos >= |input| then Cut
    else
      var marker := input[pos];
      match PayloadWidth(marker)
      case None => BadMarker(marker)
      case Some(width) =>
        if pos + 1 + width > |input| then Cut
        else
          match DecodeVarint(marker, input[pos + 1..pos + 1 + width])
          case None => NonCanonical
          case Some(value) => Read(value, pos + 1 + width)
  }

  /** Reading an encoded value gives it back and stops right behind it. */
  lemma VarintReadsBack(input: seq<Byte>, pos: nat, value: nat)
    requires value < U128_LIMIT && At(input, pos, EncodeVarint(value))
    ensures ReadVarint(input, pos) == Read(value, pos + |EncodeVarint(value)|)
  {
    var bytes := EncodeVarint(value);
    EncodedParts(value);
    assert input[pos] == bytes[0];
    SliceOfSlice(input, pos, pos + |bytes|, 1, |bytes|);
  }

  /** Whatever is read, the bytes consumed are the encoding of the value: there is no other form. */
  lemma VarintIsCanonical(input: seq<Byte>, pos: nat)
    requires ReadVarint(input, pos).Read?
    ensures var r := ReadVarint(input, pos);
      r.value < U128_LIMIT && r.next == pos + |EncodeVarint(r.value)| && At(input, pos, EncodeVarint(r.value))
  {
    var width := PayloadWidth(input[pos]).value;
    var payload := input[pos + 1..pos + 1 + width];
    DecodedIsEncoded(input[pos], payload);
    assert input[pos..pos + 1 + width] == [input[pos]] + payload;
  }

  /** Length of the leading run of single-byte varints. */
  function PlainPrefix(window: seq<Byte>): (n: nat)
    ensures n <= |window|
    ensures forall i :: 0 <= i < n ==> window[i] <= 250
  {
    if window == [] || window[0] > 250 then 0 else 1 + PlainPrefix(window[1..])
  }

  // ---------- ZigZag ----------

  predicate IsI128(value: int) {
    -I128_LIMIT <= value < I128_LIMIT
  }

  /** Two's complement pattern of `value << 1`. */
  function ShiftedLeft(value: int): nat {
    (2 * value) % U128_LIMIT
  }

  /** Xor with an arithmetic sign shift: all zeros, or all ones. */
  function XorSign(pattern: nat, negative: bool): int {
    if negative then U128_LIMIT - 1 - pattern else pattern
  }

  /** `((value << 1) ^ (value >> 127)) as u128`. */
  function ShiftXor(value: int): int
    requires IsI128(value)
  {
    XorSign(ShiftedLeft(value), value < 0)
  }

  /** Non-negative integers on the even numbers, negative ones on the odd. */
  function ZigZag(value: int): (encoded: nat)
    requires IsI128(value)
    ensures encoded < U128_LIMIT
  {
    if value < 0 then -2 * value - 1 else 2 * value
  }

  lemma ShiftXorIsZigZag(value: int)
    requires IsI128(value)
    ensures ShiftXor(value) == ZigZag(value)
  {
    if value < 0 {
      assert (2 * value) % U128_LIMIT == 2 * value + U128_LIMIT;
    }
  }

  /** `(encoded >> 1) ^ -(encoded & 1)`: xor with minus one is `-x - 1`. */
  function UnZigZag(encoded: nat): (value: int)
    requires encoded < U128_LIMIT
    ensures IsI128(value)
  {
    if encoded % 2 == 1 then -(encoded / 2) - 1 else encoded / 2
  }

  lemma ZigZagReadsBack(value: int)
    requires IsI128(value)
    ensures UnZigZag(ZigZag(value)) == value
  {
    if value < 0 {
      assert ZigZag(value) % 2 == 1;
    }
  }

  lemma UnZigZagReadsBack(encoded: nat)
    requires encoded < U128_LIMIT
    ensures ZigZag(UnZigZag(encoded)) == encoded
  {
    assert encoded == 2 * (encoded / 2) + encoded % 2;
  }

  /** Integers of fewer bits stay within the unsigned type of the same width. */
  lemma ZigZagFits(value: int, half: int)
    requires 0 <= half <= I128_LIMIT && IsI128(value)
    ensures ZigZag(value) < 2 * half <==> -half <= value < half
  {
  }
}
