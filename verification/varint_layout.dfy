/**
 Numbers at a position, byte by byte: the reference that encodings are measured against, which
 says nothing of how they are written or read.
 */
module VarintLayout {
  import opened Bytes
  import opened Canonical

  /** `n` lies between two positions: in one byte up to 250, else behind the marker of the least width that holds it. */
  predicate NumberAt(bytes: seq<Byte>, pos: nat, n: nat, end: nat) {
    && pos < end <= |bytes|
    && if n <= 250 then end == pos + 1 && bytes[pos] == n
       else if n <= 0xffff then
         end == pos + 3 && bytes[pos] == 251 && n == bytes[pos + 1] as nat + 0x100 * bytes[pos + 2] as nat
       else if n <= 0xffff_ffff then
         && end == pos + 5 && bytes[pos] == 252
         && n == bytes[pos + 1] as nat + 0x100 * bytes[pos + 2] as nat + 0x1_0000 * bytes[pos + 3] as nat
                 + 0x100_0000 * bytes[pos + 4] as nat
       else if n <= 0xffff_ffff_ffff_ffff then end == pos + 9 && bytes[pos] == 253 && LeValue(bytes[pos + 1..end]) == n
       else end == pos + 17 && bytes[pos] == 254 && LeValue(bytes[pos + 1..end]) == n
  }

  lemma TwoBytes(b: seq<Byte>)
    requires |b| == 2
    ensures LeValue(b) == b[0] as nat + 0x100 * b[1] as nat
  {
    assert b[1..][1..] == [] && LeValue(b[1..]) == b[1] as nat + 256 * LeValue([]);
  }

  lemma FourBytes(b: seq<Byte>)
    requires |b| == 4
    ensures LeValue(b) == b[0] as nat + 0x100 * b[1] as nat + 0x1_0000 * b[2] as nat + 0x100_0000 * b[3] as nat
  {
    TwoBytes(b[2..]);
    assert b[1..][1..] == b[2..];
  }

  /** An encoded number lies where its bytes stand. */
  lemma EncodedLies(bytes: seq<Byte>, pos: nat, n: nat, end: nat)
    requires n < U128_LIMIT && At(bytes, pos, EncodeVarint(n)) && end == pos + |EncodeVarint(n)|
    ensures NumberAt(bytes, pos, n, end)
  {
    var width := WidthFor(n);
    AtFirst(bytes, pos, EncodeVarint(n), MarkerFor(n), LeBytes(n, width));
    if n > 250 {
      PayloadReadsBack(n, width);
      PayloadLies(bytes, pos, n, end, bytes[pos + 1..end]);
    }
  }

  lemma PayloadLies(bytes: seq<Byte>, pos: nat, n: nat, end: nat, payload: seq<Byte>)
    requires 250 < n < U128_LIMIT && pos < |bytes| && bytes[pos] == MarkerFor(n)
    requires end == pos + 1 + WidthFor(n) <= |bytes| && payload == bytes[pos + 1..end] && LeValue(payload) == n
    ensures NumberAt(bytes, pos, n, end)
  {
    if n <= 0xffff {
      TwoBytes(payload);
    } else if n <= 0xffff_ffff {
      FourBytes(payload);
    }
  }

  /** Signed integers on the numbers: 0, -1, 1, -2, 2 and so on. */
  predicate SignedAt(bytes: seq<Byte>, pos: nat, i: int, end: nat) {
    NumberAt(bytes, pos, if i < 0 then -2 * i - 1 else 2 * i, end)
  }

  lemma SignedLies(bytes: seq<Byte>, pos: nat, i: int, end: nat)
    requires IsI128(i) && At(bytes, pos, EncodeVarint(ZigZag(i))) && end == pos + |EncodeVarint(ZigZag(i))|
    ensures SignedAt(bytes, pos, i, end)
  {
    EncodedLies(bytes, pos, ZigZag(i), end);
  }
}
