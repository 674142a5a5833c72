/** Well-formed UTF-8. */
module Utf {
  import opened Bytes

  /** A continuation byte within bounds, narrower after some lead bytes. */
  predicate Tail(bytes: seq<Byte>, i: nat, low: nat, high: nat) {
    i < |bytes| && low <= bytes[i] <= high
  }

  /** Well-formed UTF-8: Table 3-7 of the Unicode Standard. */
  predicate Utf8(bytes: seq<Byte>) {
    bytes == [] ||
    var b := bytes[0];
    if b < 0x80 then Utf8(bytes[1..])
    else if 0xc2 <= b <= 0xdf then Tail(bytes, 1, 0x80, 0xbf) && Utf8(bytes[2..])
    else if 0xe0 <= b <= 0xef then
      && Tail(bytes, 1, if b == 0xe0 then 0xa0 else 0x80, if b == 0xed then 0x9f else 0xbf)
      && Tail(bytes, 2, 0x80, 0xbf)
      && Utf8(bytes[3..])
    else
      && 0xf0 <= b <= 0xf4
      && Tail(bytes, 1, if b == 0xf0 then 0x90 else 0x80, if b == 0xf4 then 0x8f else 0xbf)
      && Tail(bytes, 2, 0x80, 0xbf) && Tail(bytes, 3, 0x80, 0xbf)
      && Utf8(bytes[4..])
  }
}
