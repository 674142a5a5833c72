/**
 The bytes of a differential frame by their places: sixteen header bytes, then every update as the
 position of the value in the table or as its length and its bytes.
 */
module DeltaLayout {
  import opened Bytes
  import opened Canonical
  import opened DeltaFrames

  // ---------- Groups of seven bits ----------

  /** The lowest seven bits of every byte, least significant byte first. */
  function SevenBits(bytes: seq<Byte>, pos: nat, end: nat): nat
    requires end <= |bytes|
    decreases end - pos
  {
    if pos >= end then 0 else bytes[pos] as nat % 128 + 128 * SevenBits(bytes, pos + 1, end)
  }

  /** Every byte but the last has its high bit set, and the last is zero only alone. */
  predicate GroupsAt(bytes: seq<Byte>, pos: nat, n: nat, end: nat) {
    && pos < end <= |bytes| && SevenBits(bytes, pos, end) == n
    && (forall i :: pos <= i < end - 1 ==> bytes[i] >= 128)
    && bytes[end - 1] < 128 && (bytes[end - 1] == 0 ==> end == pos + 1)
  }

  lemma {:induction false} GroupsLie(bytes: seq<Byte>, pos: nat, n: nat, end: nat)
    requires At(bytes, pos, EncodeGroups(n)) && end == pos + |EncodeGroups(n)|
    ensures GroupsAt(bytes, pos, n, end) && (bytes[end - 1] == 0 ==> n == 0)
    decreases n
  {
    if n < 128 {
      AtFirst(bytes, pos, EncodeGroups(n), n, []);
      assert SevenBits(bytes, end, end) == 0;
    } else {
      AtFirst(bytes, pos, EncodeGroups(n), n % 128 + 128, EncodeGroups(n / 128));
      GroupsLie(bytes, pos + 1, n / 128, end);
    }
  }

  // ---------- Updates ----------

  /** The table after an update: a value it lacks goes to its front, and only the newest `max` stay. */
  function Moved(table: seq<Bytestring>, max: nat, value: Bytestring): seq<Bytestring> {
    if value in table then table
    else if |table| < max then [value] + table
    else ([value] + table)[..max]
  }

  /** 0 and the newest position of the value, or 1, its length and its bytes. */
  ghost predicate UpdateAt(bytes: seq<Byte>, pos: nat, table: seq<Bytestring>, value: Bytestring, end: nat) {
    && pos < |bytes|
    && if value in table then
         && bytes[pos] == 0
         && exists i: nat ::
              i < |table| && table[i] == value && value !in table[..i] && GroupsAt(bytes, pos + 1, i, end)
       else
         && bytes[pos] == 1
         && exists start: nat ::
              GroupsAt(bytes, pos + 1, |value|, start) && At(bytes, start, value) && end == start + |value|
  }

  ghost predicate UpdatesAt(bytes: seq<Byte>, pos: nat, table: seq<Bytestring>, max: nat, updates: seq<Bytestring>,
                            end: nat)
    decreases |updates|
  {
    if updates == [] then pos == end
    else
      exists next: nat ::
        && UpdateAt(bytes, pos, table, updates[0], next)
        && UpdatesAt(bytes, next, Moved(table, max, updates[0]), max, updates[1..], end)
  }

  lemma TableMoves(table: seq<Bytestring>, max: nat, value: Bytestring)
    requires |table| <= max
    ensures After(table, max, value) == Moved(table, max, value) && |Moved(table, max, value)| <= max
  {
    LookupIsFirst(table, value);
  }

  lemma ReferenceLies(bytes: seq<Byte>, pos: nat, table: seq<Bytestring>, value: Bytestring, i: nat, end: nat)
    requires i < |table| && table[i] == value && value !in table[..i]
    requires At(bytes, pos, [TAG_REF] + EncodeGroups(i)) && end == pos + |[TAG_REF] + EncodeGroups(i)|
    ensures UpdateAt(bytes, pos, table, value, end)
  {
    AtFirst(bytes, pos, [TAG_REF] + EncodeGroups(i), TAG_REF, EncodeGroups(i));
    GroupsLie(bytes, pos + 1, i, end);
  }

  lemma LiteralLies(bytes: seq<Byte>, pos: nat, table: seq<Bytestring>, value: Bytestring, length: seq<Byte>,
                    start: nat, end: nat)
    requires value !in table && length == EncodeGroups(|value|)
    requires At(bytes, pos, [TAG_LITERAL] + (length + value)) && start == pos + 1 + |length| && end == start + |value|
    ensures UpdateAt(bytes, pos, table, value, end)
  {
    LiteralPieces(bytes, pos, length, value, start);
    GroupsLie(bytes, pos + 1, |value|, start);
  }

  lemma LiteralPieces(bytes: seq<Byte>, pos: nat, length: seq<Byte>, value: seq<Byte>, start: nat)
    requires At(bytes, pos, [TAG_LITERAL] + (length + value)) && start == pos + 1 + |length|
    ensures pos < |bytes| && bytes[pos] == TAG_LITERAL && At(bytes, pos + 1, length) && At(bytes, start, value)
  {
    AtFirst(bytes, pos, [TAG_LITERAL] + (length + value), TAG_LITERAL, length + value);
    AtParts(bytes, pos + 1, length + value, length, value, start);
  }

  lemma EntryLies(bytes: seq<Byte>, pos: nat, table: seq<Bytestring>, value: Bytestring, entry: seq<Byte>, end: nat)
    requires entry == Entry(table, value) && At(bytes, pos, entry) && end == pos + |entry|
    ensures UpdateAt(bytes, pos, table, value, end)
  {
    LookupIsFirst(table, value);
    match Lookup(table, value)
    case Some(i) => ReferenceLies(bytes, pos, table, value, i, end);
    case None =>
      var length := EncodeGroups(|value|);
      LiteralLies(bytes, pos, table, value, length, pos + 1 + |length|, end);
  }

  lemma {:induction false} PayloadLies(bytes: seq<Byte>, pos: nat, table: seq<Bytestring>, max: nat,
                                       updates: seq<Bytestring>, payload: seq<Byte>, end: nat)
    requires |table| <= max && payload == Payload(table, max, updates)
    requires At(bytes, pos, payload) && end == pos + |payload|
    ensures UpdatesAt(bytes, pos, table, max, updates, end)
    decreases |updates|
  {
    if updates != [] {
      var moved := After(table, max, updates[0]);
      var entry, rest := Entry(table, updates[0]), Payload(moved, max, updates[1..]);
      var next := pos + |entry|;
      AtParts(bytes, pos, payload, entry, rest, next);
      EntryLies(bytes, pos, table, updates[0], entry, next);
      TableMoves(table, max, updates[0]);
      PayloadLies(bytes, next, moved, max, updates[1..], rest, end);
    }
  }

  // ---------- Frames ----------

  /** "RBDL", version 1, flags and count, least significant byte first. */
  predicate HeaderAt(frame: seq<Byte>, flags: nat, count: nat) {
    && |frame| >= 16 && frame[0] == 0x52 && frame[1] == 0x42 && frame[2] == 0x44 && frame[3] == 0x4c
    && LeValue(frame[4..6]) == 1 && LeValue(frame[6..8]) == flags && LeValue(frame[8..16]) == count
  }

  lemma FieldHolds(frame: seq<Byte>, at: nat, value: nat, width: nat)
    requires At(frame, at, LeBytes(value, width)) && Fits(value, 8 * width)
    ensures at + width <= |frame| && LeValue(frame[at..at + width]) == value
  {
    LeValueOfBytes(value, width);
  }

  lemma FieldsFit(count: nat)
    requires count < U64_LIMIT
    ensures Fits(1, 8 * 2) && Fits(0, 8 * 2) && Fits(count, 8 * 8)
  {
    Pow2Table();
  }

  lemma HeaderParts(frame: seq<Byte>, version: seq<Byte>, flags: seq<Byte>, length: seq<Byte>)
    requires |version| == 2 && |flags| == 2 && At(frame, 0, MAGIC + version + flags + length)
    ensures At(frame, 0, MAGIC) && At(frame, 4, version) && At(frame, 6, flags) && At(frame, 8, length)
  {
    AtParts(frame, 0, MAGIC + version + flags + length, MAGIC + version + flags, length, 8);
    AtParts(frame, 0, MAGIC + version + flags, MAGIC + version, flags, 6);
    AtParts(frame, 0, MAGIC + version, MAGIC, version, 4);
  }

  lemma MagicLies(frame: seq<Byte>)
    requires At(frame, 0, MAGIC)
    ensures |frame| >= 4 && frame[0] == 0x52 && frame[1] == 0x42 && frame[2] == 0x44 && frame[3] == 0x4c
  {
    assert frame[0..4] == MAGIC;
    assert frame[0..4][0] == frame[0] && frame[0..4][1] == frame[1];
    assert frame[0..4][2] == frame[2] && frame[0..4][3] == frame[3];
  }

  lemma HeaderLies(frame: seq<Byte>, count: nat)
    requires count < U64_LIMIT && At(frame, 0, Header(0, count))
    ensures HeaderAt(frame, 0, count)
  {
    HeaderParts(frame, LeBytes(1, 2), LeBytes(0, 2), LeBytes(count, 8));
    MagicLies(frame);
    FieldsFit(count);
    FieldHolds(frame, 4, 1, 2);
    FieldHolds(frame, 6, 0, 2);
    FieldHolds(frame, 8, count, 8);
  }

  /** A frame is its header and the updates, in order, against the table as they move it. */
  lemma FrameLies(limit: Option<nat>, table: seq<Bytestring>, max: nat, updates: seq<Bytestring>, frame: seq<Byte>)
    requires |table| <= max && |updates| < U64_LIMIT && EncodeOutcome(limit, table, max, updates) == Ok(frame)
    ensures HeaderAt(frame, 0, |updates|) && UpdatesAt(frame, 16, table, max, updates, |frame|)
  {
    var header, payload := Header(0, |updates|), Payload(table, max, updates);
    assert At(frame, 0, header + payload);
    AtParts(frame, 0, header + payload, header, payload, 16);
    HeaderLies(frame, |updates|);
    PayloadLies(frame, 16, table, max, updates, payload, |frame|);
  }

  /** A frame with the reset flag reads the same whatever the receiver's table was. */
  lemma ResetForgets(limit: Option<nat>, table: seq<Bytestring>, other: seq<Bytestring>, max: nat, input: seq<Byte>)
    requires |input| >= 16 && LeValue(input[6..8]) == 1
    ensures DecodeOutcome(limit, table, max, input).result == DecodeOutcome(limit, other, max, input).result
    ensures DecodeOutcome(limit, table, max, input).result.Ok? ==>
      DecodeOutcome(limit, table, max, input) == DecodeOutcome(limit, other, max, input)
  {
  }

  /** A value less its base, as one number: the even ones for no less, the odd ones for less. */
  lemma DifferenceLies(base: int, value: int, bytes: seq<Byte>)
    requires IsI128(base) && IsI128(value) && EncodeDelta(base, value) == Ok(bytes)
    ensures GroupsAt(bytes, 0, if value < base then 2 * (base - value) - 1 else 2 * (value - base), |bytes|)
  {
    GroupsLie(bytes, 0, ZigZag(value - base), |bytes|);
  }
}
