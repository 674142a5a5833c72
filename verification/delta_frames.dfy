/**
 Differential frames: updates are sent as references into a table of recently seen values, or
 as literals that enter the table. Both peers run the same insert and evict rule, so the table
 itself is never sent.
 */
module DeltaFrames {
  import opened Bytes
  import opened Canonical

  const TAG_REF := 0
  const TAG_LITERAL := 1
  const FORMAT_VERSION := 1
  const HEADER_LEN := 16

  datatype DeltaError =
    | SizeLimit(limit: nat)
    | UnexpectedEnd
    | WrongMagic
    | UnsupportedVersion
    | UnknownFlags
    | VarintOverflow
    | NotUsize
    | LengthOverflow
    | ReferenceOutOfRange
    | UnknownTag
    | TrailingBytes(remaining: nat)
    | DeltaOverflow
    | ValueOverflow

  datatype Result<+T> = Ok(value: T) | Err(error: DeltaError)

  /** Something read, and the position behind it. */
  datatype Got<+T> = Got(value: T, next: nat)

  type Bytestring = seq<Byte>

  // ---------- Seven-bit groups ----------

  function EncodeGroups(value: nat): (bytes: seq<Byte>)
    ensures |bytes| >= 1
  {
    if value < 128 then [value] else [value % 128 + 128] + EncodeGroups(value / 128)
  }

  /** Reads groups from a position; `shift` is where the next group lands in a `u128`. */
  function ReadGroups(input: seq<Byte>, pos: nat, shift: nat): Result<Got<nat>>
    decreases |input| - pos
  {
    if pos >= |input| then Err(UnexpectedEnd)
    else if shift >= 128 then Err(VarintOverflow)
    else
      var low := input[pos] % 128;
      if 128 - shift < 7 && Shr(low, 128 - shift) != 0 then Err(VarintOverflow)
      else if input[pos] < 128 then Ok(Got(low, pos + 1))
      else
        match ReadGroups(input, pos + 1, shift + 7)
        case Err(error) => Err(error)
        case Ok(rest) => Ok(Got(low + 128 * rest.value, rest.next))
  }

  lemma {:induction false} GroupsFit(input: seq<Byte>, pos: nat, shift: nat)
    requires ReadGroups(input, pos, shift).Ok?
    ensures var g := ReadGroups(input, pos, shift).value;
      shift < 128 && g.value < Pow2(128 - shift) && pos < g.next <= |input|
    decreases |input| - pos
  {
    var low := input[pos] % 128;
    SmallPowers();
    if 128 - shift < 7 {
      ShrZero(low, 128 - shift);
    }
    if input[pos] < 128 {
      if 128 - shift >= 7 {
        Pow2Monotone(7, 128 - shift);
      }
    } else {
      GroupsFit(input, pos + 1, shift + 7);
      Pow2Adds(7, 121 - shift);
      assert 7 + (121 - shift) == 128 - shift;
    }
  }

  lemma {:induction false} ShrZero(n: nat, k: nat)
    requires Shr(n, k) == 0
    ensures n < Pow2(k)
  {
    if k > 0 {
      ShrZero(n / 2, k - 1);
    }
  }

  /** Every value of a `u128` is read back, with its whole encoding consumed. */
  lemma {:induction false} GroupsReadBack(value: nat, input: seq<Byte>, pos: nat, shift: nat)
    requires shift < 128 && value < Pow2(128 - shift) && At(input, pos, EncodeGroups(value))
    ensures ReadGroups(input, pos, shift) == Ok(Got(value, pos + |EncodeGroups(value)|))
    decreases value
  {
    if value < 128 {
      LastGroup(value, input, pos, shift);
    } else {
      var rest, next := EncodeGroups(value / 128), pos + 1;
      RoomAbove(value, 128 - shift);
      AtFirst(input, pos, EncodeGroups(value), value % 128 + 128, rest);
      GroupsReadBack(value / 128, input, next, shift + 7);
    }
  }

  lemma LastGroup(value: nat, input: seq<Byte>, pos: nat, shift: nat)
    requires value < 128 && shift < 128 && value < Pow2(128 - shift) && At(input, pos, [value])
    ensures ReadGroups(input, pos, shift) == Ok(Got(value, pos + 1))
  {
    assert input[pos..pos + 1][0] == input[pos];
    ShrBound(value, 128 - shift, 128 - shift);
  }

  /** A value past one group leaves room for the next. */
  lemma RoomAbove(value: nat, room: nat)
    requires 128 <= value < Pow2(room)
    ensures room > 7 && value / 128 < Pow2(room - 7)
  {
    SmallPowers();
    if room <= 7 {
      Pow2Monotone(room, 7);
    } else {
      Pow2Adds(7, room - 7);
    }
  }

  /** A whole varint at a position. */
  function ReadWhole(input: seq<Byte>, pos: nat): Result<Got<nat>> {
    ReadGroups(input, pos, 0)
  }

  lemma WholeFits(input: seq<Byte>, pos: nat)
    requires ReadWhole(input, pos).Ok?
    ensures ReadWhole(input, pos).value.value < U128_LIMIT
    ensures pos < ReadWhole(input, pos).value.next <= |input|
  {
    Pow2Table();
    GroupsFit(input, pos, 0);
  }

  lemma WholeReadsBack(value: nat, input: seq<Byte>, pos: nat)
    requires value < U128_LIMIT && At(input, pos, EncodeGroups(value))
    ensures ReadWhole(input, pos) == Ok(Got(value, pos + |EncodeGroups(value)|))
  {
    Pow2Table();
    GroupsReadBack(value, input, pos, 0);
  }

  predicate IsGroups(input: seq<Byte>, pos: nat, g: Got<nat>) {
    At(input, pos, EncodeGroups(g.value)) && g.next == pos + |EncodeGroups(g.value)|
  }

  /**
   Reading is not canonical: the bytes consumed are the encoding of the value read exactly when
   there is one byte, or the last byte is not zero.
   */
  lemma {:induction false} GroupsAreCanonical(input: seq<Byte>, pos: nat, shift: nat)
    requires ReadGroups(input, pos, shift).Ok?
    ensures var g := ReadGroups(input, pos, shift).value;
      && pos < g.next <= |input|
      && (g.value == 0 ==> input[g.next - 1] % 128 == 0)
      && input[g.next - 1] < 128
      && (IsGroups(input, pos, g) <==> g.next == pos + 1 || input[g.next - 1] != 0)
    decreases |input| - pos
  {
    var g := ReadGroups(input, pos, shift).value;
    var low := input[pos] % 128;
    if input[pos] < 128 {
      assert input[pos..pos + 1] == [low];
    } else {
      GroupsAreCanonical(input, pos + 1, shift + 7);
      var rest := ReadGroups(input, pos + 1, shift + 7).value;
      if rest.value > 0 {
        assert g.value / 128 == rest.value && g.value % 128 == low;
        assert At(input, pos, [low + 128]);
        AtBoth(input, pos, [low + 128], EncodeGroups(rest.value));
      } else {
        assert EncodeGroups(g.value) == [low];
      }
    }
  }

  /** Two byte strings that read as zero. */
  lemma TwoZeros()
    ensures ReadGroups([0], 0, 0) == Ok(Got(0, 1))
    ensures ReadGroups([0x80, 0], 0, 0) == Ok(Got(0, 2))
  {
    assert ReadGroups([0x80, 0], 1, 7) == Ok(Got(0, 2));
  }

  // ---------- The table ----------

  /** The first position of a value, newest first. */
  function Lookup(table: seq<Bytestring>, value: Bytestring): Option<nat> {
    if table == [] then None
    else if table[0] == value then Some(0)
    else
      match Lookup(table[1..], value)
      case None => None
      case Some(i) => Some(i + 1)
  }

  predicate Holds(table: seq<Bytestring>, value: Bytestring) {
    Lookup(table, value).Some?
  }

  lemma {:induction false} LookupIsFirst(table: seq<Bytestring>, value: Bytestring)
    ensures Holds(table, value) <==> value in table
    ensures Holds(table, value) ==>
      var i := Lookup(table, value).value; i < |table| && table[i] == value && value !in table[..i]
  {
    if table != [] && table[0] != value {
      LookupIsFirst(table[1..], value);
      if Holds(table, value) {
        var i := Lookup(table[1..], value).value;
        assert table[..i + 1] == [table[0]] + table[1..][..i];
      }
    }
  }

  /** Newest first; the oldest value is evicted when the table is full. */
  function Insert(table: seq<Bytestring>, max: nat, value: Bytestring): seq<Bytestring> {
    if max == 0 then table
    else
      var longer := [value] + table;
      if |longer| > max then longer[..max] else longer
  }

  /** A value the table holds is only referred to; any other enters it. */
  function After(table: seq<Bytestring>, max: nat, value: Bytestring): seq<Bytestring> {
    if Holds(table, value) then table else Insert(table, max, value)
  }

  function TableAfter(table: seq<Bytestring>, max: nat, updates: seq<Bytestring>): seq<Bytestring>
    decreases |updates|
  {
    if updates == [] then table else TableAfter(After(table, max, updates[0]), max, updates[1..])
  }

  predicate NoDuplicates(table: seq<Bytestring>) {
    forall i, j :: 0 <= i < j < |table| ==> table[i] != table[j]
  }

  /** The table stays within its capacity and never holds a value twice. */
  lemma {:induction false} TableInvariant(table: seq<Bytestring>, max: nat, updates: seq<Bytestring>)
    requires |table| <= max && NoDuplicates(table)
    ensures |TableAfter(table, max, updates)| <= max && NoDuplicates(TableAfter(table, max, updates))
    decreases |updates|
  {
    if updates != [] {
      LookupIsFirst(table, updates[0]);
      TableInvariant(After(table, max, updates[0]), max, updates[1..]);
    }
  }

  // ---------- Frames ----------

  const MAGIC: seq<Byte> := [0x52, 0x42, 0x44, 0x4c]

  function Header(flags: nat, count: nat): (bytes: seq<Byte>)
    ensures |bytes| == HEADER_LEN
  {
    MAGIC + LeBytes(FORMAT_VERSION, 2) + LeBytes(flags, 2) + LeBytes(count, 8)
  }

  /** One update: a reference when the table holds it, a literal otherwise. */
  function Entry(table: seq<Bytestring>, value: Bytestring): seq<Byte> {
    match Lookup(table, value)
    case Some(index) => [TAG_REF] + EncodeGroups(index)
    case None => [TAG_LITERAL] + (EncodeGroups(|value|) + value)
  }

  function Payload(table: seq<Bytestring>, max: nat, updates: seq<Bytestring>): seq<Byte>
    decreases |updates|
  {
    if updates == [] then []
    else Entry(table, updates[0]) + Payload(After(table, max, updates[0]), max, updates[1..])
  }

  predicate WithinLimit(limit: Option<nat>, length: nat) {
    limit.Some? ==> length <= limit.value
  }

  /** `encode_updates`; the table afterwards is `TableAfter`, even when the limit refuses the frame. */
  function EncodeOutcome(limit: Option<nat>, table: seq<Bytestring>, max: nat, updates: seq<Bytestring>)
    : Result<seq<Byte>>
  {
    var frame := Header(0, |updates|) + Payload(table, max, updates);
    if WithinLimit(limit, |frame|) then Ok(frame) else Err(SizeLimit(limit.value))
  }

  /** A table after decoding, and what was decoded. */
  datatype Replay<+T> = Replay(table: seq<Bytestring>, result: Result<T>)

  /** An end behind the input: one beyond `usize`, counted behind the header, has an error of its own. */
  function PastEnd(end: nat): DeltaError {
    if end - HEADER_LEN >= U64_LIMIT then LengthOverflow else UnexpectedEnd
  }

  function ReadEntry(input: seq<Byte>, pos: nat, table: seq<Bytestring>, max: nat): Replay<Got<Bytestring>> {
    if pos >= |input| then Replay(table, Err(UnexpectedEnd))
    else if input[pos] == TAG_REF then
      match ReadWhole(input, pos + 1)
      case Err(error) => Replay(table, Err(error))
      case Ok(index) =>
        if index.value >= U64_LIMIT then Replay(table, Err(NotUsize))
        else if index.value >= |table| then Replay(table, Err(ReferenceOutOfRange))
        else Replay(table, Ok(Got(table[index.value], index.next)))
    else if input[pos] == TAG_LITERAL then
      match ReadWhole(input, pos + 1)
      case Err(error) => Replay(table, Err(error))
      case Ok(length) =>
        var end := length.next + length.value;
        if length.value >= U64_LIMIT then Replay(table, Err(NotUsize))
        else if end > |input| then Replay(table, Err(PastEnd(end)))
        else Replay(Insert(table, max, input[length.next..end]), Ok(Got(input[length.next..end], end)))
    else Replay(table, Err(UnknownTag))
  }

  function ReadEntries(input: seq<Byte>, pos: nat, count: nat, table: seq<Bytestring>, max: nat)
    : Replay<Got<seq<Bytestring>>>
    decreases count
  {
    if count == 0 then Replay(table, Ok(Got([], pos)))
    else
      var first := ReadEntry(input, pos, table, max);
      match first.result
      case Err(error) => Replay(first.table, Err(error))
      case Ok(value) =>
        var rest := ReadEntries(input, value.next, count - 1, first.table, max);
        match rest.result
        case Err(error) => Replay(rest.table, Err(error))
        case Ok(values) => Replay(rest.table, Ok(Got([value.value] + values.value, values.next)))
  }

  /** `decode_updates`. */
  function DecodeOutcome(limit: Option<nat>, table: seq<Bytestring>, max: nat, input: seq<Byte>)
    : Replay<seq<Bytestring>>
  {
    if !WithinLimit(limit, |input|) then Replay(table, Err(SizeLimit(limit.value)))
    else if |input| < HEADER_LEN then Replay(table, Err(UnexpectedEnd))
    else if input[..4] != MAGIC then Replay(table, Err(WrongMagic))
    else if LeValue(input[4..6]) != FORMAT_VERSION then Replay(table, Err(UnsupportedVersion))
    else if LeValue(input[6..8]) >= 2 then Replay(table, Err(UnknownFlags))
    else
      var start := if LeValue(input[6..8]) == 1 then [] else table;
      Finish(input, ReadEntries(input, HEADER_LEN, LeValue(input[8..16]), start, max))
  }

  function Finish(input: seq<Byte>, entries: Replay<Got<seq<Bytestring>>>): Replay<seq<Bytestring>> {
    match entries.result
    case Err(error) => Replay(entries.table, Err(error))
    case Ok(values) =>
      if values.next < |input| then Replay(entries.table, Err(TrailingBytes(|input| - values.next)))
      else Replay(entries.table, Ok(values.value))
  }

  // ---------- Lockstep ----------

  /** Slices, tables and indices have machine sizes. */
  predicate Sized(max: nat, updates: seq<Bytestring>) {
    max < U64_LIMIT && |updates| < U64_LIMIT && Short(updates)
  }

  predicate Short(updates: seq<Bytestring>) {
    updates == [] || (|updates[0]| < U64_LIMIT && Short(updates[1..]))
  }

  lemma ReferenceReadsBack(table: seq<Bytestring>, max: nat, index: nat, whole: seq<Byte>,
                           input: seq<Byte>, pos: nat, end: nat)
    requires index < |table| < U64_LIMIT && At(input, pos, whole) && whole == [TAG_REF] + EncodeGroups(index)
    requires end == pos + |whole|
    ensures ReadEntry(input, pos, table, max) == Replay(table, Ok(Got(table[index], end)))
  {
    AtFirst(input, pos, whole, TAG_REF, EncodeGroups(index));
    WholeReadsBack(index, input, pos + 1);
  }

  lemma LiteralReadsBack(table: seq<Bytestring>, max: nat, value: Bytestring, length: seq<Byte>, whole: seq<Byte>,
                         input: seq<Byte>, pos: nat, start: nat)
    requires |value| < U64_LIMIT && length == EncodeGroups(|value|)
    requires At(input, pos, whole) && whole == [TAG_LITERAL] + (length + value) && start == pos + 1 + |length|
    ensures ReadEntry(input, pos, table, max) == Replay(Insert(table, max, value), Ok(Got(value, start + |value|)))
  {
    LiteralParts(value, length, whole, input, pos, start);
    LiteralRead(input, pos, table, max, value, start);
  }

  lemma LiteralParts(value: Bytestring, length: seq<Byte>, whole: seq<Byte>, input: seq<Byte>, pos: nat, start: nat)
    requires |value| < U64_LIMIT && length == EncodeGroups(|value|)
    requires At(input, pos, whole) && whole == [TAG_LITERAL] + (length + value) && start == pos + 1 + |length|
    ensures pos < |input| && input[pos] == TAG_LITERAL
    ensures ReadWhole(input, pos + 1) == Ok(Got(|value|, start))
    ensures At(input, start, value)
  {
    AtFirst(input, pos, whole, TAG_LITERAL, length + value);
    AtParts(input, pos + 1, length + value, length, value, start);
    LengthReadsBack(|value|, length, input, pos + 1, start);
  }

  lemma LengthReadsBack(value: nat, length: seq<Byte>, input: seq<Byte>, pos: nat, next: nat)
    requires value < U128_LIMIT && length == EncodeGroups(value) && At(input, pos, length) && next == pos + |length|
    ensures ReadWhole(input, pos) == Ok(Got(value, next))
  {
    WholeReadsBack(value, input, pos);
  }

  lemma LiteralRead(input: seq<Byte>, pos: nat, table: seq<Bytestring>, max: nat, value: Bytestring, start: nat)
    requires pos < |input| && input[pos] == TAG_LITERAL && |value| < U64_LIMIT
    requires ReadWhole(input, pos + 1) == Ok(Got(|value|, start)) && At(input, start, value)
    ensures ReadEntry(input, pos, table, max) == Replay(Insert(table, max, value), Ok(Got(value, start + |value|)))
  {
  }

  lemma EntryReadsBack(table: seq<Bytestring>, max: nat, value: Bytestring, entry: seq<Byte>,
                       input: seq<Byte>, pos: nat, end: nat)
    requires |table| <= max < U64_LIMIT && |value| < U64_LIMIT
    requires At(input, pos, entry) && entry == Entry(table, value) && end == pos + |entry|
    ensures ReadEntry(input, pos, table, max) == Replay(After(table, max, value), Ok(Got(value, end)))
  {
    LookupIsFirst(table, value);
    match Lookup(table, value)
    case Some(index) =>
      ReferenceReadsBack(table, max, index, entry, input, pos, end);
    case None =>
      var length := EncodeGroups(|value|);
      LiteralReadsBack(table, max, value, length, entry, input, pos, pos + 1 + |length|);
  }

  lemma {:induction false} EntriesReadBack(table: seq<Bytestring>, max: nat, updates: seq<Bytestring>,
                                           payload: seq<Byte>, input: seq<Byte>, pos: nat)
    requires |table| <= max && Sized(max, updates)
    requires At(input, pos, payload) && payload == Payload(table, max, updates)
    ensures IsReplay(ReadEntries(input, pos, |updates|, table, max), TableAfter(table, max, updates), updates,
                     pos + |payload|)
    decreases |updates|
  {
    if updates == [] {
      NoEntries(input, pos, table, max, updates);
    } else {
      var next, others := After(table, max, updates[0]), updates[1..];
      var rest := Payload(next, max, others);
      var behind: nat := pos + |Entry(table, updates[0])|;
      FirstEntry(table, max, updates, payload, input, pos, behind, rest);
      RestIsSized(table, max, updates);
      EntriesReadBack(next, max, others, rest, input, behind);
      EntriesStep(input, pos, table, max, updates, next, behind, behind + |rest|);
    }
  }

  lemma RestIsSized(table: seq<Bytestring>, max: nat, updates: seq<Bytestring>)
    requires |table| <= max && Sized(max, updates) && updates != []
    ensures |After(table, max, updates[0])| <= max && Sized(max, updates[1..])
  {
  }

  lemma FirstEntry(table: seq<Bytestring>, max: nat, updates: seq<Bytestring>, payload: seq<Byte>,
                   input: seq<Byte>, pos: nat, behind: nat, rest: seq<Byte>)
    requires |table| <= max && Sized(max, updates) && updates != []
    requires At(input, pos, payload) && payload == Payload(table, max, updates)
    requires behind == pos + |Entry(table, updates[0])|
    requires rest == Payload(After(table, max, updates[0]), max, updates[1..])
    ensures ReadEntry(input, pos, table, max) == Replay(After(table, max, updates[0]), Ok(Got(updates[0], behind)))
    ensures At(input, behind, rest) && pos + |payload| == behind + |rest|
  {
    var entry := Entry(table, updates[0]);
    AtParts(input, pos, payload, entry, rest, behind);
    EntryReadsBack(table, max, updates[0], entry, input, pos, behind);
  }

  predicate IsReplay(replay: Replay<Got<seq<Bytestring>>>, table: seq<Bytestring>, values: seq<Bytestring>, next: nat) {
    && replay.table == table && replay.result.Ok?
    && replay.result.value.value == values && replay.result.value.next == next
  }

  lemma NoEntries(input: seq<Byte>, pos: nat, table: seq<Bytestring>, max: nat, updates: seq<Bytestring>)
    requires updates == []
    ensures Payload(table, max, updates) == []
    ensures IsReplay(ReadEntries(input, pos, |updates|, table, max), TableAfter(table, max, updates), updates, pos)
  {
  }

  lemma EntriesStep(input: seq<Byte>, pos: nat, table: seq<Bytestring>, max: nat, updates: seq<Bytestring>,
                    next: seq<Bytestring>, behind: nat, end: nat)
    requires updates != [] && ReadEntry(input, pos, table, max) == Replay(next, Ok(Got(updates[0], behind)))
    requires IsReplay(ReadEntries(input, behind, |updates| - 1, next, max), TableAfter(next, max, updates[1..]),
                      updates[1..], end)
    requires next == After(table, max, updates[0])
    ensures IsReplay(ReadEntries(input, pos, |updates|, table, max), TableAfter(table, max, updates), updates, end)
  {
    assert updates == [updates[0]] + updates[1..];
  }

  lemma HeaderReadsBack(input: seq<Byte>, count: nat)
    requires count < U64_LIMIT && At(input, 0, Header(0, count))
    ensures input[..4] == MAGIC && LeValue(input[4..6]) == FORMAT_VERSION
    ensures LeValue(input[6..8]) == 0 && LeValue(input[8..16]) == count
  {
    var head := Header(0, count);
    SliceOfSlice(input, 0, 16, 0, 4);
    SliceOfSlice(input, 0, 16, 4, 6);
    SliceOfSlice(input, 0, 16, 6, 8);
    SliceOfSlice(input, 0, 16, 8, 16);
    assert head[..4] == MAGIC && head[4..6] == LeBytes(FORMAT_VERSION, 2);
    assert head[6..8] == LeBytes(0, 2) && head[8..16] == LeBytes(count, 8);
    PayloadReadsBack(FORMAT_VERSION, 2);
    PayloadReadsBack(0, 2);
    PayloadReadsBack(count, 8);
  }

  /** One frame: the receiver gets the updates, and its table becomes the sender's. */
  lemma FrameReadsBack(limit: Option<nat>, table: seq<Bytestring>, max: nat, updates: seq<Bytestring>)
    requires |table| <= max && Sized(max, updates) && EncodeOutcome(limit, table, max, updates).Ok?
    ensures DecodeOutcome(limit, table, max, EncodeOutcome(limit, table, max, updates).value)
         == Replay(TableAfter(table, max, updates), Ok(updates))
  {
    var payload := Payload(table, max, updates);
    var frame := Header(0, |updates|) + payload;
    assert At(frame, 0, frame);
    AtBoth(frame, 0, Header(0, |updates|), payload);
    HeaderReadsBack(frame, |updates|);
    EntriesReadBack(table, max, updates, payload, frame, HEADER_LEN);
  }

  predicate AllSized(max: nat, batches: seq<seq<Bytestring>>) {
    batches == [] || (Sized(max, batches[0]) && AllSized(max, batches[1..]))
  }

  /** The frames a sender emits over a run of batches; none when one of them is refused. */
  function EncodeRun(limit: Option<nat>, table: seq<Bytestring>, max: nat, batches: seq<seq<Bytestring>>)
    : Replay<seq<seq<Byte>>>
    decreases |batches|
  {
    if batches == [] then Replay(table, Ok([]))
    else
      var next := TableAfter(table, max, batches[0]);
      match EncodeOutcome(limit, table, max, batches[0])
      case Err(error) => Replay(next, Err(error))
      case Ok(frame) =>
        var rest := EncodeRun(limit, next, max, batches[1..]);
        match rest.result
        case Err(error) => rest
        case Ok(frames) => Replay(rest.table, Ok([frame] + frames))
  }

  function DecodeRun(limit: Option<nat>, table: seq<Bytestring>, max: nat, frames: seq<seq<Byte>>)
    : Replay<seq<seq<Bytestring>>>
    decreases |frames|
  {
    if frames == [] then Replay(table, Ok([]))
    else
      var first := DecodeOutcome(limit, table, max, frames[0]);
      match first.result
      case Err(error) => Replay(first.table, Err(error))
      case Ok(updates) =>
        var rest := DecodeRun(limit, first.table, max, frames[1..]);
        match rest.result
        case Err(error) => rest
        case Ok(batches) => Replay(rest.table, Ok([updates] + batches))
  }

  /**
   Over any run of accepted frames from equal tables, the receiver returns exactly the sender's
   batches and ends with the sender's table, which never exceeds its capacity nor holds a value twice.
   */
  lemma {:induction false} Lockstep(limit: Option<nat>, table: seq<Bytestring>, max: nat,
                                    batches: seq<seq<Bytestring>>)
    requires |table| <= max && NoDuplicates(table)
    requires AllSized(max, batches)
    requires EncodeRun(limit, table, max, batches).result.Ok?
    ensures var sent := EncodeRun(limit, table, max, batches);
      && DecodeRun(limit, table, max, sent.result.value) == Replay(sent.table, Ok(batches))
      && |sent.table| <= max && NoDuplicates(sent.table)
    decreases |batches|
  {
    if batches != [] {
      var next := TableAfter(table, max, batches[0]);
      FrameReadsBack(limit, table, max, batches[0]);
      TableInvariant(table, max, batches[0]);
      Lockstep(limit, next, max, batches[1..]);
      LockstepFirst(limit, table, max, batches, next);
    }
  }

  lemma LockstepFirst(limit: Option<nat>, table: seq<Bytestring>, max: nat, batches: seq<seq<Bytestring>>,
                      next: seq<Bytestring>)
    requires batches != [] && next == TableAfter(table, max, batches[0])
    requires EncodeRun(limit, table, max, batches).result.Ok?
    requires DecodeOutcome(limit, table, max, EncodeOutcome(limit, table, max, batches[0]).value)
          == Replay(next, Ok(batches[0]))
    requires DecodeRun(limit, next, max, EncodeRun(limit, next, max, batches[1..]).result.value)
          == Replay(EncodeRun(limit, next, max, batches[1..]).table, Ok(batches[1..]))
    ensures EncodeRun(limit, table, max, batches).table == EncodeRun(limit, next, max, batches[1..]).table
    ensures DecodeRun(limit, table, max, EncodeRun(limit, table, max, batches).result.value)
         == Replay(EncodeRun(limit, table, max, batches).table, Ok(batches))
  {
    var frames := EncodeRun(limit, table, max, batches).result.value;
    assert frames[1..] == EncodeRun(limit, next, max, batches[1..]).result.value;
    assert batches == [batches[0]] + batches[1..];
  }

  // ---------- A refused frame ----------

  /** The values a batch enters into the table, oldest first. */
  function Literals(table: seq<Bytestring>, max: nat, updates: seq<Bytestring>): seq<Bytestring>
    decreases |updates|
  {
    if updates == [] then []
    else
      var rest := Literals(After(table, max, updates[0]), max, updates[1..]);
      if Holds(table, updates[0]) then rest else [updates[0]] + rest
  }

  function Reversed(values: seq<Bytestring>): (r: seq<Bytestring>)
    ensures |r| == |values| && (values != [] ==> r[|values| - 1] == values[0])
  {
    if values == [] then [] else Reversed(values[1..]) + [values[0]]
  }

  function Cut(values: seq<Bytestring>, max: nat): seq<Bytestring> {
    if |values| > max then values[..max] else values
  }

  lemma CutTwice(a: seq<Bytestring>, b: seq<Bytestring>, max: nat)
    ensures Cut(a + Cut(b, max), max) == Cut(a + b, max)
  {
  }

  /** The table is a window of the newest values over everything ever entered. */
  lemma {:induction false} TableIsWindow(table: seq<Bytestring>, max: nat, updates: seq<Bytestring>)
    requires |table| <= max
    ensures TableAfter(table, max, updates) == Cut(Reversed(Literals(table, max, updates)) + table, max)
    decreases |updates|
  {
    if updates == [] {
      assert Reversed([]) + table == table;
    } else {
      var value, next, others := updates[0], After(table, max, updates[0]), updates[1..];
      var rest := Literals(next, max, others);
      TableIsWindow(next, max, others);
      if !Holds(table, value) {
        assert next == Cut([value] + table, max);
        CutTwice(Reversed(rest), [value] + table, max);
        assert Reversed([value] + rest) == Reversed(rest) + [value];
        Reassociate(Reversed(rest), [value], table);
      }
    }
  }

  lemma {:induction false} FirstLiteralIsNew(table: seq<Bytestring>, max: nat, updates: seq<Bytestring>)
    ensures var entered := Literals(table, max, updates); entered != [] ==> entered[0] !in table
    decreases |updates|
  {
    if updates != [] {
      LookupIsFirst(table, updates[0]);
      if Holds(table, updates[0]) {
        FirstLiteralIsNew(table, max, updates[1..]);
      }
    }
  }

  /**
   A batch leaves the sender's table alone exactly when there is no room at all, when it enters
   nothing, or when it enters so many values that the newest of them are the full table again.
   */
  lemma RefusedLeavesTable(table: seq<Bytestring>, max: nat, updates: seq<Bytestring>)
    requires |table| <= max
    ensures var entered := Literals(table, max, updates);
      TableAfter(table, max, updates) == table <==>
        max == 0 || entered == [] || (|table| == max <= |entered| && Reversed(entered)[..max] == table)
  {
    var entered := Literals(table, max, updates);
    var newest := Reversed(entered);
    TableIsWindow(table, max, updates);
    if entered == [] {
      assert newest + table == table;
    } else if |entered| < max == |table| {
      FirstLiteralIsNew(table, max, updates);
      assert (newest + table)[|entered| - 1] == entered[0];
    } else if max > 0 && |table| == max {
      assert (newest + table)[..max] == newest[..max];
    }
  }

  /** For a single update: exactly when there is no room, or the table holds it. */
  lemma OneRefused(table: seq<Bytestring>, max: nat, value: Bytestring)
    requires |table| <= max
    ensures TableAfter(table, max, [value]) == table <==> max == 0 || value in table
  {
    RefusedLeavesTable(table, max, [value]);
    LookupIsFirst(table, value);
    assert Reversed([value])[..1] == [value];
    assert table == [value] ==> value in table;
    assert Literals(table, max, [value]) == if Holds(table, value) then [] else [value];
  }

  /**
   Once the tables differ at a position, the sender's next use of its value there reaches the
   receiver as another value, or as none.
   */
  lemma StaleReference(limit: Option<nat>, sender: seq<Bytestring>, receiver: seq<Bytestring>, max: nat, index: nat)
    requires index < |sender| < U64_LIMIT && NoDuplicates(sender)
    requires EncodeOutcome(limit, sender, max, [sender[index]]).Ok?
    ensures DecodeOutcome(limit, receiver, max, EncodeOutcome(limit, sender, max, [sender[index]]).value)
         == Replay(receiver, if index < |receiver| then Ok([receiver[index]]) else Err(ReferenceOutOfRange))
  {
    var entry: seq<Byte> := [TAG_REF] + EncodeGroups(index);
    ReferenceIsSent(sender, max, index);
    ReferenceIsRead(Header(0, 1) + entry, entry, receiver, max, index);
    OneIsDecoded(limit, Header(0, 1) + entry, receiver, max);
  }

  lemma ReferenceIsSent(table: seq<Bytestring>, max: nat, index: nat)
    requires index < |table| && NoDuplicates(table)
    ensures Payload(table, max, [table[index]]) == [TAG_REF] + EncodeGroups(index)
  {
    LookupIsFirst(table, table[index]);
    assert Entry(table, table[index]) + [] == [TAG_REF] + EncodeGroups(index);
  }

  /** A frame that announces one entry. */
  lemma OneIsDecoded(limit: Option<nat>, frame: seq<Byte>, table: seq<Bytestring>, max: nat)
    requires |frame| >= HEADER_LEN && WithinLimit(limit, |frame|)
    requires frame[..4] == MAGIC && LeValue(frame[4..6]) == FORMAT_VERSION
    requires LeValue(frame[6..8]) == 0 && LeValue(frame[8..16]) == 1
    ensures var first := ReadEntry(frame, HEADER_LEN, table, max);
      DecodeOutcome(limit, table, max, frame) == match first.result
        case Err(error) => Replay(first.table, Err(error))
        case Ok(got) =>
          if got.next < |frame| then Replay(first.table, Err(TrailingBytes(|frame| - got.next)))
          else Replay(first.table, Ok([got.value]))
  {
    var first := ReadEntry(frame, HEADER_LEN, table, max);
    if first.result.Ok? {
      var got := first.result.value;
      assert ReadEntries(frame, got.next, 0, first.table, max) == Replay(first.table, Ok(Got([], got.next)));
      assert [got.value] + [] == [got.value];
    }
  }

  /** A frame of one reference, read on any table. */
  lemma ReferenceIsRead(frame: seq<Byte>, entry: seq<Byte>, table: seq<Bytestring>, max: nat, index: nat)
    requires index < U64_LIMIT && entry == [TAG_REF] + EncodeGroups(index) && frame == Header(0, 1) + entry
    ensures frame[..4] == MAGIC && LeValue(frame[4..6]) == FORMAT_VERSION
    ensures LeValue(frame[6..8]) == 0 && LeValue(frame[8..16]) == 1
    ensures ReadEntry(frame, HEADER_LEN, table, max) == Replay(table,
      if index < |table| then Ok(Got(table[index], |frame|)) else Err(ReferenceOutOfRange))
  {
    assert At(frame, 0, frame);
    AtBoth(frame, 0, Header(0, 1), entry);
    HeaderReadsBack(frame, 1);
    AtFirst(frame, HEADER_LEN, entry, TAG_REF, EncodeGroups(index));
    WholeReadsBack(index, frame, HEADER_LEN + 1);
  }

  /**
   A batch that was refused but changed the table ends the lockstep: there is a value whose next
   frame, if it is accepted, the receiver does not read as that value.
   */
  lemma RefusedFrameEndsLockstep(limit: Option<nat>, table: seq<Bytestring>, max: nat, updates: seq<Bytestring>)
      returns (value: Bytestring)
    requires |table| <= max < U64_LIMIT && NoDuplicates(table)
    requires EncodeOutcome(limit, table, max, updates).Err? && TableAfter(table, max, updates) != table
    ensures var after := TableAfter(table, max, updates);
      && value in after
      && (EncodeOutcome(limit, after, max, [value]).Ok? ==>
            DecodeOutcome(limit, table, max, EncodeOutcome(limit, after, max, [value]).value).result != Ok([value]))
  {
    var after := TableAfter(table, max, updates);
    TableInvariant(table, max, updates);
    TableIsWindow(table, max, updates);
    var index := FirstDifference(after, table);
    value := after[index];
    if EncodeOutcome(limit, after, max, [value]).Ok? {
      StaleReference(limit, after, table, max, index);
      assert index < |table| ==> [table[index]][0] != [value][0];
    }
  }

  lemma FirstDifference(a: seq<Bytestring>, b: seq<Bytestring>) returns (i: nat)
    requires a != b && |b| <= |a|
    ensures i < |a| && (i < |b| ==> a[i] != b[i])
  {
    if |b| < |a| {
      i := |b|;
    } else {
      i :| i < |a| && a[i] != b[i];
    }
  }

  /** It happens: the second frame refers to a value the receiver never saw. */
  lemma RefusedFrameDesynchronizes()
    ensures EncodeOutcome(Some(18), [], 1, [[7, 7, 7]]) == Err(SizeLimit(18))
    ensures EncodeOutcome(Some(18), TableAfter([], 1, [[7, 7, 7]]), 1, [[7, 7, 7]]).Ok?
    ensures DecodeOutcome(Some(18), [], 1,
              EncodeOutcome(Some(18), TableAfter([], 1, [[7, 7, 7]]), 1, [[7, 7, 7]]).value)
         == Replay([], Err(ReferenceOutOfRange))
  {
    var value: Bytestring := [7, 7, 7];
    assert TableAfter([], 1, [value]) == [value];
    assert Payload([], 1, [value]) == Entry([], value) + Payload([value], 1, []);
    assert Payload([value], 1, [value]) == Entry([value], value) + [];
    assert EncodeGroups(0) == [0];
    StaleReference(Some(18), [value], [], 1, 0);
  }

  // ---------- Integer deltas ----------

  function EncodeDelta(base: int, value: int): Result<seq<Byte>>
    requires IsI128(base) && IsI128(value)
  {
    if IsI128(value - base) then Ok(EncodeGroups(ZigZag(value - base))) else Err(DeltaOverflow)
  }

  function DecodeDelta(base: int, input: seq<Byte>): Result<int>
    requires IsI128(base)
  {
    match ReadWhole(input, 0)
    case Err(error) => Err(error)
    case Ok(encoded) =>
      WholeFits(input, 0);
      if encoded.next < |input| then Err(TrailingBytes(|input| - encoded.next))
      else if !IsI128(base + UnZigZag(encoded.value)) then Err(ValueOverflow)
      else Ok(base + UnZigZag(encoded.value))
  }

  /** A value is recovered from its difference to any base, unless the difference leaves `i128`. */
  lemma DeltaReadsBack(base: int, value: int)
    requires IsI128(base) && IsI128(value)
    ensures EncodeDelta(base, value).Ok? <==> IsI128(value - base)
    ensures EncodeDelta(base, value).Ok? ==> DecodeDelta(base, EncodeDelta(base, value).value) == Ok(value)
  {
    if IsI128(value - base) {
      var bytes := EncodeGroups(ZigZag(value - base));
      assert At(bytes, 0, bytes);
      WholeReadsBack(ZigZag(value - base), bytes, 0);
      ZigZagReadsBack(value - base);
    }
  }
}
