/** The dynamic table and the frame codec, in place: each method computes its specification. */
module Delta {
  import opened Bytes
  import opened Bits
  import opened DeltaFrames

  class DeltaTable {
    var entries: seq<Bytestring>  // newest first
    const maxEntries: nat

    ghost predicate Valid()
      reads this
    {
      |entries| <= maxEntries
    }

    constructor (maxEntries: nat)
      ensures Valid() && this.maxEntries == maxEntries && entries == []
    {
      this.maxEntries := maxEntries;
      entries := [];
    }

    /** The position of a value, scanning from the newest. */
    method Lookup(value: Bytestring) returns (index: Option<nat>)
      ensures index == DeltaFrames.Lookup(entries, value)
    {
      var i := 0;
      while i < |entries|
        invariant i <= |entries|
        invariant DeltaFrames.Lookup(entries, value) == Later(i, DeltaFrames.Lookup(entries[i..], value))
      {
        if entries[i] == value {
          return Some(i);
        }
        assert entries[i..][1..] == entries[i + 1..];
        i := i + 1;
      }
      return None;
    }

    function Get(index: nat): (value: Option<Bytestring>)
      reads this
      ensures value.Some? <==> index < |entries|
      ensures value.Some? ==> value.value == entries[index]
    {
      if index < |entries| then Some(entries[index]) else None
    }

    /** Pushes at the front, then drops from the back while over capacity. */
    method Insert(value: Bytestring)
      requires Valid()
      modifies this
      ensures Valid() && entries == DeltaFrames.Insert(old(entries), maxEntries, value)
    {
      if maxEntries == 0 {
        return;
      }
      entries := [value] + entries;
      ghost var longer := entries;
      while |entries| > maxEntries
        invariant |entries| >= maxEntries || entries == longer
        invariant entries <= longer
      {
        entries := entries[..|entries| - 1];
      }
    }

    method Clear()
      modifies this
      ensures Valid() && entries == []
    {
      entries := [];
    }
  }

  function Later(skipped: nat, index: Option<nat>): Option<nat> {
    match index
    case None => None
    case Some(i) => Some(skipped + i)
  }

  /** Pushes seven-bit groups, lowest first, with a continuation bit on all but the last. */
  method WriteVarint(output: seq<Byte>, value: nat) returns (longer: seq<Byte>)
    ensures longer == output + EncodeGroups(value)
  {
    longer := output;
    var rest := value;
    while rest >= 128
      invariant longer + EncodeGroups(rest) == output + EncodeGroups(value)
    {
      assert EncodeGroups(rest) == [rest % 128 + 128] + EncodeGroups(rest / 128);
      longer := longer + [rest % 128 + 128];
      rest := rest / 128;
    }
    longer := longer + [rest];
  }

  /** Appends the updates to a frame, moving the table along, and enforces the byte limit at the end. */
  method EncodeUpdates(limit: Option<nat>, table: DeltaTable, updates: seq<Bytestring>)
    returns (r: Result<seq<Byte>>)
    requires table.Valid()
    modifies table
    ensures table.Valid()
    ensures r == EncodeOutcome(limit, old(table.entries), table.maxEntries, updates)
    ensures table.entries == TableAfter(old(table.entries), table.maxEntries, updates)
  {
    var payload: seq<Byte> := [];
    var i := 0;
    ghost var max, whole := table.maxEntries, Payload(table.entries, table.maxEntries, updates);
    ghost var after := TableAfter(table.entries, max, updates);
    assert updates[0..] == updates && payload + whole == whole;
    while i < |updates|
      invariant i <= |updates| && table.Valid()
      invariant StillToSend(payload, table.entries, max, updates[i..], whole, after)
    {
      ghost var before, written := table.entries, payload;
      payload := EncodeEntry(table, payload, updates[i]);
      assert updates[i..][1..] == updates[i + 1..];
      SendOne(written, before, max, updates[i..], whole, after);
      i := i + 1;
    }
    assert payload == whole && table.entries == after by {
      assert updates[i..] == [];
      SentAll(payload, table.entries, max, updates[i..], whole, after);
    }
    var frame := Header(0, |updates|) + payload;
    if limit.Some? && |frame| > limit.value {
      return Err(SizeLimit(limit.value));
    }
    return Ok(frame);
  }

  /** The payload written so far and the updates left make up the whole frame and the final table. */
  ghost predicate StillToSend(payload: seq<Byte>, table: seq<Bytestring>, max: nat, left: seq<Bytestring>,
                              whole: seq<Byte>, after: seq<Bytestring>) {
    payload + Payload(table, max, left) == whole && TableAfter(table, max, left) == after
  }

  lemma SendOne(payload: seq<Byte>, table: seq<Bytestring>, max: nat, left: seq<Bytestring>,
                whole: seq<Byte>, after: seq<Bytestring>)
    requires StillToSend(payload, table, max, left, whole, after) && left != []
    ensures StillToSend(payload + Entry(table, left[0]), After(table, max, left[0]), max, left[1..], whole, after)
  {
    var next := Payload(After(table, max, left[0]), max, left[1..]);
    assert payload + (Entry(table, left[0]) + next) == (payload + Entry(table, left[0])) + next;
  }

  lemma SentAll(payload: seq<Byte>, table: seq<Bytestring>, max: nat, left: seq<Bytestring>,
                whole: seq<Byte>, after: seq<Bytestring>)
    requires StillToSend(payload, table, max, left, whole, after) && left == []
    ensures payload == whole && table == after
  {
    assert payload + [] == payload;
  }

  /** One update: a reference, or a literal that enters the table. */
  method EncodeEntry(table: DeltaTable, payload: seq<Byte>, value: Bytestring) returns (longer: seq<Byte>)
    requires table.Valid()
    modifies table
    ensures table.Valid() && table.entries == After(old(table.entries), table.maxEntries, value)
    ensures longer == payload + Entry(old(table.entries), value)
  {
    var found := table.Lookup(value);
    match found {
      case Some(index) =>
        longer := WriteVarint(payload + [TAG_REF], index);
        assert longer == payload + ([TAG_REF] + EncodeGroups(index));
      case None =>
        longer := WriteVarint(payload + [TAG_LITERAL], |value|);
        longer := longer + value;
        assert longer == payload + ([TAG_LITERAL] + (EncodeGroups(|value|) + value));
        table.Insert(value);
    }
  }

  class DeltaCursor {
    const input: seq<Byte>
    var pos: nat

    ghost predicate Valid()
      reads this
    {
      HEADER_LEN <= pos <= |input| < U64_LIMIT
    }

    constructor (input: seq<Byte>, pos: nat)
      requires HEADER_LEN <= pos <= |input| < U64_LIMIT
      ensures Valid() && this.input == input && this.pos == pos
    {
      this.input := input;
      this.pos := pos;
    }

    method Byte() returns (r: Result<Byte>)
      requires Valid()
      modifies this
      ensures Valid()
      ensures r == if old(pos) < |input| then Ok(input[old(pos)]) else Err(UnexpectedEnd)
      ensures r.Ok? ==> pos == old(pos) + 1
    {
      if pos == |input| {
        return Err(UnexpectedEnd);
      }
      pos := pos + 1;
      return Ok(input[pos - 1]);
    }

    /** Positions count the header, which is not part of the bytes the code's cursor runs over. */
    method Take(length: nat) returns (r: Result<Bytestring>)
      requires Valid()
      modifies this
      ensures Valid()
      ensures r.Ok? <==> old(pos) + length <= |input|
      ensures r.Ok? ==> pos == old(pos) + length && r.value == input[old(pos)..pos]
      ensures r.Err? ==> r.error == PastEnd(old(pos) + length)
    {
      if pos - HEADER_LEN + length >= U64_LIMIT {
        return Err(LengthOverflow);
      }
      if pos + length > |input| {
        return Err(UnexpectedEnd);
      }
      pos := pos + length;
      return Ok(input[pos - length..pos]);
    }

    /** Ors the groups into place, checking that none reaches past bit 127. */
    method Varint() returns (r: Result<nat>)
      requires Valid()
      modifies this
      ensures Valid() && Reads(r, ReadWhole(input, old(pos)), pos)
    {
      var value: nat, shift: nat := 0, 0;
      ghost var whole := ReadWhole(input, pos);
      NothingRead(whole);
      while true
        invariant Valid() && value < Pow2(shift)
        invariant whole == Above(value, shift, ReadGroups(input, pos, shift))
        decreases |input| - pos
      {
        var b := Byte();
        if b.Err? {
          return Err(b.error);
        }
        if shift >= 128 {
          return Err(VarintOverflow);
        }
        var remaining := 128 - shift;
        var low := b.value % 128;
        if remaining < 7 && Shr(low, remaining) != 0 {
          return Err(VarintOverflow);
        }
        TakeGroup(input, pos - 1, shift, value);
        value := Or(value, Shl(low, shift));
        if b.value < 128 {
          return Ok(value);
        }
        shift := shift + 7;
      }
    }

    method UsizeVarint() returns (r: Result<nat>)
      requires Valid()
      modifies this
      ensures Valid() && Reads(r, Usize(ReadWhole(input, old(pos))), pos)
    {
      r := Varint();
      if r.Ok? && r.value >= U64_LIMIT {
        r := Err(NotUsize);
      }
    }
  }

  function Usize(read: Result<Got<nat>>): Result<Got<nat>> {
    if read.Ok? && read.value.value >= U64_LIMIT then Err(NotUsize) else read
  }

  /** What a cursor returned and where it stopped, against what stands in the input. */
  predicate Reads(r: Result<nat>, read: Result<Got<nat>>, pos: nat) {
    match read
    case Err(error) => r == Err(error)
    case Ok(got) => r == Ok(got.value) && pos == got.next
  }

  /** Groups read at `shift`, on top of the bits below it. */
  function Above(value: nat, shift: nat, read: Result<Got<nat>>): Result<Got<nat>> {
    match read
    case Err(error) => Err(error)
    case Ok(got) => Ok(Got(value + got.value * Pow2(shift), got.next))
  }

  lemma NothingRead(read: Result<Got<nat>>)
    ensures Above(0, 0, read) == read
  {
    if read.Ok? {
      assert read.value.value * Pow2(0) == read.value.value;
    }
  }

  lemma OrGroup(value: nat, shift: nat, low: nat, rest: Result<Got<nat>>)
    requires value < Pow2(shift) && low < 128
    ensures Or(value, low * Pow2(shift)) < Pow2(shift + 7)
    ensures Or(value, low * Pow2(shift)) == value + low * Pow2(shift)
    ensures rest.Ok? ==>
      Above(value, shift, Ok(Got(low + 128 * rest.value.value, rest.value.next)))
      == Above(Or(value, low * Pow2(shift)), shift + 7, rest)
  {
    OrShifted(value, low, shift);
    WiderByGroup(shift);
    GroupBound(value, low, Pow2(shift));
    if rest.Ok? {
      GroupSum(low, rest.value.value, Pow2(shift), Pow2(shift + 7));
    }
  }

  /** One more group ored in. */
  lemma TakeGroup(input: seq<Byte>, pos: nat, shift: nat, value: nat)
    requires pos < |input| && shift < 128 && value < Pow2(shift)
    requires 128 - shift < 7 ==> Shr(input[pos] % 128, 128 - shift) == 0
    ensures var more := Or(value, Shl(input[pos] % 128, shift));
      && more < Pow2(shift + 7)
      && Above(value, shift, ReadGroups(input, pos, shift))
         == if input[pos] < 128 then Ok(Got(more, pos + 1))
            else Above(more, shift + 7, ReadGroups(input, pos + 1, shift + 7))
  {
    OrGroup(value, shift, input[pos] % 128, ReadGroups(input, pos + 1, shift + 7));
  }

  lemma WiderByGroup(shift: nat)
    ensures Pow2(shift + 7) == 128 * Pow2(shift)
  {
    SmallPowers();
    Pow2Adds(shift, 7);
  }

  lemma GroupBound(value: nat, low: nat, unit: nat)
    requires value < unit && low < 128
    ensures value + low * unit < 128 * unit
  {
    ProductMonotone(unit, low + 1, 128);
    assert unit * (low + 1) == low * unit + unit;
  }

  lemma GroupSum(low: nat, high: nat, unit: nat, next: nat)
    requires next == 128 * unit
    ensures (low + 128 * high) * unit == low * unit + high * next
  {
  }

  /** Replays a frame on a table. */
  method DecodeUpdates(limit: Option<nat>, table: DeltaTable, input: seq<Byte>) returns (r: Result<seq<Bytestring>>)
    requires table.Valid() && |input| < U64_LIMIT
    modifies table
    ensures table.Valid()
    ensures Replay(table.entries, r) == DecodeOutcome(limit, old(table.entries), table.maxEntries, input)
  {
    if limit.Some? && |input| > limit.value {
      return Err(SizeLimit(limit.value));
    }
    if |input| < HEADER_LEN {
      return Err(UnexpectedEnd);
    }
    if input[..4] != MAGIC {
      return Err(WrongMagic);
    }
    if LeValue(input[4..6]) != FORMAT_VERSION {
      return Err(UnsupportedVersion);
    }
    var flags := LeValue(input[6..8]);
    if flags >= 2 {
      return Err(UnknownFlags);
    }
    if flags == 1 {
      table.Clear();
    }
    var count := LeValue(input[8..16]);
    var cursor := new DeltaCursor(input, HEADER_LEN);
    r := DecodeEntries(table, cursor, count);
    if r.Ok? && cursor.pos != |input| {
      r := Err(TrailingBytes(|input| - cursor.pos));
    }
  }

  method DecodeEntries(table: DeltaTable, cursor: DeltaCursor, count: nat) returns (r: Result<seq<Bytestring>>)
    requires table.Valid() && cursor.Valid()
    modifies table, cursor
    ensures table.Valid() && cursor.Valid()
    ensures Replayed(table.entries, r, cursor.pos,
                     ReadEntries(cursor.input, old(cursor.pos), count, old(table.entries), table.maxEntries))
  {
    var updates: seq<Bytestring> := [];
    var left: nat := count;
    ghost var all := ReadEntries(cursor.input, cursor.pos, count, table.entries, table.maxEntries);
    PrefixedByNothing(all);
    while left > 0
      invariant left <= count && table.Valid() && cursor.Valid()
      invariant Prefixed(updates, ReadEntries(cursor.input, cursor.pos, left, table.entries, table.maxEntries), all)
    {
      ghost var here := ReadEntries(cursor.input, cursor.pos, left, table.entries, table.maxEntries);
      var value := DecodeEntry(table, cursor);
      if value.Err? {
        return Err(value.error);
      }
      ghost var rest := ReadEntries(cursor.input, cursor.pos, left - 1, table.entries, table.maxEntries);
      assert StepsTo(here, value.value, rest);
      AppendUpdate(updates, value.value, here, rest, all);
      updates := updates + [value.value];
      left := left - 1;
    }
    assert updates + [] == updates;
    return Ok(updates);
  }

  /** What the loop has and what remains make up the whole. */
  predicate Prefixed(updates: seq<Bytestring>, rest: Replay<Got<seq<Bytestring>>>, all: Replay<Got<seq<Bytestring>>>) {
    && rest.table == all.table
    && match rest.result
       case Err(error) => all.result == Err(error)
       case Ok(got) => all.result == Ok(Got(updates + got.value, got.next))
  }

  predicate Replayed(table: seq<Bytestring>, r: Result<seq<Bytestring>>, pos: nat,
                     all: Replay<Got<seq<Bytestring>>>) {
    && table == all.table
    && match all.result
       case Err(error) => r == Err(error)
       case Ok(got) => r == Ok(got.value) && pos == got.next
  }

  /** One update in front of the rest. */
  predicate StepsTo(here: Replay<Got<seq<Bytestring>>>, value: Bytestring, rest: Replay<Got<seq<Bytestring>>>) {
    && here.table == rest.table
    && match rest.result
       case Err(error) => here.result == Err(error)
       case Ok(got) => here.result == Ok(Got([value] + got.value, got.next))
  }

  lemma PrefixedByNothing(all: Replay<Got<seq<Bytestring>>>)
    ensures Prefixed([], all, all)
  {
    if all.result.Ok? {
      assert [] + all.result.value.value == all.result.value.value;
    }
  }

  lemma AppendUpdate(updates: seq<Bytestring>, value: Bytestring, here: Replay<Got<seq<Bytestring>>>,
                     rest: Replay<Got<seq<Bytestring>>>, all: Replay<Got<seq<Bytestring>>>)
    requires Prefixed(updates, here, all) && StepsTo(here, value, rest)
    ensures Prefixed(updates + [value], rest, all)
  {
    if rest.result.Ok? {
      assert updates + ([value] + rest.result.value.value) == (updates + [value]) + rest.result.value.value;
    }
  }

  /** What came of one entry, against what stands in the frame. */
  predicate EntryRead(read: Replay<Got<Bytestring>>, table: seq<Bytestring>, r: Result<Bytestring>, pos: nat) {
    && table == read.table
    && match read.result
       case Err(error) => r == Err(error)
       case Ok(got) => r == Ok(got.value) && pos == got.next
  }

  method DecodeEntry(table: DeltaTable, cursor: DeltaCursor) returns (r: Result<Bytestring>)
    requires table.Valid() && cursor.Valid()
    modifies table, cursor
    ensures table.Valid() && cursor.Valid()
    ensures EntryRead(ReadEntry(cursor.input, old(cursor.pos), old(table.entries), table.maxEntries),
                      table.entries, r, cursor.pos)
  {
    var tag := cursor.Byte();
    if tag.Err? {
      return Err(tag.error);
    }
    if tag.value == TAG_REF {
      r := DecodeReference(table, cursor);
    } else if tag.value == TAG_LITERAL {
      r := DecodeLiteral(table, cursor);
    } else {
      return Err(UnknownTag);
    }
  }

  method DecodeReference(table: DeltaTable, cursor: DeltaCursor) returns (r: Result<Bytestring>)
    requires table.Valid() && cursor.Valid() && cursor.input[cursor.pos - 1] == TAG_REF
    modifies cursor
    ensures cursor.Valid()
    ensures EntryRead(ReadEntry(cursor.input, old(cursor.pos) - 1, table.entries, table.maxEntries),
                      table.entries, r, cursor.pos)
  {
    var index := cursor.UsizeVarint();
    if index.Err? {
      return Err(index.error);
    }
    if table.Get(index.value) == None {
      return Err(ReferenceOutOfRange);
    }
    return Ok(table.Get(index.value).value);
  }

  method DecodeLiteral(table: DeltaTable, cursor: DeltaCursor) returns (r: Result<Bytestring>)
    requires table.Valid() && cursor.Valid() && cursor.input[cursor.pos - 1] == TAG_LITERAL
    modifies table, cursor
    ensures table.Valid() && cursor.Valid()
    ensures EntryRead(ReadEntry(cursor.input, old(cursor.pos) - 1, old(table.entries), table.maxEntries),
                      table.entries, r, cursor.pos)
  {
    var length := cursor.UsizeVarint();
    if length.Err? {
      return Err(length.error);
    }
    r := cursor.Take(length.value);
    if r.Ok? {
      table.Insert(r.value);
    }
  }
}
