/**
 What the decoder's flat skip accepts, said without a counter: containers, their terminators and
 readable tokens, and nothing else. Of what it accepts, the walk refuses exactly the outlines that
 break a limit or the shape of an object.
 */
module TaggedOutline {
  import opened Bytes
  import opened Tagged
  import opened TaggedTheorems

  /** A token that stands alone, or a container with everything up to its terminator. */
  datatype Outline =
    | Plain(text: bool, next: nat)
    | Box(keyed: bool, items: seq<Outline>, next: nat)

  datatype Items = Items(items: seq<Outline>, next: nat)

  function BoxOf(keyed: bool, read: Result<Items>): Result<Outline> {
    match read
    case Err(error) => Err(error)
    case Ok(inner) => Ok(Box(keyed, inner.items, inner.next))
  }

  function InFront(first: Outline, read: Result<Items>): Result<Items> {
    match read
    case Err(error) => Err(error)
    case Ok(rest) => Ok(Items([first] + rest.items, rest.next))
  }

  /** One value read recursively. */
  function OutlineAt(c: Config, input: seq<Byte>, pos: nat): (r: Result<Outline>)
    ensures r.Ok? ==> pos < r.value.next <= |input|
    decreases |input| - pos, 0
  {
    match ReadToken(c, input, pos)
    case Err(error) => Err(error)
    case Ok(token) =>
      TokenAdvances(c, input, pos);
      if token.opens then BoxOf(input[pos] == TAG_OBJECT, ItemsAt(c, input, token.next))
      else Ok(Plain(input[pos] == TAG_STRING, token.next))
  }

  /** Values up to a terminator. */
  function ItemsAt(c: Config, input: seq<Byte>, pos: nat): (r: Result<Items>)
    ensures r.Ok? ==> pos < r.value.next <= |input|
    decreases |input| - pos, 1
  {
    if pos >= |input| then Err(UnexpectedEnd)
    else if input[pos] == TAG_END then Ok(Items([], pos + 1))
    else
      match OutlineAt(c, input, pos)
      case Err(error) => Err(error)
      case Ok(first) => InFront(first, ItemsAt(c, input, first.next))
  }

  /** Where the skip goes on behind the items of the innermost open container. */
  function Closed(c: Config, input: seq<Byte>, read: Result<Items>, nested: nat): Result<nat>
    requires nested > 0
  {
    match read
    case Err(error) => Err(error)
    case Ok(inner) => if nested == 1 then Ok(inner.next) else SkipFlat(c, input, inner.next, nested - 1)
  }

  /** Where the skip goes on behind a value inside a container. */
  function Passed(c: Config, input: seq<Byte>, read: Result<Outline>, nested: nat): Result<nat>
    requires nested > 0
  {
    match read
    case Err(error) => Err(error)
    case Ok(first) => SkipFlat(c, input, first.next, nested)
  }

  lemma {:induction false} FlatPasses(c: Config, input: seq<Byte>, pos: nat, nested: nat)
    requires nested > 0 && pos < |input| && input[pos] != TAG_END
    ensures SkipFlat(c, input, pos, nested) == Passed(c, input, OutlineAt(c, input, pos), nested)
    decreases |input| - pos, 0
  {
    if ReadToken(c, input, pos).Ok? && ReadToken(c, input, pos).value.opens {
      TokenAdvances(c, input, pos);
      FlatCloses(c, input, ReadToken(c, input, pos).value.next, nested + 1);
    }
  }

  lemma {:induction false} FlatCloses(c: Config, input: seq<Byte>, pos: nat, nested: nat)
    requires nested > 0
    ensures SkipFlat(c, input, pos, nested) == Closed(c, input, ItemsAt(c, input, pos), nested)
    decreases |input| - pos, 1
  {
    if pos < |input| && input[pos] != TAG_END {
      FlatPasses(c, input, pos, nested);
      if OutlineAt(c, input, pos).Ok? {
        FlatCloses(c, input, OutlineAt(c, input, pos).value.next, nested);
      }
    }
  }

  function EndOf(read: Result<Outline>): Result<nat> {
    match read
    case Err(error) => Err(error)
    case Ok(outline) => Ok(outline.next)
  }

  /** The counter of open containers reads the nested structure: same end, same error, on every input. */
  lemma SkipIsOutline(c: Config, input: seq<Byte>, pos: nat)
    ensures Skip(c, input, pos) == EndOf(OutlineAt(c, input, pos))
  {
    if ReadToken(c, input, pos).Ok? && ReadToken(c, input, pos).value.opens {
      FlatCloses(c, input, ReadToken(c, input, pos).value.next, 1);
    }
  }

  // ---------- What the walk asks beyond that ----------

  /** Keys and values alternate, and every key is a string. */
  predicate Alternate(items: seq<Outline>) {
    items == [] || (|items| >= 2 && items[0].Plain? && items[0].text && Alternate(items[2..]))
  }

  /** The entries of a container: a key and its value make one. */
  function Entries(keyed: bool, items: seq<Outline>): nat {
    if keyed then |items| / 2 else |items|
  }

  /** Depth, entries and terminators within the limits, and keys where an object wants them. */
  predicate Conforms(c: Config, o: Outline, depth: nat)
    decreases o, 0
  {
    o.Box? ==>
      && depth < c.depthLimit
      && Within(c.collectionLimit, Entries(o.keyed, o.items))
      && (o.keyed ==> Alternate(o.items))
      && Within(c.limit, o.next)
      && AllConform(c, o.items, depth + 1)
  }

  predicate AllConform(c: Config, items: seq<Outline>, depth: nat)
    decreases items, 0
  {
    items == [] || (Conforms(c, items[0], depth) && AllConform(c, items[1..], depth))
  }

  /** The conditions on a container, from the inside and past `count` of its entries. */
  predicate RestConforms(c: Config, inner: Items, depth: nat, keyed: bool, count: nat) {
    && Within(c.collectionLimit, count + Entries(keyed, inner.items))
    && (keyed ==> Alternate(inner.items))
    && Within(c.limit, inner.next)
    && AllConform(c, inner.items, depth)
  }

  /** The walk succeeds exactly on a condition, and then ends where the skip does. */
  predicate Agrees(walked: Result<Shape>, conforms: bool, next: nat) {
    (walked.Ok? <==> conforms) && (walked.Ok? ==> walked.value.next == next)
  }

  /**
   Of the values the skip accepts, the walk accepts exactly those that conform, whether or not it
   also asks for readable tokens.
   */
  lemma {:induction false} WalksIfConforms(c: Config, checked: bool, input: seq<Byte>, pos: nat, depth: nat)
    requires OutlineAt(c, input, pos).Ok? && |input| < U64_LIMIT
    ensures var o := OutlineAt(c, input, pos).value;
      Agrees(Walk(c, checked, input, pos, depth), Conforms(c, o, depth), o.next)
    decreases |input| - pos, 0
  {
    if Opens(input, pos) {
      BoxOpens(c, input, pos);
      if depth < c.depthLimit {
        EntriesIfConform(c, checked, input, pos + 1, depth + 1, input[pos] == TAG_OBJECT, 0);
      }
      BoxStep(c, checked, input, pos, depth);
    } else {
      TokenWalks(c, checked, input, pos, depth);
    }
  }

  lemma BoxOpens(c: Config, input: seq<Byte>, pos: nat)
    requires Opens(input, pos) && OutlineAt(c, input, pos).Ok?
    ensures Take(c, input, pos, 1) == Ok(pos + 1) && ItemsAt(c, input, pos + 1).Ok?
    ensures var inner := ItemsAt(c, input, pos + 1).value;
      OutlineAt(c, input, pos).value == Box(input[pos] == TAG_OBJECT, inner.items, inner.next)
  {
  }

  /** A container around entries of which the same is known. */
  lemma BoxStep(c: Config, checked: bool, input: seq<Byte>, pos: nat, depth: nat)
    requires Opens(input, pos) && OutlineAt(c, input, pos).Ok? && ItemsAt(c, input, pos + 1).Ok?
    requires Take(c, input, pos, 1) == Ok(pos + 1)
    requires var inner, keyed := ItemsAt(c, input, pos + 1).value, input[pos] == TAG_OBJECT;
      depth < c.depthLimit ==>
        Agrees(WalkEntries(c, checked, input, pos + 1, depth + 1, keyed, 0),
               RestConforms(c, inner, depth + 1, keyed, 0), inner.next)
    ensures var o := OutlineAt(c, input, pos).value;
      Agrees(Walk(c, checked, input, pos, depth), Conforms(c, o, depth), o.next)
  {
  }

  /** A readable scalar is walked to its end, and conforms. */
  lemma TokenWalks(c: Config, checked: bool, input: seq<Byte>, pos: nat, depth: nat)
    requires OutlineAt(c, input, pos).Ok? && !Opens(input, pos)
    ensures OutlineAt(c, input, pos).value.Plain?
    ensures Walk(c, checked, input, pos, depth) == Ok(Shape(OutlineAt(c, input, pos).value.next, 0, 0, 0))
  {
  }

  lemma {:induction false} EntriesIfConform(c: Config, checked: bool, input: seq<Byte>, pos: nat, depth: nat,
                                            keyed: bool, count: nat)
    requires ItemsAt(c, input, pos).Ok? && |input| < U64_LIMIT && Within(c.collectionLimit, count)
    ensures var inner := ItemsAt(c, input, pos).value;
      Agrees(WalkEntries(c, checked, input, pos, depth, keyed, count), RestConforms(c, inner, depth, keyed, count),
             inner.next)
    decreases |input| - pos, 1
  {
    if input[pos] != TAG_END && Within(c.collectionLimit, count + 1) {
      var first := OutlineAt(c, input, pos).value;
      var rest := ItemsAt(c, input, first.next).value;
      if !keyed {
        WalksIfConforms(c, checked, input, pos, depth);
        EntriesIfConform(c, checked, input, first.next, depth, keyed, count + 1);
        ElementStep(c, checked, input, pos, depth, count, first, rest);
      } else if !first.Plain? || !first.text {
        KeyRefused(c, checked, input, pos, depth, count, first);
      } else if input[first.next] == TAG_END {
        ValueMissing(c, checked, input, pos, depth, count, first);
      } else {
        var second := OutlineAt(c, input, first.next).value;
        var others := ItemsAt(c, input, second.next).value;
        WalksIfConforms(c, checked, input, first.next, depth);
        EntriesIfConform(c, checked, input, second.next, depth, keyed, count + 1);
        FieldStep(c, checked, input, pos, depth, count, first, second, others);
      }
    }
  }

  lemma ElementStep(c: Config, checked: bool, input: seq<Byte>, pos: nat, depth: nat, count: nat, first: Outline,
                    rest: Items)
    requires pos < |input| && input[pos] != TAG_END && Within(c.collectionLimit, count + 1)
    requires Agrees(Walk(c, checked, input, pos, depth), Conforms(c, first, depth), first.next)
    requires Agrees(WalkEntries(c, checked, input, first.next, depth, false, count + 1),
                    RestConforms(c, rest, depth, false, count + 1), rest.next)
    ensures Agrees(WalkEntries(c, checked, input, pos, depth, false, count),
                   RestConforms(c, Items([first] + rest.items, rest.next), depth, false, count), rest.next)
  {
    FirstConforms(c, first, rest.items, depth);
  }

  /** A key that is no string. */
  lemma KeyRefused(c: Config, checked: bool, input: seq<Byte>, pos: nat, depth: nat, count: nat, key: Outline)
    requires OutlineAt(c, input, pos) == Ok(key) && !(key.Plain? && key.text)
    ensures WalkEntries(c, checked, input, pos, depth, true, count).Err?
  {
    NoKey(c, input, pos, key);
    assert EntryValue(c, checked, input, pos, true) == Err(InvalidKey);
  }

  lemma NoKey(c: Config, input: seq<Byte>, pos: nat, key: Outline)
    requires OutlineAt(c, input, pos) == Ok(key) && !(key.Plain? && key.text)
    ensures Take(c, input, pos, 1) == Ok(pos + 1) && ReadToken(c, input, pos).Ok?
    ensures input[pos] != TAG_STRING && input[pos] != TAG_END
  {
  }

  /** A key that is a string: the walk goes on with its value. */
  lemma KeyWalks(c: Config, checked: bool, input: seq<Byte>, pos: nat, start: nat)
    requires OutlineAt(c, input, pos) == Ok(Plain(true, start))
    ensures pos < |input| && input[pos] != TAG_END && EntryValue(c, checked, input, pos, true) == Ok(start)
  {
  }

  /** A key with the terminator behind it. */
  lemma ValueMissing(c: Config, checked: bool, input: seq<Byte>, pos: nat, depth: nat, count: nat, key: Outline)
    requires OutlineAt(c, input, pos) == Ok(key) && key.Plain? && key.text
    requires key.next < |input| && input[key.next] == TAG_END
    ensures WalkEntries(c, checked, input, pos, depth, true, count).Err?
  {
    KeyWalks(c, checked, input, pos, key.next);
  }

  lemma FieldStep(c: Config, checked: bool, input: seq<Byte>, pos: nat, depth: nat, count: nat, key: Outline,
                  value: Outline, rest: Items)
    requires OutlineAt(c, input, pos) == Ok(key) && key.Plain? && key.text && Within(c.collectionLimit, count + 1)
    requires Agrees(Walk(c, checked, input, key.next, depth), Conforms(c, value, depth), value.next)
    requires Agrees(WalkEntries(c, checked, input, value.next, depth, true, count + 1),
                    RestConforms(c, rest, depth, true, count + 1), rest.next)
    ensures Agrees(WalkEntries(c, checked, input, pos, depth, true, count),
                   RestConforms(c, Items([key] + ([value] + rest.items), rest.next), depth, true, count), rest.next)
  {
    KeyWalks(c, checked, input, pos, key.next);
    PairConforms(c, key, value, rest, depth, count);
  }

  /** Two items that make one entry, in front of the others. */
  lemma PairConforms(c: Config, key: Outline, value: Outline, rest: Items, depth: nat, count: nat)
    requires key.Plain? && key.text
    ensures RestConforms(c, Items([key] + ([value] + rest.items), rest.next), depth, true, count)
       <==> Conforms(c, value, depth) && RestConforms(c, rest, depth, true, count + 1)
  {
    FirstConforms(c, key, [value] + rest.items, depth);
    FirstConforms(c, value, rest.items, depth);
    assert ([key] + ([value] + rest.items))[2..] == rest.items;
  }

  lemma FirstConforms(c: Config, first: Outline, others: seq<Outline>, depth: nat)
    ensures AllConform(c, [first] + others, depth) <==> Conforms(c, first, depth) && AllConform(c, others, depth)
  {
    assert ([first] + others)[1..] == others;
  }

  /**
   On an input the skip accepts, the walk succeeds exactly when at every container the depth is below
   its limit, the entries and the terminator are within theirs, and an object's keys are strings each
   with a value; both then stop at the same byte.
   */
  lemma WalkVersusSkip(c: Config, checked: bool, input: seq<Byte>, pos: nat, depth: nat)
    requires Skip(c, input, pos).Ok? && |input| < U64_LIMIT
    ensures OutlineAt(c, input, pos).Ok?
    ensures Walk(c, checked, input, pos, depth).Ok? <==> Conforms(c, OutlineAt(c, input, pos).value, depth)
    ensures Walk(c, checked, input, pos, depth).Ok? ==>
      Walk(c, checked, input, pos, depth).value.next == Skip(c, input, pos).value
  {
    SkipIsOutline(c, input, pos);
    WalksIfConforms(c, checked, input, pos, depth);
  }

  /** The skip passes containers beyond the depth limit, entries beyond their limit, and a key without a value. */
  lemma SkipIgnoresDepthAndEntries(c: Config)
    requires c == Config(None, None, 1, true)
    ensures Skip(c, [TAG_ARRAY, TAG_ARRAY, TAG_END, TAG_END], 0) == Ok(4)
    ensures Walk(c, false, [TAG_ARRAY, TAG_ARRAY, TAG_END, TAG_END], 0, 0) == Err(DepthLimit)
    ensures var none := c.(collectionLimit := Some(0));
      && Skip(none, [TAG_ARRAY, TAG_NULL, TAG_END], 0) == Ok(3)
      && Walk(none, false, [TAG_ARRAY, TAG_NULL, TAG_END], 0, 0) == Err(CollectionLimit(0))
    ensures Skip(c, [TAG_OBJECT, TAG_STRING, 0, TAG_END], 0) == Ok(4)
    ensures Walk(c, false, [TAG_OBJECT, TAG_STRING, 0, TAG_END], 0, 0) == Err(UnexpectedTerminator)
  {
    var deep: seq<Byte> := [TAG_ARRAY, TAG_ARRAY, TAG_END, TAG_END];
    assert SkipFlat(c, deep, 3, 1) == Ok(4);
    assert SkipFlat(c, deep, 2, 2) == Ok(4);
    assert SkipFlat(c, deep, 1, 1) == Ok(4);
    assert WalkEntries(c, false, deep, 1, 1, false, 0) == Err(DepthLimit);
    var none, one: seq<Byte> := c.(collectionLimit := Some(0)), [TAG_ARRAY, TAG_NULL, TAG_END];
    assert SkipFlat(none, one, 2, 1) == Ok(3);
    assert SkipFlat(none, one, 1, 1) == Ok(3);
    assert WalkEntries(none, false, one, 1, 1, false, 0) == Err(CollectionLimit(0));
    var lone: seq<Byte> := [TAG_OBJECT, TAG_STRING, 0, TAG_END];
    assert Str(c, lone, 2) == Ok(Got(3, 3));
    assert SkipFlat(c, lone, 3, 1) == Ok(4);
    assert SkipFlat(c, lone, 1, 1) == Ok(4);
    assert Walk(c, false, lone, 3, 1) == Err(UnexpectedTerminator);
    assert WalkEntries(c, false, lone, 1, 1, true, 0) == Err(UnexpectedTerminator);
  }

  // ---------- Emitted bytes ----------

  predicate Reads(c: Config, input: seq<Byte>, pos: nat, end: nat) {
    OutlineAt(c, input, pos).Ok? && OutlineAt(c, input, pos).value.next == end
  }

  predicate ReadsItems(c: Config, input: seq<Byte>, pos: nat, end: nat) {
    ItemsAt(c, input, pos).Ok? && ItemsAt(c, input, pos).value.next == end
  }

  /** The bytes of any value are read to their end, whatever its depth, its entries and its floats. */
  lemma {:induction false} ReadsValue(c: Config, input: seq<Byte>, pos: nat, v: Value, bytes: seq<Byte>, end: nat)
    requires Typed(v) && bytes == Emitted(v) && Stands(c, input, pos, bytes) && end == pos + |bytes|
    ensures Reads(c, input, pos, end)
    decreases v, 0
  {
    if v.Array? {
      var inner := ItemBytes(v.items);
      TagStands(c, input, pos, bytes, TAG_ARRAY, inner);
      ReadsElements(c, input, pos + 1, v.items, inner, end);
    } else if v.Object? {
      var inner := FieldBytes(v.fields);
      TagStands(c, input, pos, bytes, TAG_OBJECT, inner);
      ReadsFields(c, input, pos + 1, v.fields, inner, end);
    } else {
      if v.Text? {
        StrStands(c, true, input, pos, 0, v.text, bytes);
      } else {
        ScalarStands(c, true, input, pos, 0, v, bytes);
        EmittedScalar(v, bytes[0]);
      }
      TagStands(c, input, pos, bytes, bytes[0], bytes[1..]);
      PlainReads(c, input, pos, end);
    }
  }

  lemma EmittedScalar(v: Value, tag: Byte)
    requires Typed(v) && IsScalar(v) && tag == Emitted(v)[0]
    ensures tag != TAG_ARRAY && tag != TAG_OBJECT
  {
  }

  /** A token a checked walk steps over. */
  lemma PlainReads(c: Config, input: seq<Byte>, pos: nat, end: nat)
    requires !Opens(input, pos) && Walk(c, true, input, pos, 0) == Ok(Shape(end, 0, 0, 0))
    ensures Reads(c, input, pos, end) && input[pos] != TAG_END
  {
  }

  lemma {:induction false} ReadsElements(c: Config, input: seq<Byte>, pos: nat, items: seq<Value>, bytes: seq<Byte>,
                                         end: nat)
    requires AllTyped(items) && bytes == ItemBytes(items) && Stands(c, input, pos, bytes) && end == pos + |bytes|
    ensures ReadsItems(c, input, pos, end)
    decreases items, 0
  {
    if items == [] {
      EndReads(c, input, pos);
    } else {
      var others := items[1..];
      var first, rest := Emitted(items[0]), ItemBytes(others);
      var next := pos + |first|;
      StandsParts(c, input, pos, bytes, first, rest, next);
      ReadsValue(c, input, pos, items[0], first, next);
      ReadsElements(c, input, next, others, rest, end);
      FirstReads(c, input, pos, next, end);
    }
  }

  lemma {:induction false} ReadsFields(c: Config, input: seq<Byte>, pos: nat, fields: seq<Field>, bytes: seq<Byte>,
                                       end: nat)
    requires FieldsTyped(fields) && bytes == FieldBytes(fields) && Stands(c, input, pos, bytes)
    requires end == pos + |bytes|
    ensures ReadsItems(c, input, pos, end)
    decreases fields, 0
  {
    if fields == [] {
      EndReads(c, input, pos);
    } else {
      var others := fields[1..];
      var key, value, rest := StrBytes(fields[0].key), Emitted(fields[0].value), FieldBytes(others);
      var start, next := pos + |key|, pos + |key| + |value|;
      FieldParts(c, input, pos, bytes, key, value, rest, start, next);
      ReadsKey(c, input, pos, fields[0].key, key, start);
      ReadsValue(c, input, start, fields[0].value, value, next);
      ReadsFields(c, input, next, others, rest, end);
      FirstReads(c, input, start, next, end);
      FirstReads(c, input, pos, start, end);
    }
  }

  lemma ReadsKey(c: Config, input: seq<Byte>, pos: nat, text: seq<Byte>, key: seq<Byte>, start: nat)
    requires IsText(text) && key == StrBytes(text) && Stands(c, input, pos, key) && start == pos + |key|
    ensures Reads(c, input, pos, start)
  {
    StrStands(c, true, input, pos, 0, text, key);
    PlainReads(c, input, pos, start);
  }

  lemma EndReads(c: Config, input: seq<Byte>, pos: nat)
    requires Stands(c, input, pos, [TAG_END])
    ensures ReadsItems(c, input, pos, pos + 1)
  {
    assert input[pos..pos + 1][0] == input[pos];
  }

  lemma FirstReads(c: Config, input: seq<Byte>, pos: nat, next: nat, end: nat)
    requires Reads(c, input, pos, next) && ReadsItems(c, input, next, end)
    ensures ReadsItems(c, input, pos, end)
  {
  }

  /** Skipping any value anywhere in an input steps over exactly its bytes. */
  lemma SkipIsExact(c: Config, v: Value, input: seq<Byte>, pos: nat)
    requires Typed(v) && Stands(c, input, pos, Emitted(v))
    ensures Skip(c, input, pos) == Ok(pos + |Emitted(v)|)
  {
    ReadsValue(c, input, pos, v, Emitted(v), pos + |Emitted(v)|);
    SkipIsOutline(c, input, pos);
  }
}
