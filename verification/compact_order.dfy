/**
 The order that keys have in the source, where it is derived from that of their parts: integers and
 flags by value, strings by their bytes, sequences lexicographically, absent before present, enums
 by variant first. It is a strict total order on all values, as maps ask of their keys.
 */
module CompactOrder {
  import opened Bytes
  import opened CompactWire

  function Rank(v: Value): nat {
    match v
    case Nothing => 0
    case Flag(_) => 1
    case Number(_) => 2
    case Text(_) => 3
    case Items(_) => 4
    case Absent => 5
    case Present(_) => 6
    case Entries(_) => 7
    case Variant(_, _) => 8
  }

  predicate Before(a: Value, b: Value)
    decreases a, 0
  {
    if Rank(a) != Rank(b) then Rank(a) < Rank(b)
    else
      match a
      case Nothing => false
      case Flag(flag) => !flag && b.flag
      case Number(number) => number < b.number
      case Text(text) => TextBefore(text, b.text)
      case Items(items) => ItemsBefore(items, b.items)
      case Absent => false
      case Present(value) => Before(value, b.value)
      case Entries(entries) => EntriesBefore(entries, b.entries)
      case Variant(index, payload) => index < b.index || (index == b.index && Before(payload, b.payload))
  }

  predicate TextBefore(a: seq<Byte>, b: seq<Byte>) {
    b != [] && (a == [] || a[0] < b[0] || (a[0] == b[0] && TextBefore(a[1..], b[1..])))
  }

  predicate ItemsBefore(a: seq<Value>, b: seq<Value>)
    decreases a, 0
  {
    b != [] && (a == [] || Before(a[0], b[0]) || (a[0] == b[0] && ItemsBefore(a[1..], b[1..])))
  }

  /** Entries compare by key, then by value. */
  predicate EntryBefore(a: Entry, b: Entry)
    decreases a, 0
  {
    Before(a.key, b.key) || (a.key == b.key && Before(a.value, b.value))
  }

  predicate EntriesBefore(a: seq<Entry>, b: seq<Entry>)
    decreases a, 0
  {
    b != [] && (a == [] || EntryBefore(a[0], b[0]) || (a[0] == b[0] && EntriesBefore(a[1..], b[1..])))
  }

  lemma {:induction false} Texts(a: seq<Byte>, b: seq<Byte>, c: seq<Byte>)
    ensures !TextBefore(a, a)
    ensures TextBefore(a, b) && TextBefore(b, c) ==> TextBefore(a, c)
    ensures a == b || TextBefore(a, b) || TextBefore(b, a)
  {
    if a != [] {
      Texts(a[1..], if b == [] then [] else b[1..], if c == [] then [] else c[1..]);
      SameParts(a, b);
    }
  }

  lemma SameParts<T>(a: seq<T>, b: seq<T>)
    ensures a != [] && b != [] && a[0] == b[0] && a[1..] == b[1..] ==> a == b
  {
    if a != [] && b != [] {
      assert a == [a[0]] + a[1..] && b == [b[0]] + b[1..];
    }
  }

  lemma {:induction false} Values(a: Value, b: Value, c: Value)
    ensures !Before(a, a)
    ensures Before(a, b) && Before(b, c) ==> Before(a, c)
    ensures a == b || Before(a, b) || Before(b, a)
    decreases a, 2
  {
    SameRank(a, if Rank(b) == Rank(a) then b else a, if Rank(c) == Rank(a) then c else a);
  }

  lemma {:induction false} SameRank(a: Value, b: Value, c: Value)
    requires Rank(a) == Rank(b) == Rank(c)
    ensures !Before(a, a)
    ensures Before(a, b) && Before(b, c) ==> Before(a, c)
    ensures a == b || Before(a, b) || Before(b, a)
    decreases a, 1
  {
    match a
    case Text(text) => Texts(text, b.text, c.text);
    case Items(items) => Sequences(items, b.items, c.items);
    case Present(value) => Values(value, b.value, c.value);
    case Entries(entries) => EntrySequences(entries, b.entries, c.entries);
    case Variant(_, payload) => Values(payload, b.payload, c.payload);
    case _ =>
  }

  lemma {:induction false} Sequences(a: seq<Value>, b: seq<Value>, c: seq<Value>)
    ensures !ItemsBefore(a, a)
    ensures ItemsBefore(a, b) && ItemsBefore(b, c) ==> ItemsBefore(a, c)
    ensures a == b || ItemsBefore(a, b) || ItemsBefore(b, a)
    decreases a, 0
  {
    if a != [] {
      Values(a[0], if b == [] then a[0] else b[0], if c == [] then a[0] else c[0]);
      Sequences(a[1..], if b == [] then [] else b[1..], if c == [] then [] else c[1..]);
      SameParts(a, b);
    }
  }

  lemma {:induction false} EntrySequences(a: seq<Entry>, b: seq<Entry>, c: seq<Entry>)
    ensures !EntriesBefore(a, a)
    ensures EntriesBefore(a, b) && EntriesBefore(b, c) ==> EntriesBefore(a, c)
    ensures a == b || EntriesBefore(a, b) || EntriesBefore(b, a)
    decreases a, 0
  {
    if a != [] {
      Pairs(a[0], if b == [] then a[0] else b[0], if c == [] then a[0] else c[0]);
      EntrySequences(a[1..], if b == [] then [] else b[1..], if c == [] then [] else c[1..]);
      SameParts(a, b);
    }
  }

  lemma {:induction false} Pairs(a: Entry, b: Entry, c: Entry)
    ensures !EntryBefore(a, a)
    ensures EntryBefore(a, b) && EntryBefore(b, c) ==> EntryBefore(a, c)
    ensures a == b || EntryBefore(a, b) || EntryBefore(b, a)
    decreases a, 0
  {
    Values(a.key, b.key, c.key);
    Values(a.value, b.value, c.value);
  }

  /** Map types over this order are well formed, so what is proved of maps is proved of something. */
  lemma BeforeIsStrictOrder()
    ensures StrictOrder(Before)
  {
    forall a: Value, b: Value, c: Value
      ensures !Before(a, a) && (Before(a, b) && Before(b, c) ==> Before(a, c))
      ensures a == b || Before(a, b) || Before(b, a)
    {
      Values(a, b, c);
    }
  }
}
