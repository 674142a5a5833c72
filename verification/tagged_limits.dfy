/** What the limits of the self-describing profile ask of a value: its height, its containers, its floats. */
module TaggedLimits {
  import opened Bytes
  import opened Tagged
  import opened TaggedTheorems

  /** No container holds more entries than the collection limit allows, and no float is infinite or no number. */
  predicate ValueFits(most: Option<nat>, v: Value)
    decreases v, 0
  {
    match v
    case F64(bits) => bits / 0x10_0000_0000_0000 % 0x800 < 0x7ff
    case F32(bits) => bits / 0x80_0000 % 0x100 < 0xff
    case Array(items) => (most.Some? ==> |items| <= most.value) && ItemsFit(most, items)
    case Object(fields) => (most.Some? ==> |fields| <= most.value) && FieldsFit(most, fields)
    case _ => true
  }

  predicate ItemsFit(most: Option<nat>, items: seq<Value>)
    decreases items, 0
  {
    items == [] || (ValueFits(most, items[0]) && ItemsFit(most, items[1..]))
  }

  predicate FieldsFit(most: Option<nat>, fields: seq<Field>)
    decreases fields, 0
  {
    fields == [] || (ValueFits(most, fields[0].value) && FieldsFit(most, fields[1..]))
  }

  /**
   The encoder's limits admit a value exactly when it is not higher than what is left of the depth
   limit and everything in it fits.
   */
  lemma {:induction false} AdmitsByHeight(c: Config, v: Value, depth: nat)
    requires depth <= c.depthLimit
    ensures Emittable(c, v, depth) <==> depth + Height(v) <= c.depthLimit && ValueFits(c.collectionLimit, v)
    decreases v, 0
  {
    if depth < c.depthLimit {
      match v
      case Array(items) => ItemsByHeight(c, items, depth + 1);
      case Object(fields) => FieldsByHeight(c, fields, depth + 1);
      case _ =>
    }
  }

  lemma {:induction false} ItemsByHeight(c: Config, items: seq<Value>, depth: nat)
    requires depth <= c.depthLimit
    ensures AllEmittable(c, items, depth) <==>
      depth + ItemHeight(items) <= c.depthLimit && ItemsFit(c.collectionLimit, items)
    decreases items, 0
  {
    if items != [] {
      AdmitsByHeight(c, items[0], depth);
      ItemsByHeight(c, items[1..], depth);
    }
  }

  lemma {:induction false} FieldsByHeight(c: Config, fields: seq<Field>, depth: nat)
    requires depth <= c.depthLimit
    ensures FieldsEmittable(c, fields, depth) <==>
      depth + FieldHeight(fields) <= c.depthLimit && FieldsFit(c.collectionLimit, fields)
    decreases fields, 0
  {
    if fields != [] {
      AdmitsByHeight(c, fields[0].value, depth);
      FieldsByHeight(c, fields[1..], depth);
    }
  }

  /** The value nodes of a tree. */
  function Nodes(v: Value): nat
    decreases v, 0
  {
    match v
    case Array(items) => 1 + ItemNodes(items)
    case Object(fields) => 1 + FieldNodes(fields)
    case _ => 1
  }

  function ItemNodes(items: seq<Value>): nat
    decreases items, 0
  {
    if items == [] then 0 else Nodes(items[0]) + ItemNodes(items[1..])
  }

  function FieldNodes(fields: seq<Field>): nat
    decreases fields, 0
  {
    if fields == [] then 0 else Nodes(fields[0].value) + FieldNodes(fields[1..])
  }

  /** Every node but the root is an entry of one container. */
  lemma {:induction false} EntriesAreNodes(v: Value)
    ensures Nodes(v) == 1 + Elements(v)
    decreases v, 0
  {
    match v
    case Array(items) => ItemsAreNodes(items);
    case Object(fields) => FieldsAreNodes(fields);
    case _ =>
  }

  lemma {:induction false} ItemsAreNodes(items: seq<Value>)
    ensures ItemNodes(items) == |items| + ItemElements(items)
    decreases items, 0
  {
    if items != [] {
      EntriesAreNodes(items[0]);
      ItemsAreNodes(items[1..]);
    }
  }

  lemma {:induction false} FieldsAreNodes(fields: seq<Field>)
    ensures FieldNodes(fields) == |fields| + FieldElements(fields)
    decreases fields, 0
  {
    if fields != [] {
      EntriesAreNodes(fields[0].value);
      FieldsAreNodes(fields[1..]);
    }
  }

  /**
   The probe of emitted bytes: everything but the root is an entry, and what the probe calls depth is
   what the encoder's depth limit must be at least.
   */
  lemma ProbeMeasures(c: Config, v: Value, probe: Probe)
    requires Typed(v) && Height(v) <= c.depthLimit && ValueFits(c.collectionLimit, v)
    requires Within(c.limit, |Emitted(v)|) && |Emitted(v)| < U64_LIMIT
    requires ProbeOutcome(c, Emitted(v)) == Ok(probe)
    ensures probe.bytes == |Emitted(v)| && probe.elements == Nodes(v) - 1
    ensures forall limit: nat :: Emittable(c.(depthLimit := limit), v, 0) <==> probe.depth <= limit
  {
    AdmitsByHeight(c, v, 0);
    ProbeIsExact(c, v);
    EntriesAreNodes(v);
    forall limit: nat ensures Emittable(c.(depthLimit := limit), v, 0) <==> probe.depth <= limit {
      AdmitsByHeight(c.(depthLimit := limit), v, 0);
    }
  }
}
