/**
 Invertible Bloom lookup tables as an abelian group: a table is the sum of the signatures of what
 was inserted, minus those of what was deleted. Counts wrap as `i32` does; the hash is a parameter.
 */
module IbltGroup {
  import opened Bits
  import opened Bytes

  /** A 64-bit word. */
  type Word = n: nat | n < 0x1_0000_0000_0000_0000

  type Hash = Word -> Word

  const HASH_COUNT := 3
  const POSITION_SEEDS: seq<Word> := [0x9e37_79b9_7f4a_7c15, 0xbf58_476d_1ce4_e5b9, 0x94d0_49bb_1331_11eb]

  /** The bits of an `i32`: minus one is all ones. */
  type Count = n: nat | n < 0x1_0000_0000

  const WRAP := 0x1_0000_0000
  const MINUS_ONE: Count := 0xffff_ffff

  /** One bucket: how often it was hit, and the xor of keys, values and key hashes. */
  datatype Cell = Cell(count: Count, keySum: Word, valueSum: Word, hashSum: Word)

  const ZERO_CELL := Cell(0, 0, 0, 0)

  type Table = seq<Cell>

  function AddCount(a: Count, b: Count): Count {
    if a + b < WRAP then a + b else a + b - WRAP
  }

  function NegCount(a: Count): Count {
    if a == 0 then 0 else WRAP - a
  }

  function XorWord(a: Word, b: Word): Word {
    Pow2Table();
    XorFits(a, b, 64);
    Xor(a, b)
  }

  function Add(a: Cell, b: Cell): Cell {
    Cell(AddCount(a.count, b.count), XorWord(a.keySum, b.keySum), XorWord(a.valueSum, b.valueSum),
         XorWord(a.hashSum, b.hashSum))
  }

  function Neg(a: Cell): Cell {
    Cell(NegCount(a.count), a.keySum, a.valueSum, a.hashSum)
  }

  lemma CountLaws(a: Count, b: Count, c: Count)
    ensures AddCount(a, b) == AddCount(b, a) && AddCount(AddCount(a, b), c) == AddCount(a, AddCount(b, c))
    ensures AddCount(a, 0) == a && AddCount(a, NegCount(a)) == 0
    ensures NegCount(AddCount(a, b)) == AddCount(NegCount(a), NegCount(b)) && NegCount(NegCount(a)) == a
  {
  }

  lemma AddCommutes(a: Cell, b: Cell)
    ensures Add(a, b) == Add(b, a)
  {
    XorCommutes(a.keySum, b.keySum);
    XorCommutes(a.valueSum, b.valueSum);
    XorCommutes(a.hashSum, b.hashSum);
  }

  lemma AddAssociates(a: Cell, b: Cell, c: Cell)
    ensures Add(Add(a, b), c) == Add(a, Add(b, c))
  {
    CountLaws(a.count, b.count, c.count);
    XorAssociates(a.keySum, b.keySum, c.keySum);
    XorAssociates(a.valueSum, b.valueSum, c.valueSum);
    XorAssociates(a.hashSum, b.hashSum, c.hashSum);
  }

  lemma AddInverse(a: Cell)
    ensures Add(a, ZERO_CELL) == a && Add(a, Neg(a)) == ZERO_CELL && Neg(Neg(a)) == a
  {
    CountLaws(a.count, 0, 0);
    XorSelf(a.keySum);
    XorSelf(a.valueSum);
    XorSelf(a.hashSum);
  }

  lemma NegOfAdd(a: Cell, b: Cell)
    ensures Neg(Add(a, b)) == Add(Neg(a), Neg(b))
  {
    CountLaws(a.count, b.count, 0);
  }

  // ---------- Tables ----------

  function Zero(n: nat): (t: Table)
    ensures |t| == n
  {
    seq(n, _ => ZERO_CELL)
  }

  function Plus(t: Table, u: Table): (sum: Table)
    requires |t| == |u|
    ensures |sum| == |t|
  {
    seq(|t|, i requires 0 <= i < |t| => Add(t[i], u[i]))
  }

  function Minus(t: Table): (negated: Table)
    ensures |negated| == |t|
  {
    seq(|t|, i requires 0 <= i < |t| => Neg(t[i]))
  }

  lemma PlusCommutes(t: Table, u: Table)
    requires |t| == |u|
    ensures Plus(t, u) == Plus(u, t)
  {
    forall i | 0 <= i < |t| ensures Plus(t, u)[i] == Plus(u, t)[i] {
      AddCommutes(t[i], u[i]);
    }
  }

  lemma PlusAssociates(t: Table, u: Table, w: Table)
    requires |t| == |u| == |w|
    ensures Plus(Plus(t, u), w) == Plus(t, Plus(u, w))
  {
    forall i | 0 <= i < |t| ensures Plus(Plus(t, u), w)[i] == Plus(t, Plus(u, w))[i] {
      AddAssociates(t[i], u[i], w[i]);
    }
  }

  lemma PlusZero(t: Table)
    ensures Plus(t, Zero(|t|)) == t
  {
    forall i | 0 <= i < |t| ensures Plus(t, Zero(|t|))[i] == t[i] {
      AddInverse(t[i]);
    }
  }

  lemma PlusMinus(t: Table)
    ensures Plus(t, Minus(t)) == Zero(|t|)
  {
    forall i | 0 <= i < |t| ensures Plus(t, Minus(t))[i] == Zero(|t|)[i] {
      AddInverse(t[i]);
    }
  }

  lemma MinusOfPlus(t: Table, u: Table)
    requires |t| == |u|
    ensures Minus(Plus(t, u)) == Plus(Minus(t), Minus(u)) && Minus(Minus(t)) == t
  {
    forall i | 0 <= i < |t|
      ensures Minus(Plus(t, u))[i] == Plus(Minus(t), Minus(u))[i] && Minus(Minus(t))[i] == t[i]
    {
      NegOfAdd(t[i], u[i]);
      AddInverse(t[i]);
    }
  }

  /** Two tables with the same difference to a third are the same. */
  lemma Cancel(t: Table, u: Table, w: Table)
    requires |t| == |u| == |w| && Plus(t, w) == Plus(u, w)
    ensures t == u
  {
    PlusAssociates(t, w, Minus(w));
    PlusAssociates(u, w, Minus(w));
    PlusMinus(w);
    PlusZero(t);
    PlusZero(u);
  }

  // ---------- Entries ----------

  /** A key and its value, in the table of one side or of the other. */
  datatype Entry = Entry(key: Word, value: Word, present: bool)

  function Position(h: Hash, key: Word, k: nat, n: nat): (p: nat)
    requires k < HASH_COUNT && n > 0
    ensures p < n
  {
    h(XorWord(key, POSITION_SEEDS[k])) % n
  }

  /** What one hit adds to a cell: deleting takes the count back, and xors the same sums. */
  function Hit(h: Hash, e: Entry): Cell {
    Cell(if e.present then 1 else MINUS_ONE, e.key, e.value, h(e.key))
  }

  function Bump(t: Table, p: nat, c: Cell): (bumped: Table)
    requires p < |t|
    ensures |bumped| == |t|
  {
    t[p := Add(t[p], c)]
  }

  /** The first `k` hits of an entry, on positions that may coincide. */
  function Bumps(h: Hash, t: Table, e: Entry, k: nat): (bumped: Table)
    requires k <= HASH_COUNT && |t| > 0
    ensures |bumped| == |t|
  {
    if k == 0 then t else Bump(Bumps(h, t, e, k - 1), Position(h, e.key, k - 1, |t|), Hit(h, e))
  }

  /** Inserting an entry of this side, or deleting one of the other. */
  function Applied(h: Hash, t: Table, e: Entry): (applied: Table)
    requires |t| > 0
    ensures |applied| == |t|
  {
    Bumps(h, t, e, HASH_COUNT)
  }

  /** The signature of an entry: what it adds to any table. */
  function Signature(h: Hash, n: nat, e: Entry): (t: Table)
    requires n > 0
    ensures |t| == n
  {
    Applied(h, Zero(n), e)
  }

  lemma BumpOfPlus(t: Table, u: Table, p: nat, c: Cell)
    requires |t| == |u| && p < |t|
    ensures Bump(Plus(t, u), p, c) == Plus(t, Bump(u, p, c))
  {
    AddAssociates(t[p], u[p], c);
  }

  lemma {:induction false} BumpsOfPlus(h: Hash, t: Table, u: Table, e: Entry, k: nat)
    requires k <= HASH_COUNT && |t| == |u| > 0
    ensures Bumps(h, Plus(t, u), e, k) == Plus(t, Bumps(h, u, e, k))
    decreases k
  {
    if k > 0 {
      BumpsOfPlus(h, t, u, e, k - 1);
      BumpOfPlus(t, Bumps(h, u, e, k - 1), Position(h, e.key, k - 1, |t|), Hit(h, e));
    }
  }

  /** Applying an entry adds its signature. */
  lemma AppliedIsPlus(h: Hash, t: Table, e: Entry)
    requires |t| > 0
    ensures Applied(h, t, e) == Plus(t, Signature(h, |t|, e))
  {
    BumpsOfPlus(h, t, Zero(|t|), e, HASH_COUNT);
    PlusZero(t);
  }

  function Opposite(e: Entry): Entry {
    e.(present := !e.present)
  }

  lemma MinusOfBump(t: Table, p: nat, c: Cell)
    requires p < |t|
    ensures Minus(Bump(t, p, c)) == Bump(Minus(t), p, Neg(c))
  {
    NegOfAdd(t[p], c);
  }

  lemma {:induction false} MinusOfBumps(h: Hash, t: Table, e: Entry, k: nat)
    requires k <= HASH_COUNT && |t| > 0
    ensures Minus(Bumps(h, t, e, k)) == Bumps(h, Minus(t), Opposite(e), k)
    decreases k
  {
    if k > 0 {
      MinusOfBumps(h, t, e, k - 1);
      MinusOfBump(Bumps(h, t, e, k - 1), Position(h, e.key, k - 1, |t|), Hit(h, e));
      assert Neg(Hit(h, e)) == Hit(h, Opposite(e));
    }
  }

  /** Deleting what was inserted, or inserting what was deleted, adds the opposite signature. */
  lemma OppositeSignature(h: Hash, n: nat, e: Entry)
    requires n > 0
    ensures Signature(h, n, Opposite(e)) == Minus(Signature(h, n, e))
  {
    MinusOfBumps(h, Zero(n), e, HASH_COUNT);
    assert Minus(Zero(n)) == Zero(n);
  }

  /** An entry and its opposite cancel, whatever the table and the hash. */
  lemma UndoEntry(h: Hash, t: Table, e: Entry)
    requires |t| > 0
    ensures Applied(h, Applied(h, t, e), Opposite(e)) == t
  {
    var s := Signature(h, |t|, e);
    AppliedIsPlus(h, t, e);
    AppliedIsPlus(h, Plus(t, s), Opposite(e));
    OppositeSignature(h, |t|, e);
    PlusAssociates(t, s, Minus(s));
    PlusMinus(s);
    PlusZero(t);
  }

  // ---------- Sums of entries ----------

  /** The table that a list of entries adds up to. */
  function Sum(h: Hash, n: nat, entries: seq<Entry>): (t: Table)
    requires n > 0
    ensures |t| == n
  {
    if entries == [] then Zero(n)
    else Plus(Sum(h, n, entries[..|entries| - 1]), Signature(h, n, entries[|entries| - 1]))
  }

  lemma SumAppend(h: Hash, n: nat, entries: seq<Entry>, e: Entry)
    requires n > 0
    ensures Sum(h, n, entries + [e]) == Plus(Sum(h, n, entries), Signature(h, n, e))
  {
    assert (entries + [e])[..|entries|] == entries;
  }

  lemma {:induction false} SumConcat(h: Hash, n: nat, a: seq<Entry>, b: seq<Entry>)
    requires n > 0
    ensures Sum(h, n, a + b) == Plus(Sum(h, n, a), Sum(h, n, b))
    decreases |b|
  {
    if b == [] {
      assert a + b == a;
      PlusZero(Sum(h, n, a));
    } else {
      var last := |b| - 1;
      SumConcat(h, n, a, b[..last]);
      assert a + b == (a + b[..last]) + [b[last]];
      SumAppend(h, n, a + b[..last], b[last]);
      PlusAssociates(Sum(h, n, a), Sum(h, n, b[..last]), Signature(h, n, b[last]));
    }
  }

  /** The order of insertions and deletions is irrelevant. */
  lemma {:induction false} OrderIrrelevant(h: Hash, n: nat, a: seq<Entry>, b: seq<Entry>)
    requires n > 0 && multiset(a) == multiset(b)
    ensures Sum(h, n, a) == Sum(h, n, b)
    decreases |a|
  {
    assert |multiset(a)| == |a| && |multiset(b)| == |b|;
    if a != [] {
      var last := |a| - 1;
      var e := a[last];
      assert a == a[..last] + [e];
      assert e in multiset(b);
      var i :| 0 <= i < |b| && b[i] == e;
      var before, after := b[..i], b[i + 1..];
      assert b == (before + [e]) + after;
      assert multiset(a[..last]) == multiset(a) - multiset{e};
      assert multiset(before + after) == multiset(b) - multiset{e};
      OrderIrrelevant(h, n, a[..last], before + after);
      MoveToEnd(h, n, before, e, after);
      SumAppend(h, n, a[..last], e);
    }
  }

  lemma MoveToEnd(h: Hash, n: nat, before: seq<Entry>, e: Entry, after: seq<Entry>)
    requires n > 0
    ensures Sum(h, n, (before + [e]) + after) == Plus(Sum(h, n, before + after), Signature(h, n, e))
  {
    var s := Signature(h, n, e);
    SumConcat(h, n, before + [e], after);
    SumAppend(h, n, before, e);
    SumConcat(h, n, before, after);
    PlusAssociates(Sum(h, n, before), s, Sum(h, n, after));
    PlusCommutes(s, Sum(h, n, after));
    PlusAssociates(Sum(h, n, before), Sum(h, n, after), s);
  }

  /** `self - other`. */
  function Subtract(t: Table, u: Table): (difference: Table)
    requires |t| == |u|
    ensures |difference| == |t|
  {
    Plus(t, Minus(u))
  }

  /** Elements common to both sides leave the difference unchanged, wherever they were inserted. */
  lemma CommonElementsCancel(h: Hash, n: nat, common: seq<Entry>, mine: seq<Entry>, theirs: seq<Entry>,
                             left: seq<Entry>, right: seq<Entry>)
    requires n > 0
    requires multiset(left) == multiset(common + mine) && multiset(right) == multiset(common + theirs)
    ensures Subtract(Sum(h, n, left), Sum(h, n, right)) == Subtract(Sum(h, n, mine), Sum(h, n, theirs))
  {
    OrderIrrelevant(h, n, left, common + mine);
    OrderIrrelevant(h, n, right, common + theirs);
    SumConcat(h, n, common, mine);
    SumConcat(h, n, common, theirs);
    CommonPartCancels(Sum(h, n, common), Sum(h, n, mine), Sum(h, n, theirs));
  }

  lemma CommonPartCancels(c: Table, m: Table, t: Table)
    requires |c| == |m| == |t|
    ensures Subtract(Plus(c, m), Plus(c, t)) == Subtract(m, t)
  {
    var a, b := Minus(c), Minus(t);
    MinusOfPlus(c, t);
    PlusCommutes(c, m);
    PlusAssociates(m, c, Plus(a, b));
    PlusAssociates(c, a, b);
    PlusMinus(c);
    PlusCommutes(Zero(|c|), b);
    PlusZero(b);
  }

  /** The difference of two tables is the sum of what one side holds and the opposite of the other. */
  lemma DifferenceIsSum(h: Hash, n: nat, mine: seq<Entry>, theirs: seq<Entry>)
    requires n > 0
    ensures Subtract(Sum(h, n, mine), Sum(h, n, theirs)) == Sum(h, n, mine + Opposites(theirs))
  {
    SumConcat(h, n, mine, Opposites(theirs));
    SumOfOpposites(h, n, theirs);
  }

  function Opposites(entries: seq<Entry>): (opposites: seq<Entry>)
    ensures |opposites| == |entries|
  {
    if entries == [] then []
    else Opposites(entries[..|entries| - 1]) + [Opposite(entries[|entries| - 1])]
  }

  lemma {:induction false} SumOfOpposites(h: Hash, n: nat, entries: seq<Entry>)
    requires n > 0
    ensures Sum(h, n, Opposites(entries)) == Minus(Sum(h, n, entries))
    decreases |entries|
  {
    if entries == [] {
      assert Minus(Zero(n)) == Zero(n);
    } else {
      var last := |entries| - 1;
      SumOfOpposites(h, n, entries[..last]);
      SumAppend(h, n, Opposites(entries[..last]), Opposite(entries[last]));
      OppositeSignature(h, n, entries[last]);
      MinusOfPlus(Sum(h, n, entries[..last]), Signature(h, n, entries[last]));
    }
  }
}
