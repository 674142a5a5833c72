/**
 What a table holds, cell by cell, and when decoding stops where: the counts say it, and a single
 difference between two sides comes back whole unless its three positions are one.
 */
module IblCells {
  import opened Bytes
  import opened Bits
  import opened IbltGroup
  import opened Ibl

  // ---------- The contents of a cell ----------

  /** Where a key goes under one of the three seeds. */
  function Place(h: Hash, key: Word, n: nat, seed: Word): nat
    requires n > 0
  {
    h(XorWord(key, seed)) % n
  }

  /** How often a key goes to cell `i`. */
  function Landings(h: Hash, key: Word, n: nat, i: nat): nat
    requires n > 0
  {
    (if Place(h, key, n, 0x9e37_79b9_7f4a_7c15) == i then 1 else 0)
    + (if Place(h, key, n, 0xbf58_476d_1ce4_e5b9) == i then 1 else 0)
    + (if Place(h, key, n, 0x94d0_49bb_1331_11eb) == i then 1 else 0)
  }

  /** A cell after `m` hits of an entry: the count moves by `m`, an even number of xors is none. */
  function Landed(h: Hash, c: Cell, e: Entry, m: nat): Cell {
    var odd := m % 2 == 1;
    Cell(if e.present then (c.count + m) % 0x1_0000_0000 else (c.count - m) % 0x1_0000_0000,
         if odd then XorWord(c.keySum, e.key) else c.keySum,
         if odd then XorWord(c.valueSum, e.value) else c.valueSum,
         if odd then XorWord(c.hashSum, h(e.key)) else c.hashSum)
  }

  lemma XorTwice(a: Word, b: Word)
    ensures XorWord(XorWord(a, b), b) == a
  {
    XorAssociates(a, b, b);
    XorSelf(b);
    XorSelf(a);
  }

  lemma CountsAgain(count: Count, m: nat)
    requires m < 3
    ensures AddCount((count + m) % 0x1_0000_0000, 1) == (count + m + 1) % 0x1_0000_0000
    ensures AddCount((count - m) % 0x1_0000_0000, MINUS_ONE) == (count - m - 1) % 0x1_0000_0000
  {
  }

  /** One more hit. */
  lemma LandsAgain(h: Hash, c: Cell, e: Entry, m: nat)
    requires m < 3
    ensures Add(Landed(h, c, e, m), Hit(h, e)) == Landed(h, c, e, m + 1)
  {
    CountsAgain(c.count, m);
    XorTwice(c.keySum, e.key);
    XorTwice(c.valueSum, e.value);
    XorTwice(c.hashSum, h(e.key));
  }

  /** How many of the first `k` hits fall on a cell. */
  function Hits(h: Hash, key: Word, n: nat, i: nat, k: nat): (m: nat)
    requires n > 0 && k <= HASH_COUNT
    ensures m <= k
  {
    if k == 0 then 0 else Hits(h, key, n, i, k - 1) + (if Position(h, key, k - 1, n) == i then 1 else 0)
  }

  lemma HitsAreLandings(h: Hash, key: Word, n: nat, i: nat)
    requires n > 0
    ensures Hits(h, key, n, i, 3) == Landings(h, key, n, i)
  {
    assert Hits(h, key, n, i, 1) == Hits(h, key, n, i, 0) + (if Position(h, key, 0, n) == i then 1 else 0);
    assert Hits(h, key, n, i, 2) == Hits(h, key, n, i, 1) + (if Position(h, key, 1, n) == i then 1 else 0);
  }

  lemma {:induction false} CellAfterHits(h: Hash, t: Table, e: Entry, i: nat, k: nat)
    requires i < |t| && k <= HASH_COUNT
    ensures Bumps(h, t, e, k)[i] == Landed(h, t[i], e, Hits(h, e.key, |t|, i, k))
    decreases k
  {
    if k > 0 {
      CellAfterHits(h, t, e, i, k - 1);
      if Position(h, e.key, k - 1, |t|) == i {
        LandsAgain(h, t[i], e, Hits(h, e.key, |t|, i, k - 1));
      }
    }
  }

  /** Inserting or deleting an entry changes each cell by its landings there. */
  lemma CellAfter(h: Hash, t: Table, e: Entry, i: nat)
    requires i < |t|
    ensures Applied(h, t, e)[i] == Landed(h, t[i], e, Landings(h, e.key, |t|, i))
  {
    CellAfterHits(h, t, e, i, 3);
    HitsAreLandings(h, e.key, |t|, i);
  }

  /** A list of entries, one by one: nothing is zeros, and one more entry lands on what is there. */
  lemma CellOfSum(h: Hash, n: nat, entries: seq<Entry>, e: Entry, i: nat)
    requires i < n
    ensures Sum(h, n, [])[i] == Cell(0, 0, 0, 0)
    ensures Sum(h, n, entries + [e])[i] == Landed(h, Sum(h, n, entries)[i], e, Landings(h, e.key, n, i))
  {
    SumAppend(h, n, entries, e);
    AppliedIsPlus(h, Sum(h, n, entries), e);
    CellAfter(h, Sum(h, n, entries), e, i);
  }

  // ---------- Where decoding stops ----------

  /** A count of one or of minus one. */
  predicate Single(c: Cell) {
    c.count == 1 || c.count == 0xffff_ffff
  }

  /**
   How decoding ends, by what is left: done when every count is zero, incomplete when no count is one
   or minus one and some count is not zero, and otherwise only at a lowest single cell that does not
   hash, or with all fuel used.
   */
  lemma StopsByCounts(h: Hash, t: Table, fuel: nat, steps: nat, left: Table, r: Result<seq<Entry>>)
    requires |t| > 0 && EndsAt(h, t, fuel, steps, r) && left == Peel(h, t, steps).table
    ensures r.Ok? <==> forall i :: 0 <= i < |left| ==> left[i].count == 0
    ensures r == Err(DecodeIncomplete) <==>
      (forall i :: 0 <= i < |left| ==> !Single(left[i])) && exists i :: 0 <= i < |left| && left[i].count != 0
    ensures r == Err(HashMismatch) <==>
      exists p :: 0 <= p < |left| && Single(left[p]) && h(left[p].keySum) != left[p].hashSum
                  && forall i :: 0 <= i < p ==> !Single(left[i])
    ensures r == Err(OutOfFuel) ==> steps == fuel
  {
    LowestPure(left, 0);
  }

  lemma {:induction false} LowestPure(t: Table, start: nat)
    requires start <= |t|
    ensures match FirstPure(t, start)
      case Some(p) => Single(t[p]) && forall i :: start <= i < p ==> !Single(t[i])
      case None => forall i :: start <= i < |t| ==> !Single(t[i])
    decreases |t| - start
  {
    if start < |t| {
      LowestPure(t, start + 1);
    }
  }

  /** A step records what the lowest single cell holds, with its sign, if the hash of its key is its hash sum. */
  lemma PeelsLowest(h: Hash, t: Table, steps: nat, before: Peeled, p: nat)
    requires |t| > 0 && before == Peel(h, t, steps) && p < |t| && Single(before.table[p])
    requires forall i :: 0 <= i < p ==> !Single(before.table[i])
    ensures var c := before.table[p];
      Peel(h, t, steps + 1).entries ==
        if h(c.keySum) == c.hashSum then before.entries + [Entry(c.keySum, c.valueSum, c.count == 1)]
        else before.entries
  {
    LowestPure(before.table, 0);
    assert Peel(h, t, steps + 1) == After(h, before);
  }

  // ---------- A single difference ----------

  /** All three seeds send the key to one cell. */
  predicate OnePlace(h: Hash, key: Word, n: nat)
    requires n > 0
  {
    Place(h, key, n, 0x9e37_79b9_7f4a_7c15) == Place(h, key, n, 0xbf58_476d_1ce4_e5b9)
      == Place(h, key, n, 0x94d0_49bb_1331_11eb)
  }

  /** The only entry of a table: single cells are those it hits once, and they show it. */
  lemma LoneCell(h: Hash, n: nat, e: Entry, i: nat)
    requires i < n
    ensures var c, m := Signature(h, n, e)[i], Landings(h, e.key, n, i);
      && (Single(c) <==> m == 1)
      && (m == 1 ==> c == Cell(if e.present then 1 else 0xffff_ffff, e.key, e.value, h(e.key)))
      && (m == 3 ==> c.count != 0)
  {
    CellAfter(h, Zero(n), e, i);
    XorCommutes(0, e.key);
    XorCommutes(0, e.value);
    XorCommutes(0, h(e.key));
    XorSelf(e.key);
    XorSelf(e.value);
    XorSelf(h(e.key));
  }

  /** A cell that is hit exactly once, unless all three hits are on one cell. */
  lemma OnceSomewhere(h: Hash, key: Word, n: nat) returns (i: nat)
    requires n > 0
    ensures i < n
    ensures if OnePlace(h, key, n) then Landings(h, key, n, i) == 3 else Landings(h, key, n, i) == 1
    ensures OnePlace(h, key, n) ==> forall j :: 0 <= j < n && j != i ==> Landings(h, key, n, j) == 0
  {
    var a, b := Place(h, key, n, 0x9e37_79b9_7f4a_7c15), Place(h, key, n, 0xbf58_476d_1ce4_e5b9);
    var c := Place(h, key, n, 0x94d0_49bb_1331_11eb);
    i := if a == b then c else if a == c then b else a;
  }

  /** Decoding a table of one entry: the entry, after one step; nothing, if it hits a single cell three times. */
  lemma LoneEntry(h: Hash, n: nat, e: Entry, fuel: nat)
    requires n > 0 && fuel > 0
    ensures if OnePlace(h, e.key, n) then EndsAt(h, Signature(h, n, e), fuel, 0, Err(DecodeIncomplete))
            else EndsAt(h, Signature(h, n, e), fuel, 1, Ok([e]))
  {
    var t := Signature(h, n, e);
    var i := OnceSomewhere(h, e.key, n);
    LoneCell(h, n, e, i);
    LowestPure(t, 0);
    if OnePlace(h, e.key, n) {
      forall j | 0 <= j < n ensures !Single(t[j]) {
        LoneCell(h, n, e, j);
      }
    } else {
      LoneEntryPeels(h, n, e, t, FirstPure(t, 0).value);
      NothingLeft(h, t, e, fuel, 1, Zero(n));
    }
  }

  lemma LoneEntryPeels(h: Hash, n: nat, e: Entry, t: Table, p: nat)
    requires n > 0 && t == Signature(h, n, e) && FirstPure(t, 0) == Some(p)
    ensures Peel(h, t, 1) == Peeled(Zero(n), [e])
  {
    LoneCell(h, n, e, p);
    assert NextEntry(h, t) == Some(e);
    UndoEntry(h, Zero(n), e);
    assert Peel(h, t, 0) == Peeled(t, []);
    assert Peel(h, t, 1) == After(h, Peel(h, t, 0));
    assert [] + [e] == [e];
  }

  lemma NothingLeft(h: Hash, t: Table, e: Entry, fuel: nat, steps: nat, left: Table)
    requires |t| > 0 && steps <= fuel && left == Zero(|t|) && Peel(h, t, steps) == Peeled(left, [e])
    ensures EndsAt(h, t, fuel, steps, Ok([e]))
  {
    NonePure(left, 0);
  }

  lemma {:induction false} NonePure(t: Table, start: nat)
    requires start <= |t| && t == Zero(|t|)
    ensures FirstPure(t, start) == None && CountsZero(t)
    decreases |t| - start
  {
    if start < |t| {
      NonePure(t, start + 1);
    }
  }

  /**
   Two sides that share everything but one entry, inserted in any order: the difference decodes to
   that entry, with its side, exactly when its three positions are not one.
   */
  lemma OneDifference(h: Hash, n: nat, common: seq<Entry>, left: seq<Entry>, right: seq<Entry>, e: Entry, fuel: nat)
    requires n > 0 && fuel > 0
    requires multiset(left) == multiset(if e.present then common + [e] else common)
    requires multiset(right) == multiset(if e.present then common else common + [Opposite(e)])
    ensures Decodes(h, Subtract(Sum(h, n, left), Sum(h, n, right)), fuel, Ok([e])) <==> !OnePlace(h, e.key, n)
  {
    DifferenceIsEntry(h, n, common, left, right, e);
    LoneEntry(h, n, e, fuel);
    var t := Signature(h, n, e);
    if Decodes(h, t, fuel, Ok([e])) && OnePlace(h, e.key, n) {
      var steps: nat :| EndsAt(h, t, fuel, steps, Ok([e]));
      OneOutcome(h, t, fuel, 0, steps, Err(DecodeIncomplete), Ok([e]));
    }
  }

  lemma DifferenceIsEntry(h: Hash, n: nat, common: seq<Entry>, left: seq<Entry>, right: seq<Entry>, e: Entry)
    requires n > 0
    requires multiset(left) == multiset(if e.present then common + [e] else common)
    requires multiset(right) == multiset(if e.present then common else common + [Opposite(e)])
    ensures Subtract(Sum(h, n, left), Sum(h, n, right)) == Signature(h, n, e)
  {
    var mine: seq<Entry>, theirs: seq<Entry> := if e.present then [e] else [], if e.present then [] else [Opposite(e)];
    assert common + [] == common;
    CommonElementsCancel(h, n, common, mine, theirs, left, right);
    DifferenceIsSum(h, n, mine, theirs);
    assert Opposite(Opposite(e)) == e;
    assert mine + Opposites(theirs) == [e];
    OneEntry(h, n, e);
  }
}
