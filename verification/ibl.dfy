/** The table in place, and peeling: what is peeled and what is left always add up to the original. */
module Ibl {
  import opened Bytes
  import opened IbltGroup

  datatype IbltError = SizeMismatch | HashMismatch | DecodeIncomplete | OutOfFuel
  datatype Result<+T> = Ok(value: T) | Err(error: IbltError)

  // ---------- Peeling ----------

  predicate Pure(c: Cell) {
    c.count == 1 || c.count == MINUS_ONE
  }

  /** The first cell that holds one entry. */
  function FirstPure(t: Table, start: nat): (p: Option<nat>)
    requires start <= |t|
    ensures p.Some? ==> start <= p.value < |t| && Pure(t[p.value])
    ensures p == None ==> forall i :: start <= i < |t| ==> !Pure(t[i])
    decreases |t| - start
  {
    if start == |t| then None
    else if Pure(t[start]) then Some(start)
    else FirstPure(t, start + 1)
  }

  /** The entry a pure cell claims to hold. */
  function Claimed(c: Cell): Entry {
    Entry(c.keySum, c.valueSum, c.count == 1)
  }

  /** One step: the first pure cell's entry is recorded and taken out again. */
  datatype Peeled = Peeled(table: Table, entries: seq<Entry>)

  /** Up to `steps` steps of peeling; it stops where no pure cell is left, or one whose hash does not verify. */
  function Peel(h: Hash, t: Table, steps: nat): (p: Peeled)
    requires |t| > 0
    ensures |p.table| == |t|
  {
    if steps == 0 then Peeled(t, []) else After(h, Peel(h, t, steps - 1))
  }

  /** A state after one step, or the same state when no step is possible. */
  function After(h: Hash, before: Peeled): (p: Peeled)
    requires |before.table| > 0
    ensures |p.table| == |before.table|
  {
    match NextEntry(h, before.table)
    case None => before
    case Some(e) => Peeled(Applied(h, before.table, Opposite(e)), before.entries + [e])
  }

  function NextEntry(h: Hash, t: Table): Option<Entry> {
    match FirstPure(t, 0)
    case None => None
    case Some(p) => if h(t[p].keySum) == t[p].hashSum then Some(Claimed(t[p])) else None
  }

  predicate Conserves(h: Hash, t: Table, p: Peeled)
    requires |t| == |p.table| > 0
  {
    Plus(p.table, Sum(h, |t|, p.entries)) == t
  }

  /** After every step the original table is the residual plus the sum of the entries peeled off. */
  lemma {:induction false} PeelConserves(h: Hash, t: Table, steps: nat)
    requires |t| > 0
    ensures Conserves(h, t, Peel(h, t, steps))
  {
    if steps == 0 {
      PlusZero(t);
    } else {
      PeelConserves(h, t, steps - 1);
      PeelOnce(h, t, steps - 1, Peel(h, t, steps - 1));
    }
  }

  lemma PeelOnce(h: Hash, t: Table, steps: nat, before: Peeled)
    requires |t| > 0 && before == Peel(h, t, steps) && Conserves(h, t, before)
    ensures Conserves(h, t, Peel(h, t, steps + 1))
  {
    var next := NextEntry(h, before.table);
    if next.Some? {
      StepConserves(h, before.table, before.entries, next.value, t);
    }
  }

  /** Moving an entry from the table to the list of entries leaves their sum alone. */
  lemma StepConserves(h: Hash, t: Table, entries: seq<Entry>, e: Entry, original: Table)
    requires |t| == |original| > 0 && Plus(t, Sum(h, |t|, entries)) == original
    ensures Plus(Applied(h, t, Opposite(e)), Sum(h, |t|, entries + [e])) == original
  {
    var sum, s := Sum(h, |t|, entries), Signature(h, |t|, e);
    AppliedIsPlus(h, t, Opposite(e));
    OppositeSignature(h, |t|, e);
    SumAppend(h, |t|, entries, e);
    MoveAcross(t, sum, s);
  }

  lemma MoveAcross(t: Table, sum: Table, s: Table)
    requires |t| == |sum| == |s|
    ensures Plus(Plus(t, Minus(s)), Plus(sum, s)) == Plus(t, sum)
  {
    PlusAssociates(t, Minus(s), Plus(sum, s));
    PlusCommutes(sum, s);
    PlusAssociates(Minus(s), s, sum);
    PlusCommutes(Minus(s), s);
    PlusMinus(s);
    PlusCommutes(Zero(|t|), sum);
    PlusZero(sum);
  }

  /** `is_empty` looks at counts only. */
  predicate CountsZero(t: Table) {
    forall i :: 0 <= i < |t| ==> t[i].count == 0
  }

  /**
   Whether decoding stops at a table, and how: no pure cell is left, a hash does not verify, or the
   steps are used up.
   */
  function StopAt(h: Hash, t: Table, entries: seq<Entry>, exhausted: bool): Option<Result<seq<Entry>>> {
    match FirstPure(t, 0)
    case None => Some(if CountsZero(t) then Ok(entries) else Err(DecodeIncomplete))
    case Some(p) =>
      if h(t[p].keySum) != t[p].hashSum then Some(Err(HashMismatch))
      else if exhausted then Some(Err(OutOfFuel))
      else None
  }

  /** Decoding ends with `r` after so many steps. */
  predicate EndsAt(h: Hash, t: Table, fuel: nat, steps: nat, r: Result<seq<Entry>>)
    requires |t| > 0
  {
    var run := Peel(h, t, steps);
    steps <= fuel && StopAt(h, run.table, run.entries, steps == fuel) == Some(r)
  }

  ghost predicate Decodes(h: Hash, t: Table, fuel: nat, r: Result<seq<Entry>>)
    requires |t| > 0
  {
    exists steps: nat :: EndsAt(h, t, fuel, steps, r)
  }

  /** A run that has stopped on its own stays where it is. */
  lemma {:induction false} Stays(h: Hash, t: Table, i: nat, j: nat)
    requires |t| > 0 && i <= j && NextEntry(h, Peel(h, t, i).table) == None
    ensures Peel(h, t, j) == Peel(h, t, i)
    decreases j
  {
    if i < j {
      Stays(h, t, i, j - 1);
    }
  }

  /** Decoding has one outcome. */
  lemma OneOutcome(h: Hash, t: Table, fuel: nat, i: nat, j: nat, r: Result<seq<Entry>>, s: Result<seq<Entry>>)
    requires |t| > 0 && i <= j && EndsAt(h, t, fuel, i, r) && EndsAt(h, t, fuel, j, s)
    ensures r == s
  {
    if i < j {
      Stays(h, t, i, j);
    }
  }

  // ---------- The table ----------

  class Iblt {
    const h: Hash
    const cells: array<Cell>

    ghost predicate Valid() {
      cells.Length > 0
    }

    /** An empty table; it has at least one cell. */
    constructor (h: Hash, numCells: nat)
      ensures Valid() && fresh(cells) && this.h == h && cells[..] == Zero(if numCells > 0 then numCells else 1)
    {
      this.h := h;
      cells := new Cell[if numCells > 0 then numCells else 1](_ => ZERO_CELL);
    }

    /** Hits the three positions of a key, one after the other: they may coincide. */
    method Apply(e: Entry)
      requires Valid()
      modifies cells
      ensures cells[..] == Applied(h, old(cells[..]), e)
    {
      ghost var was := cells[..];
      for k := 0 to HASH_COUNT
        invariant cells[..] == Bumps(h, was, e, k)
      {
        var p := Position(h, e.key, k, cells.Length);
        cells[p] := Add(cells[p], Hit(h, e));
      }
    }

    method Insert(key: Word, value: Word)
      requires Valid()
      modifies cells
      ensures cells[..] == Applied(h, old(cells[..]), Entry(key, value, true))
    {
      Apply(Entry(key, value, true));
    }

    method Delete(key: Word, value: Word)
      requires Valid()
      modifies cells
      ensures cells[..] == Applied(h, old(cells[..]), Entry(key, value, false))
    {
      Apply(Entry(key, value, false));
    }

    method SubtractTable(other: Iblt) returns (r: Result<()>)
      requires Valid() && other.Valid() && other.cells != cells
      modifies cells
      ensures r.Ok? <==> cells.Length == other.cells.Length
      ensures r.Ok? ==> cells[..] == Subtract(old(cells[..]), other.cells[..])
      ensures r.Err? ==> r.error == SizeMismatch && cells[..] == old(cells[..])
    {
      if cells.Length != other.cells.Length {
        return Err(SizeMismatch);
      }
      ghost var was, whole := cells[..], Subtract(cells[..], other.cells[..]);
      for i := 0 to cells.Length
        invariant cells[..i] == whole[..i] && cells[i..] == was[i..]
      {
        assert cells[i] == was[i];
        cells[i] := Add(cells[i], Neg(other.cells[i]));
        assert cells[..i + 1] == cells[..i] + [cells[i]];
        assert whole[..i + 1] == whole[..i] + [whole[i]];
      }
      assert cells[..] == cells[..cells.Length] && whole == whole[..cells.Length];
      return Ok(());
    }

    /** Whether every count is zero. */
    method IsEmpty() returns (empty: bool)
      ensures empty <==> CountsZero(cells[..])
    {
      for i := 0 to cells.Length
        invariant forall j :: 0 <= j < i ==> cells[j].count == 0
      {
        if cells[i].count != 0 {
          assert cells[..][i].count != 0;
          return false;
        }
      }
      return true;
    }

    /** The first pure cell. */
    method FindPure() returns (p: Option<nat>)
      ensures p == FirstPure(cells[..], 0)
    {
      for i := 0 to cells.Length
        invariant FirstPure(cells[..], 0) == FirstPure(cells[..], i)
      {
        if Pure(cells[i]) {
          return Some(i);
        }
      }
      return None;
    }

    /** Takes the entry of a pure cell out again, and returns it. */
    method PeelAt(p: nat) returns (e: Entry)
      requires Valid() && p < cells.Length && Pure(cells[p])
      modifies cells
      ensures e == Claimed(old(cells[p])) && cells[..] == Applied(h, old(cells[..]), Opposite(e))
    {
      var cell := cells[p];
      e := Claimed(cell);
      if cell.count == 1 {
        Delete(cell.keySum, cell.valueSum);
      } else {
        Insert(cell.keySum, cell.valueSum);
      }
    }

    method Clone() returns (copy: Iblt)
      requires Valid()
      ensures fresh(copy) && fresh(copy.cells) && copy.Valid() && copy.h == h && copy.cells[..] == cells[..]
    {
      copy := new Iblt(h, cells.Length);
      forall i | 0 <= i < cells.Length {
        copy.cells[i] := cells[i];
      }
    }

    /** One step of decoding: stops, or takes the entry of the first pure cell out. */
    method Step(entries: seq<Entry>, exhausted: bool) returns (stop: Option<Result<seq<Entry>>>, more: seq<Entry>)
      requires Valid()
      modifies cells
      ensures stop == StopAt(h, old(cells[..]), entries, exhausted)
      ensures stop.Some? ==> cells[..] == old(cells[..])
      ensures stop.None? ==> Peeled(cells[..], more) == After(h, Peeled(old(cells[..]), entries))
    {
      more := entries;
      var position := FindPure();
      if position == None {
        var empty := IsEmpty();
        stop := Some(if empty then Ok(entries) else Err(DecodeIncomplete));
        return;
      }
      var cell := cells[position.value];
      if h(cell.keySum) != cell.hashSum {
        stop := Some(Err(HashMismatch));
        return;
      }
      if exhausted {
        stop := Some(Err(OutOfFuel));
        return;
      }
      stop := None;
      var e := PeelAt(position.value);
      more := entries + [e];
    }

    /** Peels the table itself, at most `fuel` times. */
    method Drain(fuel: nat) returns (r: Result<seq<Entry>>, ghost steps: nat)
      requires Valid()
      modifies cells
      ensures EndsAt(h, old(cells[..]), fuel, steps, r) && cells[..] == Peel(h, old(cells[..]), steps).table
    {
      ghost var t := cells[..];
      var entries: seq<Entry>, used: nat := [], 0;
      steps := 0;
      while true
        invariant steps == used <= fuel && Peel(h, t, steps) == Peeled(cells[..], entries)
        decreases fuel - used
      {
        var stop, more := Step(entries, used == fuel);
        if stop.Some? {
          return stop.value, steps;
        }
        entries, used, steps := more, used + 1, steps + 1;
      }
    }

    /**
     Peels a copy of the table: what is peeled and what is left is a run of peeling steps. On success
     the entries account for the table exactly when nothing is left of it.
     */
    method Decode(fuel: nat) returns (r: Result<seq<Entry>>, left: Iblt, ghost steps: nat)
      requires Valid()
      ensures fresh(left) && fresh(left.cells) && cells[..] == old(cells[..])
      ensures EndsAt(h, cells[..], fuel, steps, r) && left.cells[..] == Peel(h, cells[..], steps).table
      ensures r.Ok? ==> (Sum(h, cells.Length, r.value) == cells[..] <==> left.cells[..] == Zero(cells.Length))
    {
      left := Clone();
      r, steps := left.Drain(fuel);
      DecodedAccounts(h, cells[..], steps);
    }
  }

  /** Inserts a list of pairs into a fresh table: the table of their sum. */
  method EncodeSet(h: Hash, entries: seq<Entry>, numCells: nat) returns (table: Iblt)
    requires forall i :: 0 <= i < |entries| ==> entries[i].present
    ensures fresh(table) && fresh(table.cells) && table.Valid() && table.h == h
    ensures var n := if numCells > 0 then numCells else 1; table.cells[..] == Sum(h, n, entries)
  {
    table := new Iblt(h, numCells);
    ghost var n := table.cells.Length;
    assert entries[..0] == [];
    for i := 0 to |entries|
      invariant fresh(table) && fresh(table.cells) && table.Valid() && table.h == h && table.cells.Length == n
      invariant table.cells[..] == Sum(h, n, entries[..i])
    {
      AppliedIsPlus(h, table.cells[..], entries[i]);
      assert entries[..i + 1] == entries[..i] + [entries[i]];
      SumAppend(h, n, entries[..i], entries[i]);
      table.Insert(entries[i].key, entries[i].value);
    }
    assert entries[..|entries|] == entries;
  }

  /** Subtracts a copy and decodes the difference: a wrong size is reported, and otherwise its one outcome. */
  method Reconcile(mine: Iblt, theirs: Iblt, fuel: nat) returns (r: Result<seq<Entry>>)
    requires mine.Valid() && theirs.Valid()
    ensures mine.cells.Length != theirs.cells.Length ==> r == Err(SizeMismatch)
    ensures mine.cells.Length == theirs.cells.Length ==>
      Decodes(mine.h, Subtract(mine.cells[..], theirs.cells[..]), fuel, r)
  {
    var difference := mine.Clone();
    var subtracted := difference.SubtractTable(theirs);
    if subtracted.Err? {
      return Err(subtracted.error);
    }
    var left: Iblt;
    ghost var steps;
    r, left, steps := difference.Decode(fuel);
  }

  /**
   Reconciling two sets with any common part, inserted in any order: after every step, what is
   peeled and what is left add up to the elements of one side minus those of the other.
   */
  lemma ReconcileConserves(h: Hash, n: nat, common: seq<Entry>, mine: seq<Entry>, theirs: seq<Entry>,
                           left: seq<Entry>, right: seq<Entry>, steps: nat)
    requires n > 0
    requires multiset(left) == multiset(common + mine) && multiset(right) == multiset(common + theirs)
    ensures var p := Peel(h, Subtract(Sum(h, n, left), Sum(h, n, right)), steps);
      Plus(p.table, Sum(h, n, p.entries)) == Sum(h, n, mine + Opposites(theirs))
  {
    PeelConserves(h, Subtract(Sum(h, n, left), Sum(h, n, right)), steps);
    CommonElementsCancel(h, n, common, mine, theirs, left, right);
    DifferenceIsSum(h, n, mine, theirs);
  }

  // ---------- What success means ----------

  /**
   Entries account for a table exactly when nothing at all is left, not merely no counts: success
   alone does not say so.
   */
  lemma AccountsIffNothingLeft(h: Hash, t: Table, left: Table, entries: seq<Entry>)
    requires |t| == |left| > 0 && Plus(left, Sum(h, |t|, entries)) == t
    ensures Sum(h, |t|, entries) == t <==> left == Zero(|t|)
  {
    var sum := Sum(h, |t|, entries);
    PlusCommutes(Zero(|t|), sum);
    PlusZero(sum);
    if sum == t {
      Cancel(left, Zero(|t|), sum);
    }
  }

  /** Of a run that ends well: its entries are the table's exactly when the residual is all zero. */
  lemma DecodedAccounts(h: Hash, t: Table, steps: nat)
    requires |t| > 0
    ensures var run := Peel(h, t, steps); Sum(h, |t|, run.entries) == t <==> run.table == Zero(|t|)
  {
    PeelConserves(h, t, steps);
    AccountsIffNothingLeft(h, t, Peel(h, t, steps).table, Peel(h, t, steps).entries);
  }

  /** Two sides that hold different values for one key: every count is zero, so the difference decodes to nothing. */
  lemma DifferentValuesGoUnseen(h: Hash, n: nat, key: Word, a: Word, b: Word)
    requires n > 0 && a != b
    ensures var difference := Subtract(Sum(h, n, [Entry(key, a, true)]), Sum(h, n, [Entry(key, b, true)]));
      CountsZero(difference) && FirstPure(difference, 0) == None
  {
    var mine, theirs := Entry(key, a, true), Entry(key, b, true);
    OneEntry(h, n, mine);
    OneEntry(h, n, theirs);
    SameCounts(h, Zero(n), Zero(n), mine, theirs, HASH_COUNT);
    var difference := Subtract(Sum(h, n, [mine]), Sum(h, n, [theirs]));
    forall i | 0 <= i < n ensures difference[i].count == 0 {
      CountLaws(Sum(h, n, [mine])[i].count, 0, 0);
    }
  }

  lemma OneEntry(h: Hash, n: nat, e: Entry)
    requires n > 0
    ensures Sum(h, n, [e]) == Signature(h, n, e)
  {
    assert [] + [e] == [e];
    SumAppend(h, n, [], e);
    PlusCommutes(Zero(n), Signature(h, n, e));
    PlusZero(Signature(h, n, e));
  }

  /** Counts depend on the key alone. */
  lemma {:induction false} SameCounts(h: Hash, t: Table, u: Table, e: Entry, f: Entry, k: nat)
    requires |t| == |u| > 0 && k <= HASH_COUNT && e.key == f.key && e.present == f.present
    requires forall i :: 0 <= i < |t| ==> t[i].count == u[i].count
    ensures forall i :: 0 <= i < |t| ==> Bumps(h, t, e, k)[i].count == Bumps(h, u, f, k)[i].count
    decreases k
  {
    if k > 0 {
      SameCounts(h, t, u, e, f, k - 1);
    }
  }
}
