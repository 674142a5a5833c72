/**
 The proof plan: which nodes of each level a leaf range covers, and which sibling hashes a
 verifier needs. It is a pure function of the range and the height, computed by both sides.
 */
module MerklePlan {
  import opened Bytes

  datatype LevelPlan = LevelPlan(covered: seq<nat>, siblings: seq<nat>)

  /** `(lo..=hi).collect()`. */
  function Range(lo: nat, hi: nat): (range: seq<nat>)
    requires lo <= hi + 1
    ensures |range| == hi + 1 - lo
  {
    seq(hi + 1 - lo, i requires 0 <= i => lo + i)
  }

  /** Nodes outside `lo..=hi` whose partner is inside, in ascending order. */
  function Siblings(lo: nat, hi: nat): seq<nat> {
    (if lo % 2 == 1 then [lo - 1] else []) + (if hi % 2 == 0 then [hi + 1] else [])
  }

  /** The plan of a contiguous leaf range, level by level from the leaves. */
  function Plan(first: nat, last: nat, height: nat): (plans: seq<LevelPlan>)
    requires first <= last
    ensures |plans| == height
  {
    if height == 0 then []
    else [LevelPlan(Range(first, last), Siblings(first, last))] + Plan(first / 2, last / 2, height - 1)
  }

  // ---------- sort_unstable and dedup ----------

  function Insert(x: nat, sorted: seq<nat>): seq<nat> {
    if sorted == [] || x <= sorted[0] then [x] + sorted else [sorted[0]] + Insert(x, sorted[1..])
  }

  function Sort(s: seq<nat>): seq<nat> {
    if s == [] then [] else Insert(s[0], Sort(s[1..]))
  }

  /** Removes consecutive repeats. */
  function Dedup(s: seq<nat>): seq<nat> {
    if |s| <= 1 then s
    else if s[0] == s[1] then Dedup(s[1..])
    else [s[0]] + Dedup(s[1..])
  }

  predicate Ascending(s: seq<nat>) {
    forall i, j :: 0 <= i < j < |s| ==> s[i] <= s[j]
  }

  lemma {:induction false} SortOfAscending(s: seq<nat>)
    requires Ascending(s)
    ensures Sort(s) == s
  {
    if s != [] {
      SortOfAscending(s[1..]);
      assert s == [s[0]] + s[1..];
    }
  }

  function Halves(s: seq<nat>): seq<nat> {
    seq(|s|, i requires 0 <= i < |s| => s[i] / 2)
  }

  /** The parents of a contiguous range, sorted and deduplicated, are again a contiguous range. */
  lemma ParentsOfRange(lo: nat, hi: nat)
    requires lo <= hi
    ensures Dedup(Sort(Halves(Range(lo, hi)))) == Range(lo / 2, hi / 2)
  {
    SortOfAscending(Halves(Range(lo, hi)));
    DedupHalves(lo, hi);
  }

  lemma {:induction false} DedupHalves(lo: nat, hi: nat)
    requires lo <= hi
    ensures Dedup(Halves(Range(lo, hi))) == Range(lo / 2, hi / 2)
    decreases hi - lo
  {
    var s := Halves(Range(lo, hi));
    if lo < hi {
      DedupHalves(lo + 1, hi);
      assert s[1..] == Halves(Range(lo + 1, hi));
      if lo % 2 == 1 {
        assert Range(lo / 2, hi / 2) == [lo / 2] + Range((lo + 1) / 2, hi / 2);
      }
    }
  }

  // ---------- compute_plan ----------

  method ComputePlan(first: nat, last: nat, height: nat) returns (plans: seq<LevelPlan>)
    requires first <= last
    ensures plans == Plan(first, last, height)
  {
    plans := [];
    var covered := Range(first, last);
    ghost var lo, hi := first, last;
    var level := 0;
    while level < height
      invariant level <= height && lo <= hi
      invariant covered == Range(lo, hi)
      invariant plans + Plan(lo, hi, height - level) == Plan(first, last, height)
    {
      var siblings := LevelSiblings(covered, lo, hi);
      plans := plans + [LevelPlan(covered, siblings)];
      ParentsOfRange(lo, hi);
      covered := Dedup(Sort(Halves(covered)));
      lo, hi := lo / 2, hi / 2;
      level := level + 1;
    }
  }

  /** The inner loop: a covered node contributes its partner unless that is covered too. */
  method LevelSiblings(covered: seq<nat>, ghost lo: nat, ghost hi: nat) returns (siblings: seq<nat>)
    requires lo <= hi && covered == Range(lo, hi)
    ensures siblings == Siblings(lo, hi)
  {
    siblings := [];
    var position := 0;
    while position < |covered|
      invariant position <= |covered|
      invariant siblings == (if position > 0 && lo % 2 == 1 then [lo - 1] else [])
                          + (if position == |covered| && hi % 2 == 0 then [hi + 1] else [])
    {
      var index := covered[position];
      if index % 2 == 1 {
        var hasLeftNeighbour := position > 0 && covered[position - 1] == index - 1;
        if !hasLeftNeighbour {
          siblings := siblings + [index - 1];
        }
      } else {
        var hasRightNeighbour := position + 1 < |covered| && covered[position + 1] == index + 1;
        if !hasRightNeighbour {
          siblings := siblings + [index + 1];
        }
      }
      position := position + 1;
    }
  }

  // ---------- What a plan means ----------

  function Total(plans: seq<LevelPlan>): nat {
    if plans == [] then 0 else |plans[0].siblings| + Total(plans[1..])
  }

  /**
   At level `l` a plan covers the contiguous range of nodes above the leaf range, adds at most
   two siblings, the left one first, each outside the range, inside the tree and the partner of a covered node, and
   together with them holds exactly the children of the nodes covered one level up.
   */
  lemma PlanShape(first: nat, last: nat, height: nat, l: nat)
    requires first <= last < Pow2(height) && l < height
    ensures var plan, lo, hi := Plan(first, last, height)[l], Shr(first, l), Shr(last, l);
            && lo <= hi < Pow2(height - l)
            && plan.covered == Range(lo, hi)
            && (|plan.siblings| < 2 || (lo > 0 && plan.siblings == [lo - 1, hi + 1]))
            && (forall s :: s in plan.siblings ==>
                  s < Pow2(height - l) && s !in plan.covered && (s + 1 in plan.covered || s - 1 in plan.covered))
            && (forall node: nat :: node in plan.covered || node in plan.siblings <==>
                  lo / 2 <= node / 2 <= hi / 2)
  {
    PlanLevel(first, last, height, l);
    ShrBound(last, height, l);
    LevelShape(Shr(first, l), Shr(last, l));
    assert Pow2(height - l) == 2 * Pow2(height - l - 1);
  }

  lemma LevelShape(lo: nat, hi: nat)
    requires lo <= hi
    ensures forall node: nat :: node in Range(lo, hi) <==> lo <= node <= hi
    ensures forall s :: s in Siblings(lo, hi) ==>
              s <= hi + 1 && (s == hi + 1 ==> hi % 2 == 0) &&
              s !in Range(lo, hi) && (s + 1 in Range(lo, hi) || s - 1 in Range(lo, hi))
    ensures |Siblings(lo, hi)| < 2 || (lo > 0 && Siblings(lo, hi) == [lo - 1, hi + 1])
    ensures forall node: nat :: node in Range(lo, hi) || node in Siblings(lo, hi) <==>
              lo / 2 <= node / 2 <= hi / 2
  {
    forall node: nat ensures node in Range(lo, hi) <==> lo <= node <= hi {
      if lo <= node <= hi {
        assert Range(lo, hi)[node - lo] == node;
      }
    }
  }

  /** In all a plan needs at most two hashes per level. */
  lemma {:induction false} TotalBound(first: nat, last: nat, height: nat)
    requires first <= last
    ensures Total(Plan(first, last, height)) <= 2 * height
  {
    if height > 0 {
      TotalBound(first / 2, last / 2, height - 1);
      assert Plan(first, last, height)[1..] == Plan(first / 2, last / 2, height - 1);
    }
  }

  lemma {:induction false} PlanLevel(first: nat, last: nat, height: nat, l: nat)
    requires first <= last && l < height
    ensures Shr(first, l) <= Shr(last, l)
    ensures Plan(first, last, height)[l]
         == LevelPlan(Range(Shr(first, l), Shr(last, l)), Siblings(Shr(first, l), Shr(last, l)))
    decreases l
  {
    ShrMonotone(first, last, l);
    if l > 0 {
      PlanLevel(first / 2, last / 2, height - 1, l - 1);
    }
  }
}
