/**
 Which tokens the compressor emits, and where their bits lie, said without its search: at every
 position the longest copy that an admitted earlier position offers, the nearest of the longest,
 and a literal where no offer reaches three bytes. This leaves exactly one token list.
 */
module LzGreedy {
  import opened Bytes
  import opened Bits
  import opened LzTokens
  import opened LzStream

  // ---------- Offers ----------

  /** The three bytes at `i` and those at `pos` fall in one bucket. */
  predicate Collides(hash: Hash3, input: seq<Byte>, pos: nat, i: nat) {
    i + 3 <= |input| && pos + 3 <= |input|
    && hash(input[i], input[i + 1], input[i + 2]) == hash(input[pos], input[pos + 1], input[pos + 2])
  }

  /** How many colliding positions lie between `c` and `end`. */
  function Newer(hash: Hash3, input: seq<Byte>, pos: nat, c: nat, end: nat): nat {
    if end <= c + 1 then 0
    else Newer(hash, input, pos, c, end - 1) + (if Collides(hash, input, pos, end - 1) then 1 else 0)
  }

  /** A colliding position before `end`, within the window and among the newest `budget` of them. */
  predicate Admitted(hash: Hash3, input: seq<Byte>, pos: nat, c: nat, end: nat, budget: nat) {
    c < end <= pos <= c + 32768 && Collides(hash, input, pos, c) && Newer(hash, input, pos, c, end) < budget
  }

  /** `length` bytes, at most 258, that an admitted position `distance` back repeats. */
  predicate Offer(hash: Hash3, input: seq<Byte>, budget: nat, pos: nat, distance: nat, length: nat) {
    && 1 <= distance <= pos && length <= 258 && pos + length <= |input|
    && Admitted(hash, input, pos, pos - distance, pos, budget)
    && input[pos - distance..pos - distance + length] == input[pos..pos + length]
  }

  /** The longest offer of at least three bytes, the nearest of the longest; else the byte itself. */
  ghost predicate Choice(hash: Hash3, input: seq<Byte>, budget: nat, pos: nat, t: Token) {
    match t
    case Literal(b) =>
      && pos < |input| && b == input[pos]
      && forall d: nat, n: nat :: Offer(hash, input, budget, pos, d, n) ==> n < 3
    case Match(length, distance) =>
      && 3 <= length && Offer(hash, input, budget, pos, distance, length)
      && forall d: nat, n: nat :: Offer(hash, input, budget, pos, d, n) ==> n < length || (n == length && distance <= d)
  }

  /** Choices all the way to the end of the input. */
  ghost predicate Greedy(hash: Hash3, input: seq<Byte>, budget: nat, pos: nat, tokens: seq<Token>)
    decreases |tokens|
  {
    if tokens == [] then pos == |input|
    else
      && Choice(hash, input, budget, pos, tokens[0])
      && Greedy(hash, input, budget, if tokens[0].Match? then pos + tokens[0].length else pos + 1, tokens[1..])
  }

  // ---------- The search finds the best offer ----------

  /** The newest colliding position before `end`, and what lies behind it. */
  lemma {:induction false} NewestFirst(hash: Hash3, input: seq<Byte>, pos: nat, c: nat, m: nat, end: nat)
    requires c <= m < end && Collides(hash, input, pos, m)
    requires forall i: nat :: m < i < end ==> !Collides(hash, input, pos, i)
    ensures Newer(hash, input, pos, c, end) == if c == m then 0 else 1 + Newer(hash, input, pos, c, m)
    decreases end
  {
    if m + 1 < end {
      NewestFirst(hash, input, pos, c, m, end - 1);
    }
  }

  /** What a link of the chain says about the offers. */
  lemma LinkIsNewest(hash: Hash3, input: seq<Byte>, pos: nat, end: nat, link: Option<nat>)
    requires Hashable(input, pos) && link == LastIn(hash, input, HashAt(hash, input, pos), end)
    ensures link.Some? ==> link.value < end && Collides(hash, input, pos, link.value)
    ensures forall i: nat :: i < end && Collides(hash, input, pos, i) ==> link.Some? && i <= link.value
  {
  }

  /** An admitted position is the newest one or admitted behind it. */
  lemma AdmittedBehind(hash: Hash3, input: seq<Byte>, pos: nat, c: nat, m: nat, end: nat, budget: nat)
    requires Hashable(input, pos) && end <= pos && LastIn(hash, input, HashAt(hash, input, pos), end) == Some(m)
    ensures c < m && budget > 0 ==>
      (Admitted(hash, input, pos, c, end, budget) <==> Admitted(hash, input, pos, c, m, budget - 1))
    ensures Admitted(hash, input, pos, m, end, budget) <==> budget > 0 && WindowStart(pos) <= m
    ensures Admitted(hash, input, pos, c, end, budget) ==> c <= m
  {
    LinkIsNewest(hash, input, pos, end, Some(m));
    NewestFirst(hash, input, pos, m, m, end);
    if c <= m {
      NewestFirst(hash, input, pos, c, m, end);
    }
  }

  function RunAt(input: seq<Byte>, c: nat, pos: nat): nat
    requires c < pos <= |input|
  {
    MatchLength(input, c, pos, MaxLength(input, pos), 0)
  }

  /** No admitted position does better than the match found, nor as well from nearer. */
  predicate Beats(hash: Hash3, input: seq<Byte>, pos: nat, c: nat, end: nat, budget: nat, best: Best, found: Best)
    requires pos <= |input|
  {
    Admitted(hash, input, pos, c, end, budget) ==>
      RunAt(input, c, pos) <= found.length
      && (found == best || RunAt(input, c, pos) < found.length || c + found.distance <= pos)
  }

  /** The match found is the one held already, or a longer one from an admitted position. */
  predicate Attained(hash: Hash3, input: seq<Byte>, pos: nat, end: nat, budget: nat, best: Best, found: Best)
    requires pos <= |input|
  {
    found == best
    || (1 <= found.distance <= pos && Admitted(hash, input, pos, pos - found.distance, end, budget)
        && found.length > best.length && found.length == RunAt(input, pos - found.distance, pos))
  }

  lemma {:induction false} SearchIsBest(hash: Hash3, input: seq<Byte>, pos: nat, end: nat, budget: nat, best: Best,
                                        link: Option<nat>, found: Best, c: nat)
    requires Hashable(input, pos) && end <= pos && link == LastIn(hash, input, HashAt(hash, input, pos), end)
    requires found == Search(hash, input, pos, link, budget, best)
    ensures Attained(hash, input, pos, end, budget, best, found)
    ensures Beats(hash, input, pos, c, end, budget, best, found)
    decreases budget
  {
    LinkIsNewest(hash, input, pos, end, link);
    if link.Some? {
      AdmittedBehind(hash, input, pos, c, link.value, end, budget);
      if budget > 0 && WindowStart(pos) <= link.value {
        SearchStep(hash, input, pos, end, budget, best, link.value, found, c);
      }
    }
  }

  lemma {:induction false} SearchStep(hash: Hash3, input: seq<Byte>, pos: nat, end: nat, budget: nat, best: Best,
                                      m: nat, found: Best, c: nat)
    requires Hashable(input, pos) && end <= pos && LastIn(hash, input, HashAt(hash, input, pos), end) == Some(m)
    requires budget > 0 && WindowStart(pos) <= m && found == Search(hash, input, pos, Some(m), budget, best)
    ensures Attained(hash, input, pos, end, budget, best, found)
    ensures Beats(hash, input, pos, c, end, budget, best, found)
    decreases budget, 0
  {
    var better := Try(input, m, pos, best);
    AdmittedBehind(hash, input, pos, c, m, end, budget);
    if better != best && better.length == MaxLength(input, pos) {
    } else {
      var next := LastIn(hash, input, HashAt(hash, input, pos), m);
      SearchIsBest(hash, input, pos, m, budget - 1, better, next, found, c);
      if found != better {
        AdmittedBehind(hash, input, pos, pos - found.distance, m, end, budget);
      }
    }
  }

  // ---------- The run found is the longest repetition ----------

  lemma {:induction false} RunIsLongest(input: seq<Byte>, c: nat, pos: nat, max: nat, len: nat, n: nat)
    requires c < pos && pos + max <= |input| && len <= n <= max
    requires input[c..c + n] == input[pos..pos + n]
    ensures n <= MatchLength(input, c, pos, max, len)
    decreases max - len
  {
    if len < n {
      assert input[c + len] == input[c..c + n][len] == input[pos..pos + n][len];
      RunIsLongest(input, c, pos, max, len + 1, n);
    }
  }

  /** An offer is a prefix of the run its position begins. */
  lemma OfferIsRun(hash: Hash3, input: seq<Byte>, budget: nat, pos: nat, d: nat, n: nat)
    ensures Offer(hash, input, budget, pos, d, n) <==>
      && 1 <= d <= pos <= |input| && Admitted(hash, input, pos, pos - d, pos, budget)
      && n <= RunAt(input, pos - d, pos)
  {
    if 1 <= d <= pos <= |input| && Admitted(hash, input, pos, pos - d, pos, budget) {
      var c := pos - d;
      var run := RunAt(input, c, pos);
      MatchRepeats(input, c, pos, MaxLength(input, pos), 0);
      if Offer(hash, input, budget, pos, d, n) {
        RunIsLongest(input, c, pos, MaxLength(input, pos), 0, n);
      } else if n <= run {
        SliceOfSlice(input, c, c + run, 0, n);
        SliceOfSlice(input, pos, pos + run, 0, n);
      }
    }
  }

  // ---------- The compressor's choice ----------

  lemma FoundIsBest(hash: Hash3, input: seq<Byte>, budget: nat, pos: nat, found: Best, d: nat, n: nat)
    requires pos < |input| && found == FindMatch(hash, input, pos, budget)
    ensures found.length > 0 ==> Offer(hash, input, budget, pos, found.distance, found.length)
    ensures Offer(hash, input, budget, pos, d, n) && n > 0 ==>
      n < found.length || (n == found.length && found.distance <= d)
  {
    OfferIsRun(hash, input, budget, pos, d, n);
    OfferIsRun(hash, input, budget, pos, found.distance, found.length);
    if Hashable(input, pos) {
      var link := LastIn(hash, input, HashAt(hash, input, pos), pos);
      SearchIsBest(hash, input, pos, pos, budget, Best(0, 0), link, found, if d <= pos then pos - d else 0);
    }
  }

  lemma EmittedIsChoice(hash: Hash3, input: seq<Byte>, budget: nat, pos: nat)
    requires pos < |input|
    ensures Choice(hash, input, budget, pos, TokenAt(hash, input, budget, pos))
  {
    var found := FindMatch(hash, input, pos, budget);
    forall d: nat, n: nat | Offer(hash, input, budget, pos, d, n) && n > 0
      ensures n < found.length || (n == found.length && found.distance <= d)
    {
      FoundIsBest(hash, input, budget, pos, found, d, n);
    }
    FoundIsBest(hash, input, budget, pos, found, 0, 0);
  }

  lemma ChoiceIsUnique(hash: Hash3, input: seq<Byte>, budget: nat, pos: nat, t: Token, u: Token)
    requires Choice(hash, input, budget, pos, t) && Choice(hash, input, budget, pos, u)
    ensures t == u
  {
  }

  /** At every position but the end exactly one token is a choice, and it heads the list emitted there. */
  lemma HeadIsChoice(hash: Hash3, input: seq<Byte>, budget: nat, pos: nat, t: Token)
    requires pos < |input|
    ensures Tokens(hash, input, budget, pos) != []
    ensures Choice(hash, input, budget, pos, t) <==> Tokens(hash, input, budget, pos)[0] == t
  {
    EmittedIsChoice(hash, input, budget, pos);
    if Choice(hash, input, budget, pos, t) {
      ChoiceIsUnique(hash, input, budget, pos, t, TokenAt(hash, input, budget, pos));
    }
  }

  /** The list emitted from a position on is greedy to the end, and no other list is. */
  lemma {:induction false} OnlyGreedy(hash: Hash3, input: seq<Byte>, budget: nat, pos: nat, tokens: seq<Token>)
    requires pos <= |input|
    ensures Greedy(hash, input, budget, pos, tokens) <==> tokens == Tokens(hash, input, budget, pos)
    decreases |input| - pos
  {
    if pos == |input| {
      AtTheEnd(hash, input, budget, tokens);
    } else {
      var t := TokenAt(hash, input, budget, pos);
      HeadIsChoice(hash, input, budget, pos, t);
      if tokens != [] {
        HeadIsChoice(hash, input, budget, pos, tokens[0]);
        OnlyGreedy(hash, input, budget, pos + Width(t), tokens[1..]);
        assert tokens == [tokens[0]] + tokens[1..];
      }
    }
  }

  lemma AtTheEnd(hash: Hash3, input: seq<Byte>, budget: nat, tokens: seq<Token>)
    ensures Greedy(hash, input, budget, |input|, tokens) <==> tokens == []
  {
  }
}
