/**
 The LZ77 codec on values: greedy longest-match tokens over the earlier positions with the same
 three-byte hash, their expansion, and their bit encoding. The hash is a parameter.
 */
module LzTokens {
  import opened Bytes
  import opened Bits

  const WINDOW_SIZE := 32768
  const MIN_MATCH := 3
  const MAX_MATCH := 258
  const HASH_BUCKETS := 65536

  type Bucket = b: nat | b < 65536
  type Hash3 = (Byte, Byte, Byte) -> Bucket

  datatype Token = Literal(byte: Byte) | Match(length: nat, distance: nat)

  datatype LzError = UnexpectedEnd | InvalidDistance | LengthMismatch
  datatype Result<+T> = Ok(value: T) | Err(error: LzError)

  /** The field widths of the packed stream: 8 bits of length minus 3, 15 bits of distance minus 1. */
  predicate Fields(t: Token) {
    t.Match? ==> MIN_MATCH <= t.length <= MAX_MATCH && 1 <= t.distance <= WINDOW_SIZE
  }

  // ---------- The matcher ----------

  /** A three-byte prefix starts at `i`. */
  predicate Hashable(input: seq<Byte>, i: nat) {
    i + MIN_MATCH <= |input|
  }

  function HashAt(hash: Hash3, input: seq<Byte>, i: nat): Bucket
    requires Hashable(input, i)
  {
    hash(input[i], input[i + 1], input[i + 2])
  }

  /** The last position before `end` whose three-byte prefix falls in bucket `b`. */
  function LastIn(hash: Hash3, input: seq<Byte>, b: Bucket, end: nat): (last: Option<nat>)
    ensures last.Some? ==> last.value < end && Hashable(input, last.value) && HashAt(hash, input, last.value) == b
    ensures forall i: nat :: i < end && Hashable(input, i) && HashAt(hash, input, i) == b ==>
              last.Some? && i <= last.value
  {
    if end == 0 then None
    else if Hashable(input, end - 1) && HashAt(hash, input, end - 1) == b then Some(end - 1)
    else LastIn(hash, input, b, end - 1)
  }

  /** Length of the common run at `c` and `pos`, up to `max`, given `len` equal bytes already. */
  function MatchLength(input: seq<Byte>, c: nat, pos: nat, max: nat, len: nat): (n: nat)
    requires c < pos && pos + max <= |input| && len <= max
    ensures len <= n <= max
    ensures n == max || input[c + n] != input[pos + n]
    decreases max - len
  {
    if len < max && input[c + len] == input[pos + len] then MatchLength(input, c, pos, max, len + 1) else len
  }

  /** The `n` bytes at `pos` repeat those `distance` back. */
  predicate Repeats(input: seq<Byte>, pos: nat, distance: nat, n: nat) {
    1 <= distance <= pos && pos + n <= |input| && input[pos - distance..pos - distance + n] == input[pos..pos + n]
  }

  lemma RepeatsMore(input: seq<Byte>, pos: nat, distance: nat, n: nat)
    requires Repeats(input, pos, distance, n) && pos + n < |input| && input[pos - distance + n] == input[pos + n]
    ensures Repeats(input, pos, distance, n + 1)
  {
    assert input[pos..pos + n + 1] == input[pos..pos + n] + [input[pos + n]];
    var c := pos - distance;
    assert input[c..c + n + 1] == input[c..c + n] + [input[c + n]];
  }

  lemma RepeatsRest(input: seq<Byte>, pos: nat, distance: nat, n: nat)
    requires Repeats(input, pos, distance, n) && n > 0
    ensures input[pos - distance] == input[pos] && Repeats(input, pos + 1, distance, n - 1)
  {
    var c := pos - distance;
    assert input[c] == input[c..c + n][0] == input[pos..pos + n][0];
    assert input[c + 1..c + n] == input[c..c + n][1..] && input[pos + 1..pos + n] == input[pos..pos + n][1..];
  }

  lemma {:induction false} MatchRepeats(input: seq<Byte>, c: nat, pos: nat, max: nat, len: nat)
    requires c < pos && pos + max <= |input| && len <= max && Repeats(input, pos, pos - c, len)
    ensures Repeats(input, pos, pos - c, MatchLength(input, c, pos, max, len))
    decreases max - len
  {
    if len < max && input[c + len] == input[pos + len] {
      RepeatsMore(input, pos, pos - c, len);
      MatchRepeats(input, c, pos, max, len + 1);
    }
  }

  datatype Best = Best(length: nat, distance: nat)

  function WindowStart(pos: nat): nat {
    if pos < WINDOW_SIZE then 0 else pos - WINDOW_SIZE
  }

  function MaxLength(input: seq<Byte>, pos: nat): nat
    requires pos <= |input|
  {
    if |input| - pos < MAX_MATCH then |input| - pos else MAX_MATCH
  }

  /** One candidate: keeps the longer match. */
  function Try(input: seq<Byte>, c: nat, pos: nat, best: Best): Best
    requires c < pos <= |input|
  {
    var n := MatchLength(input, c, pos, MaxLength(input, pos), 0);
    if n > best.length then Best(n, pos - c) else best
  }

  /** The chain search: newest candidate first, at most `budget` of them, within the window. */
  function Search(hash: Hash3, input: seq<Byte>, pos: nat, candidate: Option<nat>, budget: nat, best: Best): Best
    requires Hashable(input, pos)
    requires candidate.Some? ==> candidate.value < pos
    decreases budget
  {
    if budget == 0 || candidate.None? || candidate.value < WindowStart(pos) then best
    else
      var c := candidate.value;
      var better := Try(input, c, pos, best);
      if better != best && better.length == MaxLength(input, pos) then better
      else Search(hash, input, pos, LastIn(hash, input, HashAt(hash, input, pos), c), budget - 1, better)
  }

  function FindMatch(hash: Hash3, input: seq<Byte>, pos: nat, maxChain: nat): Best
    requires pos < |input|
  {
    if MaxLength(input, pos) < MIN_MATCH then Best(0, 0)
    else Search(hash, input, pos, LastIn(hash, input, HashAt(hash, input, pos), pos), maxChain, Best(0, 0))
  }

  /** A match that can be emitted: it copies equal bytes and fits the fields of the stream. */
  predicate Copies(input: seq<Byte>, pos: nat, best: Best)
    requires pos <= |input|
  {
    && best.length <= MaxLength(input, pos)
    && (best.length > 0 ==> best.distance <= WINDOW_SIZE && Repeats(input, pos, best.distance, best.length))
  }

  lemma TryCopies(input: seq<Byte>, c: nat, pos: nat, best: Best)
    requires WindowStart(pos) <= c < pos <= |input| && Copies(input, pos, best)
    ensures Copies(input, pos, Try(input, c, pos, best))
  {
    MatchRepeats(input, c, pos, MaxLength(input, pos), 0);
  }

  lemma {:induction false} SearchCopies(hash: Hash3, input: seq<Byte>, pos: nat, candidate: Option<nat>, budget: nat,
                                        best: Best)
    requires Hashable(input, pos) && (candidate.Some? ==> candidate.value < pos)
    requires Copies(input, pos, best)
    ensures Copies(input, pos, Search(hash, input, pos, candidate, budget, best))
    ensures best.length <= Search(hash, input, pos, candidate, budget, best).length
    decreases budget
  {
    if budget > 0 && candidate.Some? && candidate.value >= WindowStart(pos) {
      var c := candidate.value;
      var better := Try(input, c, pos, best);
      TryCopies(input, c, pos, best);
      if !(better != best && better.length == MaxLength(input, pos)) {
        SearchCopies(hash, input, pos, LastIn(hash, input, HashAt(hash, input, pos), c), budget - 1, better);
      }
    }
  }

  /** The `k`-th candidate of the chain, newest first. */
  function Candidate(hash: Hash3, input: seq<Byte>, pos: nat, from: Option<nat>, k: nat): Option<nat>
    requires Hashable(input, pos)
    decreases k
  {
    if from.None? || k == 0 then from
    else Candidate(hash, input, pos, LastIn(hash, input, HashAt(hash, input, pos), from.value), k - 1)
  }

  /** No candidate within the budget and the window gives a longer match than the search returns. */
  lemma {:induction false} SearchIsLongest(hash: Hash3, input: seq<Byte>, pos: nat, from: Option<nat>, budget: nat,
                                           best: Best, k: nat)
    requires Hashable(input, pos) && (from.Some? ==> from.value < pos) && Copies(input, pos, best)
    requires k < budget && Candidate(hash, input, pos, from, k).Some?
    ensures var c := Candidate(hash, input, pos, from, k).value;
            c >= WindowStart(pos) ==>
              c < pos && MatchLength(input, c, pos, MaxLength(input, pos), 0)
                         <= Search(hash, input, pos, from, budget, best).length
    decreases k
  {
    CandidateDescends(hash, input, pos, from, k);
    var c := from.value;
    if c >= WindowStart(pos) {
      var better := Try(input, c, pos, best);
      TryCopies(input, c, pos, best);
      var next := LastIn(hash, input, HashAt(hash, input, pos), c);
      SearchUnfolds(hash, input, pos, c, next, budget, best, better);
      SearchCopies(hash, input, pos, next, budget - 1, better);
      if k > 0 {
        SearchIsLongest(hash, input, pos, next, budget - 1, better, k - 1);
      }
    }
  }

  /** One candidate tried: either it already has the greatest length, or the search goes on. */
  lemma SearchUnfolds(hash: Hash3, input: seq<Byte>, pos: nat, c: nat, next: Option<nat>, budget: nat, best: Best,
                      better: Best)
    requires Hashable(input, pos) && WindowStart(pos) <= c < pos && budget > 0 && better == Try(input, c, pos, best)
    requires next == LastIn(hash, input, HashAt(hash, input, pos), c)
    ensures MatchLength(input, c, pos, MaxLength(input, pos), 0) <= better.length
    ensures var found := Search(hash, input, pos, Some(c), budget, best);
      || found == Search(hash, input, pos, next, budget - 1, better)
      || (found == better && found.length == MaxLength(input, pos))
  {
  }

  /** The match found is the longest any candidate of the chain offers, within the budget and the window. */
  lemma FindMatchIsLongest(hash: Hash3, input: seq<Byte>, pos: nat, maxChain: nat, k: nat)
    requires Hashable(input, pos) && k < maxChain
    ensures var newest := LastIn(hash, input, HashAt(hash, input, pos), pos);
      var candidate := Candidate(hash, input, pos, newest, k);
      candidate.Some? && candidate.value >= WindowStart(pos) ==>
        candidate.value < pos && MatchLength(input, candidate.value, pos, MaxLength(input, pos), 0)
                                 <= FindMatch(hash, input, pos, maxChain).length
  {
    var newest := LastIn(hash, input, HashAt(hash, input, pos), pos);
    if Candidate(hash, input, pos, newest, k).Some? {
      SearchIsLongest(hash, input, pos, newest, maxChain, Best(0, 0), k);
    }
  }

  lemma {:induction false} CandidateDescends(hash: Hash3, input: seq<Byte>, pos: nat, from: Option<nat>, k: nat)
    requires Hashable(input, pos) && from.Some? && Candidate(hash, input, pos, from, k).Some?
    ensures Candidate(hash, input, pos, from, k).value <= from.value
    decreases k
  {
    if k > 0 {
      CandidateDescends(hash, input, pos, LastIn(hash, input, HashAt(hash, input, pos), from.value), k - 1);
    }
  }

  // ---------- Tokens ----------

  /** How many bytes a token stands for. */
  function Width(t: Token): nat {
    if t.Match? then t.length else 1
  }

  /** A match when it is long enough, a literal otherwise. */
  function TokenAt(hash: Hash3, input: seq<Byte>, maxChain: nat, pos: nat): (t: Token)
    requires pos < |input|
    ensures 1 <= Width(t) <= |input| - pos
  {
    var best := FindMatch(hash, input, pos, maxChain);
    if MIN_MATCH <= best.length <= |input| - pos then Match(best.length, best.distance) else Literal(input[pos])
  }

  /** The tokens emitted from position `pos` on. */
  function Tokens(hash: Hash3, input: seq<Byte>, maxChain: nat, pos: nat): seq<Token>
    requires pos <= |input|
    decreases |input| - pos
  {
    if pos == |input| then []
    else
      var t := TokenAt(hash, input, maxChain, pos);
      [t] + Tokens(hash, input, maxChain, pos + Width(t))
  }

  /** An overlapping copy, one byte at a time. */
  function CopyBack(out: seq<Byte>, distance: nat, length: nat): (r: seq<Byte>)
    requires 1 <= distance <= |out|
    ensures |r| == |out| + length
    decreases length
  {
    if length == 0 then out else CopyBack(out + [out[|out| - distance]], distance, length - 1)
  }

  /** A match must not reach back before the start of the output. */
  predicate InReach(out: seq<Byte>, t: Token) {
    t.Match? ==> 1 <= t.distance <= |out|
  }

  /** The output after one token. */
  function Apply(out: seq<Byte>, t: Token): seq<Byte>
    requires InReach(out, t)
  {
    match t
    case Literal(b) => out + [b]
    case Match(length, distance) => CopyBack(out, distance, length)
  }

  /** What a token list expands to after `out`. */
  function Expand(out: seq<Byte>, tokens: seq<Token>): Option<seq<Byte>>
    decreases |tokens|
  {
    if tokens == [] then Some(out)
    else if InReach(out, tokens[0]) then Expand(Apply(out, tokens[0]), tokens[1..])
    else None
  }

  /** Copying a run that repeats the bytes `distance` back reproduces it, overlaps included. */
  lemma {:induction false} CopyBackCopies(input: seq<Byte>, pos: nat, distance: nat, length: nat)
    requires Repeats(input, pos, distance, length)
    ensures CopyBack(input[..pos], distance, length) == input[..pos + length]
    decreases length
  {
    if length > 0 {
      RepeatsRest(input, pos, distance, length);
      assert input[..pos] + [input[pos]] == input[..pos + 1];
      CopyBackCopies(input, pos + 1, distance, length - 1);
    }
  }

  predicate AllFields(tokens: seq<Token>) {
    tokens == [] || (Fields(tokens[0]) && AllFields(tokens[1..]))
  }

  /** A token that fits its fields and reproduces the bytes between two positions. */
  predicate StandsFor(input: seq<Byte>, pos: nat, t: Token, next: nat) {
    pos < next <= |input| && Fields(t) && InReach(input[..pos], t) && Apply(input[..pos], t) == input[..next]
  }

  /** The token chosen at a position stands for as many bytes as its width. */
  lemma TokenStands(hash: Hash3, input: seq<Byte>, maxChain: nat, pos: nat)
    requires pos < |input|
    ensures var t := TokenAt(hash, input, maxChain, pos); StandsFor(input, pos, t, pos + Width(t))
  {
    FindMatchCopies(hash, input, pos, maxChain);
    var best := FindMatch(hash, input, pos, maxChain);
    if best.length >= MIN_MATCH {
      CopyBackCopies(input, pos, best.distance, best.length);
    } else {
      assert input[..pos] + [input[pos]] == input[..pos + 1];
    }
  }

  /** Tokens that stand, one after the other, for everything from a position on. */
  predicate Spells(input: seq<Byte>, pos: nat, tokens: seq<Token>)
    decreases |tokens|
  {
    if tokens == [] then pos == |input|
    else
      var next := pos + Width(tokens[0]);
      StandsFor(input, pos, tokens[0], next) && Spells(input, next, tokens[1..])
  }

  lemma SpellsStep(input: seq<Byte>, pos: nat, first: Token, next: nat, others: seq<Token>)
    requires next == pos + Width(first) && StandsFor(input, pos, first, next) && Spells(input, next, others)
    ensures Spells(input, pos, [first] + others)
  {
    assert ([first] + others)[1..] == others;
  }

  lemma {:induction false} TokensSpell(hash: Hash3, input: seq<Byte>, maxChain: nat, pos: nat)
    requires pos <= |input|
    ensures Spells(input, pos, Tokens(hash, input, maxChain, pos))
    decreases |input| - pos
  {
    if pos < |input| {
      var t := TokenAt(hash, input, maxChain, pos);
      var next := pos + Width(t);
      TokenStands(hash, input, maxChain, pos);
      TokensSpell(hash, input, maxChain, next);
      SpellsStep(input, pos, t, next, Tokens(hash, input, maxChain, next));
    }
  }

  lemma {:induction false} SpelledExpands(input: seq<Byte>, pos: nat, tokens: seq<Token>)
    requires pos <= |input| && Spells(input, pos, tokens)
    ensures AllFields(tokens) && Expand(input[..pos], tokens) == Some(input)
    decreases |tokens|
  {
    if tokens == [] {
      assert input[..pos] == input;
    } else {
      SpelledExpands(input, pos + Width(tokens[0]), tokens[1..]);
    }
  }

  /**
   The matcher's promise: every token fits the fields of the stream, and the tokens expand back
   to the input, for any hash and any chain budget.
   */
  lemma TokensExpand(hash: Hash3, input: seq<Byte>, maxChain: nat, pos: nat)
    requires pos <= |input|
    ensures AllFields(Tokens(hash, input, maxChain, pos))
    ensures Expand(input[..pos], Tokens(hash, input, maxChain, pos)) == Some(input)
  {
    TokensSpell(hash, input, maxChain, pos);
    SpelledExpands(input, pos, Tokens(hash, input, maxChain, pos));
  }

  lemma FindMatchCopies(hash: Hash3, input: seq<Byte>, pos: nat, maxChain: nat)
    requires pos < |input|
    ensures Copies(input, pos, FindMatch(hash, input, pos, maxChain))
  {
    if MaxLength(input, pos) >= MIN_MATCH {
      SearchCopies(hash, input, pos, LastIn(hash, input, HashAt(hash, input, pos), pos), maxChain, Best(0, 0));
    }
  }
}
