/**
 The polynomial of a message written as an indexed sum: block `i` of `n` counts `r` to the power
 `n - i`, and is its bytes, least significant first, with a 1 byte behind the last.
 */
module Poly1305Polynomial {
  import opened Bytes
  import opened Poly1305Limbs
  import opened Poly1305

  function Blocks(len: nat): nat {
    (len + 15) / 16
  }

  /** Where block `i` ends: only the last may be short. */
  function BlockEnd(len: nat, i: nat): nat {
    if 16 * i + 16 < len then 16 * i + 16 else len
  }

  function Coefficient(msg: seq<Byte>, i: nat): nat
    requires i < Blocks(|msg|)
  {
    var end := BlockEnd(|msg|, i);
    LeValue(msg[16 * i..end]) + Pow2(8 * (end - 16 * i))
  }

  function Power(r: nat, k: nat): nat {
    if k == 0 then 1 else r * Power(r, k - 1)
  }

  /** The terms of blocks `i` and up. */
  function Polynomial(msg: seq<Byte>, r: nat, i: nat): nat
    decreases Blocks(|msg|) - i
  {
    if i >= Blocks(|msg|) then 0
    else Coefficient(msg, i) * Power(r, Blocks(|msg|) - i) + Polynomial(msg, r, i + 1)
  }

  /** Where block `i` starts; past the last block, the end. */
  function BlockStart(len: nat, i: nat): nat {
    if 16 * i < len then 16 * i else len
  }

  lemma {:induction false} ZerosCountNothing(n: nat, zeros: seq<Byte>)
    requires zeros == seq(n, _ => 0)
    ensures LeValue(zeros) == 0
  {
    if n > 0 {
      assert zeros[1..] == seq(n - 1, _ => 0);
      ZerosCountNothing(n - 1, zeros[1..]);
    }
  }

  /** A 1 byte counts 1, whatever zeros follow it. */
  lemma MarkerValue(tail: seq<Byte>, n: nat)
    requires tail == [1] + seq(n, _ => 0)
    ensures LeValue(tail) == 1
  {
    ZerosCountNothing(n, tail[1..]);
  }

  lemma PaddedValue(chunk: seq<Byte>)
    requires |chunk| <= 16
    ensures LeValue(PadBlock(chunk)) == LeValue(chunk) + Pow2(8 * |chunk|)
  {
    var zeros: seq<Byte> := seq(16 - |chunk|, _ => 0);
    var tail: seq<Byte> := [1] + zeros;
    MarkerValue(tail, 16 - |chunk|);
    Reassociate(chunk, [1], zeros);
    TailValue(chunk, tail, PadBlock(chunk));
  }

  lemma TailValue(chunk: seq<Byte>, tail: seq<Byte>, block: seq<Byte>)
    requires block == chunk + tail && LeValue(tail) == 1
    ensures LeValue(block) == LeValue(chunk) + Pow2(8 * |chunk|)
  {
    LeValueConcat(chunk, tail);
  }

  /** One step of Horner's rule, in front of further blocks worth `rest`. */
  lemma StepUnderMod(acc: nat, b: nat, r: nat, power: nat, rest: nat)
    ensures (HornerStep(acc, b, r) * power + rest) % P == (acc * (r * power) + (b * (r * power) + rest)) % P
  {
    var x := (acc + b) * r;
    var q, m := x / P, x % P;
    Spread(acc, b, r, power, rest, x, q, m);
    MultipleVanishes(acc * (r * power) + (b * (r * power) + rest), m * power + rest, q * power);
  }

  lemma Spread(acc: nat, b: nat, r: nat, power: nat, rest: nat, x: nat, q: nat, m: nat)
    requires x == (acc + b) * r && x == m + q * P
    ensures acc * (r * power) + (b * (r * power) + rest) == (m * power + rest) + (q * power) * P
  {
    assert (acc + b) * (r * power) == x * power;
    assert x * power == m * power + (q * power) * P;
  }

  function Fold(r: nat, acc: nat, msg: seq<Byte>): nat {
    Absorb<nat>(NumberStep(r), acc, msg)
  }

  lemma FoldStep(r: nat, acc: nat, msg: seq<Byte>, chunk: seq<Byte>, others: seq<Byte>)
    requires msg != [] && chunk == First(msg) && others == Rest(msg)
    ensures Fold(r, acc, msg) == Fold(r, HornerStep(acc, LeValue(PadBlock(chunk)), r), others)
  {
  }

  /** The first block of what is left. */
  lemma BlockAt(msg: seq<Byte>, i: nat, start: nat, end: nat)
    requires i < Blocks(|msg|) && start == BlockStart(|msg|, i) && end == BlockStart(|msg|, i + 1)
    ensures start == 16 * i && start < end == BlockEnd(|msg|, i) && end - start <= 16
    ensures msg[start..] != [] && First(msg[start..]) == msg[start..end] && Rest(msg[start..]) == msg[end..]
  {
  }

  /** The terms from block `i` on, behind an accumulator that counts for all of them. */
  function Terms(msg: seq<Byte>, r: nat, i: nat, acc: nat): nat
    requires i <= Blocks(|msg|)
  {
    acc * Power(r, Blocks(|msg|) - i) + Polynomial(msg, r, i)
  }

  lemma TermsStep(msg: seq<Byte>, r: nat, i: nat, acc: nat, b: nat)
    requires i < Blocks(|msg|) && b == Coefficient(msg, i)
    ensures Terms(msg, r, i + 1, HornerStep(acc, b, r)) % P == Terms(msg, r, i, acc) % P
  {
    StepUnderMod(acc, b, r, Power(r, Blocks(|msg|) - i - 1), Polynomial(msg, r, i + 1));
  }

  lemma FoldBlock(msg: seq<Byte>, r: nat, i: nat, start: nat, end: nat, acc: nat, b: nat)
    requires i < Blocks(|msg|) && start == BlockStart(|msg|, i) && end == BlockStart(|msg|, i + 1)
    requires b == Coefficient(msg, i)
    ensures Fold(r, acc, msg[start..]) == Fold(r, HornerStep(acc, b, r), msg[end..])
  {
    BlockAt(msg, i, start, end);
    PaddedValue(msg[start..end]);
    FoldStep(r, acc, msg[start..], msg[start..end], msg[end..]);
  }

  /** The fold from block `i` on, and the terms it adds up. */
  lemma {:induction false} FoldIsSum(msg: seq<Byte>, r: nat, i: nat, start: nat, acc: nat)
    requires i <= Blocks(|msg|) && start == BlockStart(|msg|, i)
    ensures Fold(r, acc, msg[start..]) % P == Terms(msg, r, i, acc) % P
    decreases Blocks(|msg|) - i
  {
    if i == Blocks(|msg|) {
      NothingLeft(msg, r, start, acc);
    } else {
      var end, b := BlockStart(|msg|, i + 1), Coefficient(msg, i);
      FoldBlock(msg, r, i, start, end, acc, b);
      FoldIsSum(msg, r, i + 1, end, HornerStep(acc, b, r));
      TermsStep(msg, r, i, acc, b);
    }
  }

  lemma NothingLeft(msg: seq<Byte>, r: nat, start: nat, acc: nat)
    requires start == BlockStart(|msg|, Blocks(|msg|))
    ensures Fold(r, acc, msg[start..]) == acc && Terms(msg, r, Blocks(|msg|), acc) == acc
  {
    assert msg[start..] == [];
    assert Power(r, 0) == 1;
  }

  /** Horner's rule computes the sum, modulo the prime. */
  lemma HornerIsSum(msg: seq<Byte>, r: nat, sum: nat)
    requires sum == Polynomial(msg, r, 0)
    ensures Horner(msg, r) % P == sum % P
  {
    assert msg[0..] == msg;
    FoldIsSum(msg, r, 0, 0, 0);
  }

  lemma ReducedTwice(residue: nat, n: nat)
    requires residue == n % P
    ensures residue % P == residue
  {
    QuotientUnique(residue, P, 0, residue);
  }

  /** The final limbs are the polynomial of the message modulo 2^130 - 5. */
  lemma LimbsHoldPolynomial(msg: seq<Byte>, r: Limbs, h: Limbs, sum: nat)
    requires Reduced(r) && h == FinalLimbs(msg, r) && sum == Polynomial(msg, Value(r), 0)
    ensures AlmostReduced(h) && Value(h) % P == sum % P
  {
    LimbsHoldHorner(msg, r, Value(r));
    HornerIsSum(msg, Value(r), sum);
    ReducedTwice(Value(h) % P, Value(h));
  }

  /** The tag is the polynomial's residue plus `s` modulo 2^128, unless a reduction or a carry is missed. */
  lemma TagIsPolynomial(msg: seq<Byte>, r: Limbs, s: nat, h: Limbs, sum: nat)
    requires Reduced(r) && h == FinalLimbs(msg, r) && sum == Polynomial(msg, Value(r), 0)
    ensures TagValue(h, s) == Plus128(sum % P, s) <==> Value(h) < P && !CarryLost(h)
  {
    LimbsHoldPolynomial(msg, r, h, sum);
    TagMatches(h, s);
    RfcTagOfResidue(Value(h), sum % P, s);
  }
}
