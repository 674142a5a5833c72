/**
 Poly1305 arithmetic on five 26-bit limbs: loading, the schoolbook multiply with the 2^130 term
 folded as 5, carry propagation, and what the result is congruent to (section 2.5 of RFC 8439).
 */
module Poly1305Limbs {
  import opened Bytes

  const P: nat := 0x3_ffff_ffff_ffff_ffff_ffff_ffff_ffff_fffb  // 2^130 - 5

  datatype Limbs = Limbs(l0: nat, l1: nat, l2: nat, l3: nat, l4: nat)

  function Value(h: Limbs): nat {
    h.l0 + h.l1 * 0x400_0000 + h.l2 * 0x10_0000_0000_0000 + h.l3 * 0x4000_0000_0000_0000_0000
    + h.l4 * 0x100_0000_0000_0000_0000_0000_0000
  }

  /** Every limb below 2^26. */
  predicate Reduced(h: Limbs) {
    h.l0 < 0x400_0000 && h.l1 < 0x400_0000 && h.l2 < 0x400_0000 && h.l3 < 0x400_0000 && h.l4 < 0x400_0000
  }

  /** What one step leaves: the last carry may sit in limb 2. */
  predicate AlmostReduced(h: Limbs) {
    h.l0 < 0x400_0000 && h.l1 < 0x400_0000 && h.l2 <= 0x400_0000 && h.l3 < 0x400_0000 && h.l4 < 0x400_0000
  }

  // ---------- Loading ----------

  function Le32(bytes: seq<Byte>, i: nat): nat
    requires i + 4 <= |bytes|
  {
    Quad(bytes[i], bytes[i + 1], bytes[i + 2], bytes[i + 3])
  }

  function Quad(a: nat, b: nat, c: nat, d: nat): nat {
    a + 256 * b + 0x1_0000 * c + 0x100_0000 * d
  }

  /** Five 26-bit windows of sixteen bytes. */
  function Load(bytes: seq<Byte>): Limbs
    requires |bytes| >= 16
  {
    Limbs(Le32(bytes, 0) % 0x400_0000, Le32(bytes, 3) / 4 % 0x400_0000, Le32(bytes, 6) / 16 % 0x400_0000,
          Le32(bytes, 9) / 64 % 0x400_0000, Le32(bytes, 12) / 256 % 0x400_0000)
  }

  // Each window starts part way into its first byte and leaves the top of its last to the next.

  lemma Window0(a: nat, b: nat, c: nat, d: nat)
    requires a < 256 && b < 256 && c < 256 && d < 256
    ensures Quad(a, b, c, d) % 0x400_0000
         == a + 256 * b + 0x1_0000 * c + 0x100_0000 * (d % 4)
  {
  }

  lemma Window1(a: nat, b: nat, c: nat, d: nat)
    requires a < 256 && b < 256 && c < 256 && d < 256
    ensures Quad(a, b, c, d) / 4 % 0x400_0000
         == a / 4 + 64 * b + 0x4000 * c + 0x40_0000 * (d % 16)
  {
  }

  lemma Window2(a: nat, b: nat, c: nat, d: nat)
    requires a < 256 && b < 256 && c < 256 && d < 256
    ensures Quad(a, b, c, d) / 16 % 0x400_0000
         == a / 16 + 16 * b + 0x1000 * c + 0x10_0000 * (d % 64)
  {
  }

  lemma Window3(a: nat, b: nat, c: nat, d: nat)
    requires a < 256 && b < 256 && c < 256 && d < 256
    ensures Quad(a, b, c, d) / 64 % 0x400_0000
         == a / 64 + 4 * b + 0x400 * c + 0x4_0000 * d
  {
  }

  lemma Window4(a: nat, b: nat, c: nat, d: nat)
    requires a < 256 && b < 256 && c < 256 && d < 256
    ensures Quad(a, b, c, d) / 256 % 0x400_0000
         == b + 256 * c + 0x1_0000 * d
  {
  }

  /** The windows tile the sixteen bytes: the limbs have the value of the bytes. */
  lemma LoadValue(bytes: seq<Byte>)
    requires |bytes| == 16
    ensures Value(Load(bytes)) == LeValue(bytes)
  {
    Window0(bytes[0], bytes[1], bytes[2], bytes[3]);
    Window1(bytes[3], bytes[4], bytes[5], bytes[6]);
    Window2(bytes[6], bytes[7], bytes[8], bytes[9]);
    Window3(bytes[9], bytes[10], bytes[11], bytes[12]);
    Window4(bytes[12], bytes[13], bytes[14], bytes[15]);
    SixteenBytes(bytes);
  }

  lemma LoadBounds(bytes: seq<Byte>)
    requires |bytes| >= 16
    ensures Reduced(Load(bytes)) && Load(bytes).l4 < 0x100_0000
  {
    Window4(bytes[12], bytes[13], bytes[14], bytes[15]);
  }

  lemma FourBytes(bytes: seq<Byte>)
    requires |bytes| >= 4
    ensures LeValue(bytes) == Le32(bytes, 0) + 0x1_0000_0000 * LeValue(bytes[4..])
  {
    assert bytes[1..][1..] == bytes[2..];
    assert bytes[2..][1..] == bytes[3..];
    assert bytes[3..][1..] == bytes[4..];
    assert LeValue(bytes[2..]) == bytes[2] + 256 * LeValue(bytes[3..]);
    assert LeValue(bytes[3..]) == bytes[3] + 256 * LeValue(bytes[4..]);
  }

  lemma SixteenBytes(bytes: seq<Byte>)
    requires |bytes| == 16
    ensures LeValue(bytes) == Le32(bytes, 0) + 0x1_0000_0000 * Le32(bytes, 4)
      + 0x1_0000_0000_0000_0000 * Le32(bytes, 8) + 0x1_0000_0000_0000_0000_0000_0000 * Le32(bytes, 12)
  {
    FourBytes(bytes);
    FourBytes(bytes[4..]);
    FourBytes(bytes[8..]);
    FourBytes(bytes[12..]);
    assert bytes[4..][4..] == bytes[8..] && bytes[8..][4..] == bytes[12..] && bytes[12..][4..] == [];
  }

  // ---------- Multiply ----------

  function Add(h: Limbs, b: Limbs): Limbs {
    Limbs(h.l0 + b.l0, h.l1 + b.l1, h.l2 + b.l2, h.l3 + b.l3, h.l4 + b.l4)
  }

  /** The five sums of products, with limbs past the fourth folded back times 5. */
  function Multiply(h: Limbs, r: Limbs): Limbs {
    Limbs(
      h.l0 * r.l0 + h.l1 * (5 * r.l4) + h.l2 * (5 * r.l3) + h.l3 * (5 * r.l2) + h.l4 * (5 * r.l1),
      h.l0 * r.l1 + h.l1 * r.l0 + h.l2 * (5 * r.l4) + h.l3 * (5 * r.l3) + h.l4 * (5 * r.l2),
      h.l0 * r.l2 + h.l1 * r.l1 + h.l2 * r.l0 + h.l3 * (5 * r.l4) + h.l4 * (5 * r.l3),
      h.l0 * r.l3 + h.l1 * r.l2 + h.l2 * r.l1 + h.l3 * r.l0 + h.l4 * (5 * r.l4),
      h.l0 * r.l4 + h.l1 * r.l3 + h.l2 * r.l2 + h.l3 * r.l1 + h.l4 * r.l0)
  }

  /** The products whose limb position is five or more, moved down five places. */
  function Folded(h: Limbs, r: Limbs): nat {
    (h.l1 * r.l4 + h.l2 * r.l3 + h.l3 * r.l2 + h.l4 * r.l1)
    + (h.l2 * r.l4 + h.l3 * r.l3 + h.l4 * r.l2) * 0x400_0000
    + (h.l3 * r.l4 + h.l4 * r.l3) * 0x10_0000_0000_0000
    + h.l4 * r.l4 * 0x4000_0000_0000_0000_0000
  }

  /** One limb against a whole factor. */
  lemma LimbTimes(x: nat, r: Limbs)
    ensures x * Value(r) == x * r.l0 + (x * r.l1) * 0x400_0000 + (x * r.l2) * 0x10_0000_0000_0000
      + (x * r.l3) * 0x4000_0000_0000_0000_0000 + (x * r.l4) * 0x100_0000_0000_0000_0000_0000_0000
  {
  }

  lemma ValueTimes(h: Limbs, v: nat)
    ensures Value(h) * v == h.l0 * v + (h.l1 * v) * 0x400_0000 + (h.l2 * v) * 0x10_0000_0000_0000
      + (h.l3 * v) * 0x4000_0000_0000_0000_0000 + (h.l4 * v) * 0x100_0000_0000_0000_0000_0000_0000
  {
  }

  lemma FiveTimes(x: nat, y: nat)
    ensures x * (5 * y) == 5 * (x * y)
  {
  }

  /** Folding replaces 2^130 by 5. */
  lemma MultiplyValue(h: Limbs, r: Limbs)
    ensures Value(h) * Value(r) == Value(Multiply(h, r)) + Folded(h, r) * P
  {
    ValueTimes(h, Value(r));
    LimbTimes(h.l0, r);
    LimbTimes(h.l1, r);
    LimbTimes(h.l2, r);
    LimbTimes(h.l3, r);
    LimbTimes(h.l4, r);
    FiveTimes(h.l1, r.l4);
    FiveTimes(h.l2, r.l3);
    FiveTimes(h.l3, r.l2);
    FiveTimes(h.l4, r.l1);
    FiveTimes(h.l2, r.l4);
    FiveTimes(h.l3, r.l3);
    FiveTimes(h.l4, r.l2);
    FiveTimes(h.l3, r.l4);
    FiveTimes(h.l4, r.l3);
    FiveTimes(h.l4, r.l4);
  }

  lemma ProductBound(x: nat, y: nat)
    requires x <= 0x800_0001 && y <= 0x1400_0000
    ensures x * y <= 0x800_0001 * 0x1400_0000
  {
    ProductMonotone(x, y, 0x1400_0000);
    ProductMonotone(0x1400_0000, x, 0x800_0001);
  }

  lemma RowBound(h: Limbs, a: nat, b: nat, c: nat, d: nat, e: nat)
    requires h.l0 <= 0x800_0001 && h.l1 <= 0x800_0001 && h.l2 <= 0x800_0001 && h.l3 <= 0x800_0001 && h.l4 <= 0x800_0001
    requires a <= 0x1400_0000 && b <= 0x1400_0000 && c <= 0x1400_0000 && d <= 0x1400_0000 && e <= 0x1400_0000
    ensures h.l0 * a + h.l1 * b + h.l2 * c + h.l3 * d + h.l4 * e <= 0x400_0000_0000_0000
  {
    ProductBound(h.l0, a);
    ProductBound(h.l1, b);
    ProductBound(h.l2, c);
    ProductBound(h.l3, d);
    ProductBound(h.l4, e);
  }

  /** No sum of products comes near 64 bits. */
  lemma MultiplyFits(h: Limbs, b: Limbs, r: Limbs)
    requires AlmostReduced(h) && Reduced(b) && Reduced(r)
    ensures Small(Multiply(Add(h, b), r))
  {
    var x := Add(h, b);
    RowBound(x, r.l0, 5 * r.l4, 5 * r.l3, 5 * r.l2, 5 * r.l1);
    RowBound(x, r.l1, r.l0, 5 * r.l4, 5 * r.l3, 5 * r.l2);
    RowBound(x, r.l2, r.l1, r.l0, 5 * r.l4, 5 * r.l3);
    RowBound(x, r.l3, r.l2, r.l1, r.l0, 5 * r.l4);
    RowBound(x, r.l4, r.l3, r.l2, r.l1, r.l0);
  }

  predicate Small(d: Limbs) {
    && d.l0 <= 0x400_0000_0000_0000 && d.l1 <= 0x400_0000_0000_0000 && d.l2 <= 0x400_0000_0000_0000
    && d.l3 <= 0x400_0000_0000_0000 && d.l4 <= 0x400_0000_0000_0000
  }

  // ---------- Carry ----------

  /** One pass of carries from limb 0 to limb 4, and what is carried out of the top. */
  function Ripple(d: Limbs): (Limbs, nat) {
    var t1 := d.l0 / 0x400_0000 + d.l1;
    var t2 := t1 / 0x400_0000 + d.l2;
    var t3 := t2 / 0x400_0000 + d.l3;
    var t4 := t3 / 0x400_0000 + d.l4;
    (Limbs(d.l0 % 0x400_0000, t1 % 0x400_0000, t2 % 0x400_0000, t3 % 0x400_0000, t4 % 0x400_0000), t4 / 0x400_0000)
  }

  /** Adds five times the carry out of the top to limb 0 and carries twice more. */
  function FoldTop(h: Limbs, top: nat): Limbs {
    var f0 := h.l0 + top * 5;
    var f1 := h.l1 + f0 / 0x400_0000;
    Limbs(f0 % 0x400_0000, f1 % 0x400_0000, h.l2 + f1 / 0x400_0000, h.l3, h.l4)
  }

  lemma RippleValue(d: Limbs)
    ensures var (h, top) := Ripple(d);
      Reduced(h) && Value(d) == Value(h) + top * 0x4_0000_0000_0000_0000_0000_0000_0000_0000
    ensures Small(d) ==> Ripple(d).1 <= 0x2_0000_0000
  {
  }

  lemma FoldTopValue(h: Limbs, top: nat)
    requires Reduced(h) && top <= 0x2_0000_0000
    ensures Value(FoldTop(h, top)) == Value(h) + top * 5
    ensures AlmostReduced(FoldTop(h, top))
  {
  }

  function Carry(d: Limbs): Limbs {
    FoldTop(Ripple(d).0, Ripple(d).1)
  }

  lemma CarryValue(d: Limbs)
    requires Small(d)
    ensures Value(d) == Value(Carry(d)) + Ripple(d).1 * P
    ensures AlmostReduced(Carry(d))
  {
    RippleValue(d);
    FoldTopValue(Ripple(d).0, Ripple(d).1);
  }

  // ---------- One step ----------

  /** `h = (h + block) * r`, as the limbs compute it. */
  function Step(h: Limbs, b: Limbs, r: Limbs): Limbs {
    Carry(Multiply(Add(h, b), r))
  }

  lemma MultipleVanishes(a: nat, b: nat, k: nat)
    requires a == b + k * P
    ensures a % P == b % P
  {
    var q, m := b / P, b % P;
    assert b == P * q + m;
    assert P * (q + k) == P * q + P * k;
    QuotientUnique(a, P, q + k, m);
  }

  /** The limbs of a step are congruent to `(h + block) * r`. */
  /** RFC 8439: add a block to the accumulator, multiply by `r`, reduce. */
  function HornerStep(acc: nat, block: nat, r: nat): nat {
    (acc + block) * r % P
  }

  /** The sums of products are the product modulo the prime. */
  lemma ProductCongruent(x: Limbs, r: Limbs, sum: nat, factor: nat, d: Limbs)
    requires sum == Value(x) && factor == Value(r) && d == Multiply(x, r)
    ensures Value(d) % P == sum * factor % P
  {
    MultiplyValue(x, r);
    MultipleVanishes(sum * factor, Value(d), Folded(x, r));
  }

  /** The carry pass keeps the residue. */
  lemma CarryCongruent(d: Limbs, k: Limbs)
    requires Small(d) && k == Carry(d)
    ensures AlmostReduced(k) && Value(k) % P == Value(d) % P
  {
    CarryValue(d);
    MultipleVanishes(Value(d), Value(k), Ripple(d).1);
  }

  lemma AddValue(h: Limbs, b: Limbs, x: Limbs)
    requires x == Add(h, b)
    ensures Value(x) == Value(h) + Value(b)
  {
  }

  lemma SumProductCongruent(h: Limbs, b: Limbs, r: Limbs, d: Limbs)
    requires d == Multiply(Add(h, b), r)
    ensures Value(d) % P == HornerStep(Value(h), Value(b), Value(r))
  {
    AddValue(h, b, Add(h, b));
    ProductCongruent(Add(h, b), r, Value(h) + Value(b), Value(r), d);
  }

  lemma StepValue(h: Limbs, b: Limbs, r: Limbs, d: Limbs, k: Limbs)
    requires AlmostReduced(h) && Reduced(b) && Reduced(r) && d == Multiply(Add(h, b), r) && k == Carry(d)
    ensures AlmostReduced(k) && Value(k) % P == HornerStep(Value(h), Value(b), Value(r))
  {
    MultiplyFits(h, b, r);
    SumProductCongruent(h, b, r, d);
    CarryCongruent(d, k);
  }

  /** Reducing the accumulator before a step changes nothing. */
  lemma ReduceFirst(acc: nat, block: nat, r: nat)
    ensures HornerStep(acc, block, r) == HornerStep(acc % P, block, r)
  {
    var q, m := acc / P, acc % P;
    Distributes(acc, m, q, block, r);
    MultipleVanishes((acc + block) * r, (m + block) * r, q * r);
  }

  lemma Distributes(acc: nat, m: nat, q: nat, block: nat, r: nat)
    requires acc == m + q * P
    ensures (acc + block) * r == (m + block) * r + (q * r) * P
  {
  }

  /** A step keeps the limb bounds and computes `(h + block) * r` modulo 2^130 - 5. */
  lemma StepCongruent(h: Limbs, b: Limbs, r: Limbs)
    requires AlmostReduced(h) && Reduced(b) && Reduced(r)
    ensures AlmostReduced(Step(h, b, r))
    ensures Value(Step(h, b, r)) % P == HornerStep(Value(h) % P, Value(b), Value(r))
  {
    StepValue(h, b, r, Multiply(Add(h, b), r), Step(h, b, r));
    ReduceFirst(Value(h), Value(b), Value(r));
  }
}
