/**
 Poly1305 over a message: the block loop, the Horner polynomial it computes, and the tag. The
 tag agrees with section 2.5 of RFC 8439 exactly when the accumulator needs no final reduction.
 */
module Poly1305 {
  import opened Bytes
  import opened Bits
  import opened Poly1305Limbs

  // ---------- Blocks ----------

  /** A chunk of at most sixteen bytes, a 1 byte, and zeros up to seventeen. */
  function PadBlock(chunk: seq<Byte>): (block: seq<Byte>)
    requires |chunk| <= 16
    ensures |block| == 17
  {
    chunk + [1] + seq(16 - |chunk|, _ => 0)
  }

  function First(msg: seq<Byte>): seq<Byte> {
    if |msg| < 16 then msg else msg[..16]
  }

  function Rest(msg: seq<Byte>): seq<Byte> {
    if |msg| < 16 then [] else msg[16..]
  }

  /** The limbs of a seventeen-byte block; the last byte is bit 24 of limb 4. */
  function BlockLimbs(block: seq<Byte>): Limbs
    requires |block| == 17
  {
    WithTop(Load(block[..16]), block[16])
  }

  function WithTop(low: Limbs, top: nat): Limbs {
    Limbs(low.l0, low.l1, low.l2, low.l3, Or(low.l4, top * 0x100_0000))
  }

  lemma {:induction false} LeValueConcat(a: seq<Byte>, b: seq<Byte>)
    ensures LeValue(a + b) == LeValue(a) + LeValue(b) * Pow2(8 * |a|)
  {
    if a == [] {
      assert a + b == b;
    } else {
      LeValueConcat(a[1..], b);
      assert (a + b)[1..] == a[1..] + b;
      NextBytePower(|a|);
      ScaledProduct(LeValue(b), Pow2(8 * (|a| - 1)), Pow2(8 * |a|));
    }
  }

  lemma NextBytePower(n: nat)
    requires n > 0
    ensures Pow2(8 * n) == 256 * Pow2(8 * (n - 1))
  {
    Pow2Adds(8, 8 * (n - 1));
    assert Pow2(8) == 256 && 8 + 8 * (n - 1) == 8 * n;
  }

  lemma ScaledProduct(x: nat, p: nat, q: nat)
    requires q == 256 * p
    ensures 256 * (x * p) == x * q
  {
  }

  lemma BlockLimbsValue(block: seq<Byte>)
    requires |block| == 17 && block[16] <= 1
    ensures Reduced(BlockLimbs(block)) && Value(BlockLimbs(block)) == LeValue(block)
  {
    LoadBounds(block[..16]);
    LoadValue(block[..16]);
    TopByte(Load(block[..16]).l4, block[16]);
    SeventeenBytes(block);
    WithTopValue(Load(block[..16]), block[16]);
  }

  /** The seventeenth byte counts 2^128. */
  function TopWeight(top: nat): nat {
    top * 0x1_0000_0000_0000_0000_0000_0000_0000_0000
  }

  lemma WithTopValue(low: Limbs, top: nat)
    requires Reduced(low) && low.l4 < 0x100_0000 && top <= 1
    requires Or(low.l4, top * 0x100_0000) == low.l4 + top * 0x100_0000
    ensures Reduced(WithTop(low, top))
    ensures Value(WithTop(low, top)) == Value(low) + TopWeight(top)
  {
  }

  lemma SeventeenBytes(block: seq<Byte>)
    requires |block| == 17
    ensures LeValue(block) == LeValue(block[..16]) + TopWeight(block[16])
  {
    LeValueConcat(block[..16], [block[16]]);
    assert block == block[..16] + [block[16]];
    assert [block[16]][1..] == [];
    assert LeValue([block[16]]) == block[16];
    assert 8 * |block[..16]| == 128;
    Pow2Table();
  }

  lemma TopByte(low: nat, top: nat)
    requires low < 0x100_0000 && top <= 1
    ensures Or(low, top * 0x100_0000) == low + top * 0x100_0000
  {
    Pow2Adds(16, 8);
    assert Pow2(8) == 256 && Pow2(16) == 0x1_0000;
    OrShifted(low, top, 24);
  }

  // ---------- The loop ----------

  /** Folds a message into a state, sixteen bytes at a time, the last chunk possibly short. */
  function Absorb<T>(step: (T, seq<Byte>) -> T, state: T, msg: seq<Byte>): T
    decreases |msg|
  {
    if msg == [] then state else Absorb(step, step(state, First(msg)), Rest(msg))
  }

  /** One block on the limbs, as the code computes it. */
  function ChunkStep(h: Limbs, chunk: seq<Byte>, r: Limbs): Limbs {
    if |chunk| <= 16 then Step(h, BlockLimbs(PadBlock(chunk)), r) else h
  }

  function LimbStep(r: Limbs): (Limbs, seq<Byte>) -> Limbs {
    (h: Limbs, chunk: seq<Byte>) => ChunkStep(h, chunk, r)
  }

  /** One block of RFC 8439, on numbers. */
  function NumberChunk(acc: nat, chunk: seq<Byte>, r: nat): nat {
    if |chunk| <= 16 then HornerStep(acc, LeValue(PadBlock(chunk)), r) else acc
  }

  function NumberStep(r: nat): (nat, seq<Byte>) -> nat {
    (acc: nat, chunk: seq<Byte>) => NumberChunk(acc, chunk, r)
  }

  /** The blocks of the message as coefficients, evaluated at `r` by Horner's rule. */
  function Horner(msg: seq<Byte>, r: nat): nat {
    Absorb(NumberStep(r), 0, msg)
  }

  function FinalLimbs(msg: seq<Byte>, r: Limbs): Limbs {
    Absorb(LimbStep(r), Limbs(0, 0, 0, 0, 0), msg)
  }

  /** Steps on one kind of state follow steps on another, through a view of the first. */
  ghost predicate Follows<S(!new), T>(step: (S, seq<Byte>) -> S, next: (T, seq<Byte>) -> T, good: S -> bool,
                                      view: S -> T) {
    forall s: S, chunk: seq<Byte> :: good(s) && |chunk| <= 16 ==>
      good(step(s, chunk)) && view(step(s, chunk)) == next(view(s), chunk)
  }

  lemma {:induction false} AbsorbFollows<S(!new), T>(step: (S, seq<Byte>) -> S, next: (T, seq<Byte>) -> T,
                                               good: S -> bool, view: S -> T, s: S, msg: seq<Byte>)
    requires Follows(step, next, good, view) && good(s)
    ensures good(Absorb(step, s, msg)) && view(Absorb(step, s, msg)) == Absorb(next, view(s), msg)
    decreases |msg|
  {
    if msg != [] {
      AbsorbFollows(step, next, good, view, step(s, First(msg)), Rest(msg));
    }
  }

  function Residue(h: Limbs): nat {
    Value(h) % P
  }

  lemma ChunkFollows(h: Limbs, chunk: seq<Byte>, r: Limbs, rValue: nat)
    requires AlmostReduced(h) && Reduced(r) && rValue == Value(r) && |chunk| <= 16
    ensures AlmostReduced(ChunkStep(h, chunk, r))
    ensures Residue(ChunkStep(h, chunk, r)) == NumberChunk(Residue(h), chunk, rValue)
  {
    BlockLimbsValue(PadBlock(chunk));
    StepCongruent(h, BlockLimbs(PadBlock(chunk)), r);
  }

  lemma LimbStepFollows(r: Limbs, rValue: nat)
    requires Reduced(r) && rValue == Value(r)
    ensures Follows(LimbStep(r), NumberStep(rValue), AlmostReduced, Residue)
  {
    forall h: Limbs, chunk: seq<Byte> | AlmostReduced(h) && |chunk| <= 16
      ensures AlmostReduced(LimbStep(r)(h, chunk))
      ensures Residue(LimbStep(r)(h, chunk)) == NumberStep(rValue)(Residue(h), chunk)
    {
      ChunkFollows(h, chunk, r, rValue);
    }
  }

  /**
   Over a whole message the limbs stay in bounds and hold the Horner polynomial of the blocks
   modulo 2^130 - 5.
   */
  lemma LimbsHoldHorner(msg: seq<Byte>, r: Limbs, rValue: nat)
    requires Reduced(r) && rValue == Value(r)
    ensures AlmostReduced(FinalLimbs(msg, r))
    ensures Residue(FinalLimbs(msg, r)) == Horner(msg, rValue)
  {
    LimbStepFollows(r, rValue);
    ZeroResidue();
    AbsorbLimbs(LimbStep(r), NumberStep(rValue), Limbs(0, 0, 0, 0, 0), 0, msg);
  }

  lemma ZeroResidue()
    ensures AlmostReduced(Limbs(0, 0, 0, 0, 0)) && Residue(Limbs(0, 0, 0, 0, 0)) == 0
  {
    QuotientUnique(0, P, 0, 0);
  }

  lemma AbsorbLimbs(step: (Limbs, seq<Byte>) -> Limbs, next: (nat, seq<Byte>) -> nat, h: Limbs, acc: nat,
                    msg: seq<Byte>)
    requires Follows(step, next, AlmostReduced, Residue) && AlmostReduced(h) && Residue(h) == acc
    ensures AlmostReduced(Absorb(step, h, msg)) && Residue(Absorb(step, h, msg)) == Absorb(next, acc, msg)
  {
    AbsorbFollows(step, next, AlmostReduced, Residue, h, msg);
  }

  function LimbsOf(h: seq<nat>): Limbs
    requires |h| == 5
  {
    Limbs(h[0], h[1], h[2], h[3], h[4])
  }

  /** `poly1305_accumulate`: products and sums are `u64`, limbs are stored back as `u32`. */
  method Accumulate(h: array<nat>, b: Limbs, r: Limbs)
    requires h.Length == 5 && AlmostReduced(LimbsOf(h[..])) && Reduced(b) && Reduced(r)
    modifies h
    ensures LimbsOf(h[..]) == Step(old(LimbsOf(h[..])), b, r)
    ensures AlmostReduced(LimbsOf(h[..]))
  {
    var k := NextLimbs(LimbsOf(h[..]), b, r);
    Store(h, k);
  }

  method Store(h: array<nat>, k: Limbs)
    requires h.Length == 5
    modifies h
    ensures LimbsOf(h[..]) == k
  {
    h[0], h[1], h[2], h[3], h[4] := k.l0, k.l1, k.l2, k.l3, k.l4;
  }

  method NextLimbs(h: Limbs, b: Limbs, r: Limbs) returns (k: Limbs)
    requires AlmostReduced(h) && Reduced(b) && Reduced(r)
    ensures k == Step(h, b, r) && AlmostReduced(k)
  {
    MultiplyFits(h, b, r);
    StepCongruent(h, b, r);
    var x := Add(h, b);
    var d := SumProducts(x, r);
    k := Propagate(d);
  }

  /** The five sums of products. */
  method SumProducts(x: Limbs, r: Limbs) returns (d: Limbs)
    ensures d == Multiply(x, r)
  {
    var d0 := x.l0 * r.l0 + x.l1 * (5 * r.l4) + x.l2 * (5 * r.l3) + x.l3 * (5 * r.l2) + x.l4 * (5 * r.l1);
    var d1 := x.l0 * r.l1 + x.l1 * r.l0 + x.l2 * (5 * r.l4) + x.l3 * (5 * r.l3) + x.l4 * (5 * r.l2);
    var d2 := x.l0 * r.l2 + x.l1 * r.l1 + x.l2 * r.l0 + x.l3 * (5 * r.l4) + x.l4 * (5 * r.l3);
    var d3 := x.l0 * r.l3 + x.l1 * r.l2 + x.l2 * r.l1 + x.l3 * r.l0 + x.l4 * (5 * r.l4);
    var d4 := x.l0 * r.l4 + x.l1 * r.l3 + x.l2 * r.l2 + x.l3 * r.l1 + x.l4 * r.l0;
    d := Limbs(d0, d1, d2, d3, d4);
  }

  /** The carry pass, in one reassigned `u64` variable. */
  method Propagate(d: Limbs) returns (h: Limbs)
    requires Small(d)
    ensures h == Carry(d)
  {
    var low, top := Chain(d);
    RippleValue(d);
    var h0 := low.l0 + top * 5;
    assert h0 < U64_LIMIT;
    var carry := h0 / 0x400_0000;
    h0 := h0 % 0x400_0000;
    var h1 := low.l1 + carry;
    carry := h1 / 0x400_0000;
    h1 := h1 % 0x400_0000;
    h := Limbs(h0, h1, low.l2 + carry, low.l3, low.l4);
  }

  /** From limb to limb, up to what leaves the top. */
  method Chain(d: Limbs) returns (low: Limbs, top: nat)
    ensures (low, top) == Ripple(d)
  {
    var carry := d.l0 / 0x400_0000;
    var h0 := d.l0 % 0x400_0000;
    carry := carry + d.l1;
    var h1 := carry % 0x400_0000;
    carry := carry / 0x400_0000 + d.l2;
    var h2 := carry % 0x400_0000;
    carry := carry / 0x400_0000 + d.l3;
    var h3 := carry % 0x400_0000;
    carry := carry / 0x400_0000 + d.l4;
    var h4 := carry % 0x400_0000;
    return Limbs(h0, h1, h2, h3, h4), carry / 0x400_0000;
  }

  // ---------- The tag ----------

  /** The limbs ored into 128 bits, plus `s`, modulo 2^128. */
  function TagValue(h: Limbs, s: nat): nat {
    (OrLimbs(h) + s) % 0x1_0000_0000_0000_0000_0000_0000_0000_0000
  }

  /** `h[0] | h[1] << 26 | h[2] << 52 | h[3] << 78 | (h[4] & 0xffffff) << 104`. */
  function OrLimbs(h: Limbs): nat {
    Or(Or(Or(Or(h.l0, h.l1 * 0x400_0000), h.l2 * 0x10_0000_0000_0000), h.l3 * 0x4000_0000_0000_0000_0000),
       (h.l4 % 0x100_0000) * 0x100_0000_0000_0000_0000_0000_0000)
  }

  /** The tag of RFC 8439: the fully reduced accumulator plus `s`, modulo 2^128. */
  function RfcTag(acc: nat, s: nat): nat {
    (acc % P + s) % 0x1_0000_0000_0000_0000_0000_0000_0000_0000
  }

  method Mac(r: seq<Byte>, s: seq<Byte>, msg: seq<Byte>) returns (tag: seq<Byte>)
    requires |r| == 16 && |s| == 16
    ensures tag == LeBytes(TagValue(FinalLimbs(msg, Load(r)), LeValue(s)), 16)
  {
    LoadBounds(r);
    var h := new nat[5](_ => 0);
    AbsorbMessage(h, msg, Load(r));
    tag := LeBytes(TagValue(LimbsOf(h[..]), LeValue(s)), 16);
  }

  /** The block loop: full chunks, then the remainder if there is one. */
  method AbsorbMessage(h: array<nat>, msg: seq<Byte>, r: Limbs)
    requires h.Length == 5 && AlmostReduced(LimbsOf(h[..])) && Reduced(r)
    modifies h
    ensures LimbsOf(h[..]) == Absorb(LimbStep(r), old(LimbsOf(h[..])), msg)
  {
    ghost var step, zero := LimbStep(r), LimbsOf(h[..]);
    var left := msg;
    while |left| >= 16
      invariant AlmostReduced(LimbsOf(h[..]))
      invariant Absorb(step, LimbsOf(h[..]), left) == Absorb(step, zero, msg)
      decreases |left|
    {
      AbsorbChunk(h, left[..16], r);
      left := left[16..];
    }
    if left != [] {
      AbsorbChunk(h, left, r);
    }
  }

  method AbsorbChunk(h: array<nat>, chunk: seq<Byte>, r: Limbs)
    requires h.Length == 5 && AlmostReduced(LimbsOf(h[..])) && Reduced(r) && |chunk| <= 16
    modifies h
    ensures LimbsOf(h[..]) == LimbStep(r)(old(LimbsOf(h[..])), chunk)
    ensures AlmostReduced(LimbsOf(h[..]))
  {
    BlockLimbsValue(PadBlock(chunk));
    Accumulate(h, BlockLimbs(PadBlock(chunk)), r);
  }

  // ---------- When the tag is the tag of RFC 8439 ----------

  /** Limb 2 is 2^26 and its carry collides with the lowest bit of limb 3. */
  predicate CarryLost(h: Limbs) {
    h.l2 == 0x400_0000 && h.l3 % 2 == 1
  }

  lemma {:induction false} OrAligned(low: nat, a: nat, b: nat, k: nat)
    requires low < Pow2(k)
    ensures Or(low + a * Pow2(k), b * Pow2(k)) == low + Or(a, b) * Pow2(k)
    decreases k
  {
    if k == 0 {
      assert a * Pow2(0) == a && b * Pow2(0) == b && Or(a, b) * Pow2(0) == Or(a, b);
    } else {
      var p := Pow2(k - 1);
      DoubleProduct(a, p);
      DoubleProduct(b, p);
      DoubleProduct(Or(a, b), p);
      OrAligned(low / 2, a, b, k - 1);
      OrBits(low + a * Pow2(k), b * Pow2(k), low / 2 + a * p, b * p, low % 2);
    }
  }

  lemma OrBits(x: nat, y: nat, x2: nat, y2: nat, bit: nat)
    requires bit < 2 && x == 2 * x2 + bit && y == 2 * y2
    ensures Or(x, y) == bit + 2 * Or(x2, y2)
  {
    assert x / 2 == x2 && x % 2 == bit && y / 2 == y2 && y % 2 == 0;
    OrUnfold(x, y);
  }

  lemma OrUnfold(x: nat, y: nat)
    ensures Or(x, y) == (if x % 2 == 1 || y % 2 == 1 then 1 else 0) + 2 * Or(x / 2, y / 2)
  {
  }

  lemma OrOne(n: nat)
    ensures Or(1, n) == if n % 2 == 0 then n + 1 else n
  {
    OrUnfold(1, n);
    OrZero(n / 2);
  }

  lemma LimbPowers()
    ensures Pow2(26) == 0x400_0000 && Pow2(52) == 0x10_0000_0000_0000
    ensures Pow2(78) == 0x4000_0000_0000_0000_0000
    ensures Pow2(104) == 0x100_0000_0000_0000_0000_0000_0000
  {
    Pow2Table();
    Pow2Adds(26, 26);
    Pow2Adds(52, 26);
    Pow2Adds(52, 52);
  }

  /** The ored limbs are the low 128 bits of the accumulator, unless the carry is lost. */
  lemma OrLimbsValue(h: Limbs)
    requires AlmostReduced(h)
    ensures OrLimbs(h) == h.l0 + h.l1 * 0x400_0000 + h.l2 * 0x10_0000_0000_0000 + h.l3 * 0x4000_0000_0000_0000_0000
      + h.l4 % 0x100_0000 * 0x100_0000_0000_0000_0000_0000_0000
      - (if CarryLost(h) then 0x4000_0000_0000_0000_0000 else 0)
  {
    var m1, m2, m3 := h.l1 * 0x400_0000, h.l2 * 0x10_0000_0000_0000, h.l3 * 0x4000_0000_0000_0000_0000;
    var m4 := h.l4 % 0x100_0000 * 0x100_0000_0000_0000_0000_0000_0000;
    var lost := if CarryLost(h) then 0x4000_0000_0000_0000_0000 else 0;
    var low := h.l0 + m1;
    var three := low + m2 + m3 - lost;
    OrFirst(h.l0, h.l1, m1);
    OrSecond(low, h.l2, m2);
    OrThird(low, h.l2, h.l3, m2, m3, three);
    OrFourth(three, h.l4 % 0x100_0000, m4);
    OrChain(h.l0, m1, m2, m3, m4, low, low + m2, three, three + m4);
  }

  lemma OrChain(l0: nat, m1: nat, m2: nat, m3: nat, m4: nat, v1: nat, v2: nat, v3: nat, v4: nat)
    requires Or(l0, m1) == v1 && Or(v1, m2) == v2 && Or(v2, m3) == v3 && Or(v3, m4) == v4
    ensures Or(Or(Or(Or(l0, m1), m2), m3), m4) == v4
  {
  }

  /** Numbers whose bits do not meet. */
  lemma OrAt(low: nat, n: nat, k: nat, unit: nat, m: nat)
    requires unit == Pow2(k) && low < unit && m == n * unit
    ensures Or(low, m) == low + m
  {
    OrShifted(low, n, k);
  }

  lemma OrFirst(l0: nat, l1: nat, m1: nat)
    requires l0 < 0x400_0000 && m1 == l1 * 0x400_0000
    ensures Or(l0, m1) == l0 + m1
  {
    LimbPowers();
    OrAt(l0, l1, 26, 0x400_0000, m1);
  }

  lemma OrSecond(low: nat, l2: nat, m2: nat)
    requires low < 0x10_0000_0000_0000 && m2 == l2 * 0x10_0000_0000_0000
    ensures Or(low, m2) == low + m2
  {
    LimbPowers();
    OrAt(low, l2, 52, 0x10_0000_0000_0000, m2);
  }

  lemma OrThird(low: nat, l2: nat, l3: nat, m2: nat, m3: nat, v: int)
    requires low < 0x10_0000_0000_0000 && l2 <= 0x400_0000
    requires m2 == l2 * 0x10_0000_0000_0000 && m3 == l3 * 0x4000_0000_0000_0000_0000
    requires v == low + m2 + m3 - (if l2 == 0x400_0000 && l3 % 2 == 1 then 0x4000_0000_0000_0000_0000 else 0)
    ensures Or(low + m2, m3) == v
    ensures l3 < 0x400_0000 ==> v < 0x100_0000_0000_0000_0000_0000_0000
  {
    LimbPowers();
    if l2 < 0x400_0000 {
      OrAt(low + m2, l3, 78, 0x4000_0000_0000_0000_0000, m3);
    } else {
      OrMeeting(low, l3, 78, 0x4000_0000_0000_0000_0000, m3);
    }
  }

  /** Numbers whose bits meet in one place. */
  lemma OrMeeting(low: nat, n: nat, k: nat, unit: nat, m: nat)
    requires unit == Pow2(k) && low < unit && m == n * unit
    ensures Or(low + unit, m) == low + m + (if n % 2 == 1 then 0 else unit)
  {
    OrAligned(low, 1, n, k);
    OrOne(n);
    assert (n + 1) * unit == m + unit;
  }

  lemma OrFourth(three: nat, top: nat, m4: nat)
    requires three < 0x100_0000_0000_0000_0000_0000_0000 && m4 == top * 0x100_0000_0000_0000_0000_0000_0000
    ensures Or(three, m4) == three + m4
  {
    LimbPowers();
    OrAt(three, top, 104, 0x100_0000_0000_0000_0000_0000_0000, m4);
  }

  /** Adding `e` leaves a number unchanged modulo 2^128 exactly when `e` is a multiple of 2^128. */
  lemma ShiftModulo(x: int, e: int)
    ensures (x + e) % 0x1_0000_0000_0000_0000_0000_0000_0000_0000 == x % 0x1_0000_0000_0000_0000_0000_0000_0000_0000
       <==> e % 0x1_0000_0000_0000_0000_0000_0000_0000_0000 == 0
  {
  }

  lemma ReduceOnce(v: nat)
    requires v < 2 * P
    ensures v % P == if v < P then v else v - P
  {
    if v < P {
      QuotientUnique(v, P, 0, v);
    } else {
      QuotientUnique(v, P, 1, v - P);
    }
  }

  /**
   The tag is the one of RFC 8439 exactly when the accumulator is below 2^130 - 5 and no carry
   is lost: the code neither reduces fully nor carries out of limb 2 before it ors the limbs.
   */
  lemma TagMatches(h: Limbs, s: nat)
    requires AlmostReduced(h)
    ensures TagValue(h, s) == RfcTag(Value(h), s) <==> Value(h) < P && !CarryLost(h)
  {
    OrLimbsMiss(h);
    MissesVanish(h);
    SameTag(OrLimbs(h), Value(h) % P, s, Misses(h));
  }

  lemma SameTag(ored: int, residue: int, s: int, e: int)
    requires ored == residue + e
    ensures (ored + s) % 0x1_0000_0000_0000_0000_0000_0000_0000_0000
         == (residue + s) % 0x1_0000_0000_0000_0000_0000_0000_0000_0000
       <==> e % 0x1_0000_0000_0000_0000_0000_0000_0000_0000 == 0
  {
    ShiftModulo(residue + s, e);
  }

  /** By how much the ored limbs miss the reduced accumulator. */
  function Misses(h: Limbs): int {
    (if Value(h) < P then 0 else P) - (if CarryLost(h) then 0x4000_0000_0000_0000_0000 else 0)
    - h.l4 / 0x100_0000 * 0x1_0000_0000_0000_0000_0000_0000_0000_0000
  }

  lemma MissesVanish(h: Limbs)
    ensures Misses(h) % 0x1_0000_0000_0000_0000_0000_0000_0000_0000 == 0 <==> Value(h) < P && !CarryLost(h)
  {
    ErrorVanishes(Value(h) < P, CarryLost(h), h.l4 / 0x100_0000);
  }

  lemma OrLimbsMiss(h: Limbs)
    requires AlmostReduced(h)
    ensures OrLimbs(h) == Value(h) % P + Misses(h)
  {
    OrLimbsValue(h);
    assert Value(h) < 2 * P;
    ReduceOnce(Value(h));
  }

  /** Over a whole message: the tag is the Horner polynomial plus `s` modulo 2^128 in just those cases. */
  lemma MacMatches(msg: seq<Byte>, r: Limbs, s: nat, h: Limbs, horner: nat)
    requires Reduced(r) && h == FinalLimbs(msg, r) && horner == Horner(msg, Value(r))
    ensures TagValue(h, s) == Plus128(horner, s) <==> Value(h) < P && !CarryLost(h)
  {
    LimbsHoldHorner(msg, r, Value(r));
    TagMatches(h, s);
    RfcTagOfResidue(Value(h), horner, s);
  }

  function Plus128(a: nat, b: nat): nat {
    (a + b) % 0x1_0000_0000_0000_0000_0000_0000_0000_0000
  }

  lemma RfcTagOfResidue(v: nat, residue: nat, s: nat)
    requires v % P == residue
    ensures RfcTag(v, s) == Plus128(residue, s)
  {
  }

  lemma ErrorVanishes(reduced: bool, lost: bool, top: nat)
    ensures ((if reduced then 0 else P) - (if lost then 0x4000_0000_0000_0000_0000 else 0)
             - top * 0x1_0000_0000_0000_0000_0000_0000_0000_0000)
            % 0x1_0000_0000_0000_0000_0000_0000_0000_0000 == 0
       <==> reduced && !lost
  {
  }

  // A clamped key of value 1 and thirty-two bytes of 0xff leave the accumulator at 2^130 - 2.

  function One(): Limbs { Limbs(1, 0, 0, 0, 0) }
  function Ones(): Limbs { Limbs(0x3ff_ffff, 0x3ff_ffff, 0x3ff_ffff, 0x3ff_ffff, 0x1ff_ffff) }
  function Unreduced(): Limbs { Limbs(0x3ff_fffe, 0x3ff_ffff, 0x3ff_ffff, 0x3ff_ffff, 0x3ff_ffff) }

  lemma OnesBlock(chunk: seq<Byte>)
    requires chunk == seq(16, _ => 255)
    ensures BlockLimbs(PadBlock(chunk)) == Ones()
  {
    assert PadBlock(chunk)[..16] == chunk && PadBlock(chunk)[16] == 1;
    assert Load(chunk) == Limbs(0x3ff_ffff, 0x3ff_ffff, 0x3ff_ffff, 0x3ff_ffff, 0xff_ffff);
    TopByte(0xff_ffff, 1);
  }

  lemma KeyOne()
    ensures Load(LeBytes(1, 16)) == One()
  {
    Pow2Table();
    LeValueOfBytes(1, 16);
    LoadBounds(LeBytes(1, 16));
    LoadValue(LeBytes(1, 16));
    ValueOne(Load(LeBytes(1, 16)));
  }

  lemma ValueOne(h: Limbs)
    requires Value(h) == 1
    ensures h == One()
  {
  }

  lemma TimesOne(x: Limbs)
    ensures Multiply(x, One()) == x
  {
  }

  lemma StepByOne(h: Limbs, b: Limbs, one: Limbs, x: Limbs, k: Limbs)
    requires one == One() && x == Add(h, b) && k == Carry(x)
    ensures Step(h, b, one) == k
  {
    TimesOne(x);
  }

  lemma AddNothing(zero: Limbs, x: Limbs)
    requires zero == Limbs(0, 0, 0, 0, 0)
    ensures Add(zero, x) == x
  {
  }

  lemma OnesCarry(ones: Limbs)
    requires ones == Ones()
    ensures Carry(ones) == ones
  {
    CarryIs(ones, ones, 0, 0, 0, 0);
  }

  lemma FirstStep(zero: Limbs, ones: Limbs, one: Limbs)
    requires zero == Limbs(0, 0, 0, 0, 0) && Carry(ones) == ones && one == One()
    ensures Step(zero, ones, one) == ones
  {
    AddNothing(zero, ones);
    StepByOne(zero, ones, one, ones, ones);
  }

  lemma SecondStep(ones: Limbs, one: Limbs, twice: Limbs, k: Limbs)
    requires ones == Ones() && one == One() && k == Unreduced()
    requires twice == Limbs(0x7ff_fffe, 0x7ff_fffe, 0x7ff_fffe, 0x7ff_fffe, 0x3ff_fffe)
    ensures Step(ones, ones, one) == k
  {
    CarryIs(twice, k, 1, 1, 1, 1);
    assert Add(ones, ones) == twice;
    StepByOne(ones, ones, one, twice, k);
  }

  /** Carries given limb by limb, with nothing carried out of the top. */
  lemma CarryIs(d: Limbs, h: Limbs, k0: nat, k1: nat, k2: nat, k3: nat)
    requires Reduced(h)
    requires d.l0 == h.l0 + k0 * 0x400_0000 && d.l1 + k0 == h.l1 + k1 * 0x400_0000
    requires d.l2 + k1 == h.l2 + k2 * 0x400_0000 && d.l3 + k2 == h.l3 + k3 * 0x400_0000 && d.l4 + k3 == h.l4
    ensures Carry(d) == h
  {
    Split(d.l0, k0, h.l0);
    Split(d.l1 + k0, k1, h.l1);
    Split(d.l2 + k1, k2, h.l2);
    Split(d.l3 + k2, k3, h.l3);
    Split(d.l4 + k3, 0, h.l4);
    assert Ripple(d) == (h, 0);
    Split(h.l0, 0, h.l0);
    Split(h.l1, 0, h.l1);
  }

  lemma Split(n: nat, q: nat, m: nat)
    requires n == m + q * 0x400_0000 && m < 0x400_0000
    ensures n / 0x400_0000 == q && n % 0x400_0000 == m
  {
  }

  lemma AbsorbTwice<T>(step: (T, seq<Byte>) -> T, state: T, next: T, last: T, chunk: seq<Byte>)
    requires |chunk| == 16 && step(state, chunk) == next && step(next, chunk) == last
    ensures Absorb(step, state, chunk + chunk) == last
  {
    assert First(chunk + chunk) == chunk && Rest(chunk + chunk) == chunk && First(chunk) == chunk && Rest(chunk) == [];
    assert Absorb(step, last, []) == last;
    assert Absorb(step, next, chunk) == last;
  }

  lemma OnesChunk(h: Limbs, chunk: seq<Byte>, one: Limbs, k: Limbs)
    requires chunk == seq(16, _ => 255) && k == Step(h, Ones(), one)
    ensures LimbStep(one)(h, chunk) == k
  {
    OnesBlock(chunk);
  }

  lemma FirstChunk(chunk: seq<Byte>, zero: Limbs, one: Limbs, ones: Limbs)
    requires chunk == seq(16, _ => 255) && zero == Limbs(0, 0, 0, 0, 0) && one == One() && ones == Ones()
    ensures LimbStep(one)(zero, chunk) == ones
  {
    OnesCarry(ones);
    FirstStep(zero, ones, one);
    OnesChunk(zero, chunk, one, ones);
  }

  lemma SecondChunk(chunk: seq<Byte>, one: Limbs, ones: Limbs, last: Limbs)
    requires chunk == seq(16, _ => 255) && one == One() && ones == Ones() && last == Unreduced()
    ensures LimbStep(one)(ones, chunk) == last
  {
    SecondStep(ones, one, Limbs(0x7ff_fffe, 0x7ff_fffe, 0x7ff_fffe, 0x7ff_fffe, 0x3ff_fffe), last);
    OnesChunk(ones, chunk, one, last);
  }

  lemma FinalOnes(chunk: seq<Byte>, zero: Limbs, one: Limbs, ones: Limbs, last: Limbs)
    requires chunk == seq(16, _ => 255) && zero == Limbs(0, 0, 0, 0, 0)
    requires one == One() && ones == Ones() && last == Unreduced()
    ensures Absorb(LimbStep(one), zero, chunk + chunk) == last
  {
    FirstChunk(chunk, zero, one, ones);
    SecondChunk(chunk, one, ones, last);
    AbsorbTwice(LimbStep(one), zero, ones, last, chunk);
  }

  /** For that key and message the tag is not the tag of RFC 8439, whatever `s` is. */
  lemma TagDiffers(chunk: seq<Byte>, h: Limbs, s: nat)
    requires chunk == seq(16, _ => 255) && h == FinalLimbs(chunk + chunk, Load(LeBytes(1, 16)))
    ensures TagValue(h, s) != RfcTag(Value(h), s)
  {
    KeyOne();
    FinalOnes(chunk, Limbs(0, 0, 0, 0, 0), Load(LeBytes(1, 16)), Ones(), Unreduced());
    TagMatches(h, s);
  }
}
