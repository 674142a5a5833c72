/** Bit streams, least significant bit first, and the bit operations of unsigned integers. */
module Bits {
  import opened Bytes

  function BitsOf(value: nat, count: nat): (bits: seq<bool>)
    ensures |bits| == count
  {
    if count == 0 then [] else [value % 2 == 1] + BitsOf(value / 2, count - 1)
  }

  function ValueOf(bits: seq<bool>): nat {
    if bits == [] then 0 else (if bits[0] then 1 else 0) + 2 * ValueOf(bits[1..])
  }

  /** The bits of a byte string. */
  function ByteBits(bytes: seq<Byte>): (bits: seq<bool>)
    ensures |bits| == 8 * |bytes|
  {
    if bytes == [] then [] else ByteBits(bytes[..|bytes| - 1]) + BitsOf(bytes[|bytes| - 1], 8)
  }

  lemma {:induction false} ValueOfBits(value: nat, count: nat)
    requires value < Pow2(count)
    ensures ValueOf(BitsOf(value, count)) == value
  {
    if count > 0 {
      ValueOfBits(value / 2, count - 1);
      assert BitsOf(value, count)[1..] == BitsOf(value / 2, count - 1);
    }
  }

  lemma {:induction false} BitsOfValue(bits: seq<bool>)
    ensures ValueOf(bits) < Pow2(|bits|)
    ensures BitsOf(ValueOf(bits), |bits|) == bits
  {
    if bits != [] {
      BitsOfValue(bits[1..]);
      assert bits == [bits[0]] + bits[1..];
    }
  }

  /** The low `k` bits and the rest, written separately. */
  lemma {:induction false} BitsSplit(low: nat, high: nat, k: nat, n: nat)
    requires low < Pow2(k)
    ensures BitsOf(low + high * Pow2(k), k + n) == BitsOf(low, k) + BitsOf(high, n)
    decreases k
  {
    if k == 0 {
      assert high * Pow2(0) == high;
    } else {
      var rest := low / 2 + high * Pow2(k - 1);
      DoubleProduct(high, Pow2(k - 1));
      var whole := low + high * Pow2(k);
      assert whole == low + 2 * (high * Pow2(k - 1));
      assert whole / 2 == rest && whole % 2 == low % 2;
      BitsSplit(low / 2, high, k - 1, n);
      assert BitsOf(whole, k + n) == [low % 2 == 1] + BitsOf(rest, k - 1 + n);
      assert [low % 2 == 1] + (BitsOf(low / 2, k - 1) + BitsOf(high, n))
          == ([low % 2 == 1] + BitsOf(low / 2, k - 1)) + BitsOf(high, n);
    }
  }

  lemma DoubleProduct(a: nat, b: nat)
    ensures a * (2 * b) == 2 * (a * b)
  {
  }

  // ---------- Bitwise or ----------

  function Or(a: nat, b: nat): nat {
    if a == 0 && b == 0 then 0
    else (if a % 2 == 1 || b % 2 == 1 then 1 else 0) + 2 * Or(a / 2, b / 2)
  }

  /** Oring in a value shifted past the occupied bits adds it. */
  lemma {:induction false} OrShifted(low: nat, high: nat, k: nat)
    requires low < Pow2(k)
    ensures Or(low, high * Pow2(k)) == low + high * Pow2(k)
    decreases k
  {
    if k == 0 {
      assert high * Pow2(0) == high;
      OrZero(high);
    } else {
      DoubleProduct(high, Pow2(k - 1));
      OrShifted(low / 2, high, k - 1);
      var shifted := high * Pow2(k);
      assert shifted == 2 * (high * Pow2(k - 1));
      assert shifted / 2 == high * Pow2(k - 1) && shifted % 2 == 0;
    }
  }

  lemma {:induction false} OrZero(n: nat)
    ensures Or(0, n) == n
  {
    if n > 0 {
      OrZero(n / 2);
    }
  }

  // ---------- Bitwise exclusive or ----------

  predicate Odd(n: nat) { n % 2 == 1 }

  function Xor(a: nat, b: nat): nat {
    if a == 0 && b == 0 then 0 else (if Odd(a) != Odd(b) then 1 else 0) + 2 * Xor(a / 2, b / 2)
  }

  lemma {:induction false} XorCommutes(a: nat, b: nat)
    ensures Xor(a, b) == Xor(b, a)
  {
    if a > 0 || b > 0 {
      XorCommutes(a / 2, b / 2);
    }
  }

  lemma XorHalves(a: nat, b: nat)
    ensures Xor(a, b) / 2 == Xor(a / 2, b / 2) && (Odd(Xor(a, b)) <==> Odd(a) != Odd(b))
  {
  }

  lemma {:induction false} XorAssociates(a: nat, b: nat, c: nat)
    ensures Xor(Xor(a, b), c) == Xor(a, Xor(b, c))
    decreases a + b + c
  {
    if a > 0 || b > 0 || c > 0 {
      XorAssociates(a / 2, b / 2, c / 2);
      XorAssociatesStep(a, b, c, Xor(Xor(a, b), c), Xor(a, Xor(b, c)));
    }
  }

  lemma XorAssociatesStep(a: nat, b: nat, c: nat, m: nat, n: nat)
    requires m == Xor(Xor(a, b), c) && n == Xor(a, Xor(b, c))
    requires Xor(Xor(a / 2, b / 2), c / 2) == Xor(a / 2, Xor(b / 2, c / 2))
    ensures m == n
  {
    LeftHalves(a, b, c, Xor(a, b));
    RightHalves(a, b, c, Xor(b, c));
    SameHalves(m, n);
  }

  lemma LeftHalves(a: nat, b: nat, c: nat, left: nat)
    requires left == Xor(a, b)
    ensures Xor(left, c) / 2 == Xor(Xor(a / 2, b / 2), c / 2)
    ensures Odd(Xor(left, c)) <==> (Odd(a) != Odd(b)) != Odd(c)
  {
    XorHalves(a, b);
    XorHalves(left, c);
  }

  lemma RightHalves(a: nat, b: nat, c: nat, right: nat)
    requires right == Xor(b, c)
    ensures Xor(a, right) / 2 == Xor(a / 2, Xor(b / 2, c / 2))
    ensures Odd(Xor(a, right)) <==> (Odd(a) != Odd(b)) != Odd(c)
  {
    XorHalves(b, c);
    XorHalves(a, right);
  }

  lemma SameHalves(m: nat, n: nat)
    requires m / 2 == n / 2 && Odd(m) == Odd(n)
    ensures m == n
  {
  }

  lemma {:induction false} XorSelf(a: nat)
    ensures Xor(a, 0) == a && Xor(a, a) == 0
  {
    if a > 0 {
      XorSelf(a / 2);
    }
  }

  lemma {:induction false} XorFits(a: nat, b: nat, bits: nat)
    requires a < Pow2(bits) && b < Pow2(bits)
    ensures Xor(a, b) < Pow2(bits)
    decreases bits
  {
    if bits > 0 {
      XorFits(a / 2, b / 2, bits - 1);
    }
  }

  /** `value << k` in 64 bits. */
  function Shl64(value: nat, k: nat): nat {
    value * Pow2(k) % U64_LIMIT
  }

  /** A value of `n` bits shifted by `k` with `k + n <= 64` loses nothing. */
  lemma Shl64Exact(low: nat, value: nat, n: nat, k: nat)
    requires low < Pow2(k) && value < Pow2(n) && k + n <= 64
    ensures Shl64(value, k) == value * Pow2(k)
    ensures low + value * Pow2(k) < Pow2(k + n)
  {
    Pow2Table();
    Pow2Monotone(k + n, 64);
    Pow2Adds(k, n);
    ProductMonotone(Pow2(k), value + 1, Pow2(n));
    assert Pow2(k) * (value + 1) == value * Pow2(k) + Pow2(k);
  }

  // ---------- Bytes as bits ----------

  /** Bit `j` is what shifting right by `j` leaves lowest. */
  lemma {:induction false} BitAt(value: nat, n: nat, j: nat)
    requires j < n
    ensures BitsOf(value, n)[j] == (Shr(value, j) % 2 == 1)
    decreases j
  {
    if j > 0 {
      BitAt(value / 2, n - 1, j - 1);
    }
  }

  lemma {:induction false} ByteBitAt(bytes: seq<Byte>, i: nat, j: nat)
    requires i < |bytes| && j < 8
    ensures ByteBits(bytes)[8 * i + j] == (Shr(bytes[i], j) % 2 == 1)
    decreases |bytes|
  {
    var last := |bytes| - 1;
    if i < last {
      ByteBitAt(bytes[..last], i, j);
    } else {
      BitAt(bytes[i], 8, j);
    }
  }

  lemma ByteBitsBehind(bytes: seq<Byte>, b: Byte)
    ensures ByteBits(bytes + [b]) == ByteBits(bytes) + BitsOf(b, 8)
  {
    assert (bytes + [b])[..|bytes|] == bytes;
  }

  lemma {:induction false} ByteBitsConcat(a: seq<Byte>, b: seq<Byte>)
    ensures ByteBits(a + b) == ByteBits(a) + ByteBits(b)
    decreases |b|
  {
    if b == [] {
      assert a + b == a && ByteBits(a) + [] == ByteBits(a);
    } else {
      var head, last := b[..|b| - 1], b[|b| - 1];
      assert b == head + [last];
      Reassociate(a, head, [last]);
      ByteBitsConcat(a, head);
      ByteBitsBehind(a + head, last);
      ByteBitsBehind(head, last);
      Reassociate(ByteBits(a), ByteBits(head), BitsOf(last, 8));
    }
  }

  lemma ByteBitsOne(b: Byte)
    ensures ByteBits([b]) == BitsOf(b, 8)
  {
    assert [b][..0] == [];
    assert ByteBits([b]) == [] + BitsOf(b, 8);
  }

  /** The lowest byte of a buffer, and the rest. */
  lemma LowByte(value: nat, n: nat)
    requires n >= 8
    ensures BitsOf(value, n) == BitsOf(value % 256, 8) + BitsOf(value / 256, n - 8)
    ensures value < Pow2(n) ==> value / 256 < Pow2(n - 8)
  {
    LowByteAt(value, value % 256, value / 256, n, n - 8);
  }

  lemma LowByteAt(value: nat, low: nat, high: nat, n: nat, k: nat)
    requires n == 8 + k && value == low + high * 256 && low < 256
    ensures BitsOf(value, n) == BitsOf(low, 8) + BitsOf(high, k)
    ensures value < Pow2(n) ==> high < Pow2(k)
  {
    SmallPowers();
    BitsSplit(low, high, 8, k);
    Pow2Adds(8, k);
  }

  lemma {:induction false} LeBits(value: nat, width: nat)
    ensures ByteBits(LeBytes(value, width)) == BitsOf(value, 8 * width)
  {
    if width > 0 {
      LeBits(value / 256, width - 1);
      ByteBitsConcat([value % 256], LeBytes(value / 256, width - 1));
      ByteBitsOne(value % 256);
      LowByte(value, 8 * width);
    }
  }

  /** Appending a bit adds its weight. */
  lemma {:induction false} ValueOfAppend(bits: seq<bool>, bit: bool)
    ensures ValueOf(bits + [bit]) == ValueOf(bits) + (if bit then Pow2(|bits|) else 0)
  {
    if bits == [] {
      assert ValueOf([bit][1..]) == 0;
    } else {
      ValueOfAppend(bits[1..], bit);
      assert (bits + [bit])[1..] == bits[1..] + [bit];
    }
  }

  lemma {:induction false} ValueOfConcat(a: seq<bool>, b: seq<bool>)
    ensures ValueOf(a + b) == ValueOf(a) + ValueOf(b) * Pow2(|a|)
  {
    if a == [] {
      assert a + b == b;
    } else {
      ValueOfConcat(a[1..], b);
      assert (a + b)[1..] == a[1..] + b;
      DoubleProduct(ValueOf(b), Pow2(|a| - 1));
    }
  }
}
