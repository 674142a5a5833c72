/** Bytes, powers of two and fixed-width integers, shared by every component. */
module Bytes {

  type Byte = b: nat | b < 256

  const U32_LIMIT := 0x1_0000_0000
  const U63_LIMIT := 0x8000_0000_0000_0000
  const U64_LIMIT := 0x1_0000_0000_0000_0000

  datatype Option<+T> = None | Some(value: T)

  /** A value in range for the machine type of the given width in bits. */
  predicate Fits(value: nat, bits: nat) {
    value < Pow2(bits)
  }

  /** `1 << n`. */
  function Pow2(n: nat): (p: nat)
    ensures p > 0
  {
    if n == 0 then 1 else 2 * Pow2(n - 1)
  }

  /** `n << k`. */
  function Shl(n: nat, k: nat): nat {
    n * Pow2(k)
  }

  /** `n >> k`. */
  function Shr(n: nat, k: nat): nat {
    if k == 0 then n else Shr(n / 2, k - 1)
  }

  lemma {:induction false} ShrMonotone(a: nat, b: nat, k: nat)
    requires a <= b
    ensures Shr(a, k) <= Shr(b, k)
  {
    if k > 0 {
      ShrMonotone(a / 2, b / 2, k - 1);
    }
  }

  lemma {:induction false} ShrBound(n: nat, bits: nat, k: nat)
    requires n < Pow2(bits) && k <= bits
    ensures Shr(n, k) < Pow2(bits - k)
    decreases k
  {
    if k > 0 {
      ShrBound(n / 2, bits - 1, k - 1);
    }
  }

  lemma {:induction false} Pow2Adds(a: nat, b: nat)
    ensures Pow2(a + b) == Pow2(a) * Pow2(b)
  {
    if a == 0 {
    } else {
      Pow2Adds(a - 1, b);
      assert Pow2(a + b) == 2 * Pow2((a - 1) + b);
      assert 2 * (Pow2(a - 1) * Pow2(b)) == (2 * Pow2(a - 1)) * Pow2(b);
    }
  }

  lemma {:induction false} Pow2Monotone(a: nat, b: nat)
    requires a <= b
    ensures Pow2(a) <= Pow2(b)
    decreases b
  {
    if a < b {
      Pow2Monotone(a, b - 1);
    }
  }

  lemma SmallPowers()
    ensures Pow2(0) == 1 && Pow2(1) == 2 && Pow2(2) == 4 && Pow2(3) == 8 && Pow2(4) == 16
    ensures Pow2(5) == 32 && Pow2(6) == 64 && Pow2(7) == 128 && Pow2(8) == 256
  {
  }

  lemma Pow2Table()
    ensures Pow2(8) == 256 && Pow2(16) == 0x1_0000 && Pow2(26) == 0x400_0000 && Pow2(32) == 0x1_0000_0000
    ensures Pow2(63) == 0x8000_0000_0000_0000
    ensures Pow2(64) == 0x1_0000_0000_0000_0000
    ensures Pow2(128) == 0x1_0000_0000_0000_0000 * 0x1_0000_0000_0000_0000
  {
    SmallPowers();
    assert Pow2(10) == 1024;
    Pow2Adds(8, 8);
    Pow2Adds(16, 10);
    Pow2Adds(16, 16);
    Pow2Adds(32, 32);
    Pow2Adds(64, 64);
    assert Pow2(64) == 2 * Pow2(63);
  }

  /** A value of at most eight bits is a byte. */
  lemma FitsByte(value: nat, bits: nat)
    requires value < Pow2(bits) && bits <= 8
    ensures value < 256
  {
    Pow2Monotone(bits, 8);
    assert Pow2(8) == 256;
  }

  lemma QuotientAtMost(n: nat, d: nat)
    requires d > 0
    ensures n / d <= n
  {
    var q := n / d;
    assert n == d * q + n % d;
    if d > 1 {
      ProductGrows(d - 1, q);
      assert d * q == q + (d - 1) * q;
    }
  }

  lemma DivMonotone(a: nat, b: nat, d: nat)
    requires d > 0 && a <= b
    ensures a / d <= b / d
  {
    var p, q := a / d, b / d;
    assert a == d * p + a % d && b == d * q + b % d;
    assert d * (q + 1) == d * q + d;
    if p > q {
      ProductMonotone(d, q + 1, p);
    }
  }

  lemma ProductMonotone(d: nat, a: nat, b: nat)
    requires a <= b
    ensures d * a <= d * b
  {
    assert d * b - d * a == d * (b - a);
  }

  lemma QuotientUnique(n: nat, d: nat, q: nat, r: nat)
    requires d > 0 && n == d * q + r && r < d
    ensures n / d == q && n % d == r
  {
    var p := n / d;
    assert n == d * p + n % d;
    assert d * (p + 1) == d * p + d && d * (q + 1) == d * q + d;
    if p < q {
      ProductMonotone(d, p + 1, q);
    } else if q < p {
      ProductMonotone(d, q + 1, p);
    }
  }

  lemma ProductGrows(a: nat, b: nat)
    requires a > 0
    ensures a * b >= b
  {
    assert a * b - b == (a - 1) * b;
  }

  /** `to_le_bytes` of an unsigned integer of `width` bytes. */
  function LeBytes(value: nat, width: nat): (bytes: seq<Byte>)
    ensures |bytes| == width
  {
    if width == 0 then [] else [value % 256] + LeBytes(value / 256, width - 1)
  }

  /** `from_le_bytes`. */
  function LeValue(bytes: seq<Byte>): nat {
    if bytes == [] then 0 else bytes[0] + 256 * LeValue(bytes[1..])
  }

  /** `to_be_bytes`. */
  function BeBytes(value: nat, width: nat): (bytes: seq<Byte>)
    ensures |bytes| == width
  {
    if width == 0 then [] else BeBytes(value / 256, width - 1) + [value % 256]
  }

  lemma {:induction false} LeValueOfBytes(value: nat, width: nat)
    requires Fits(value, 8 * width)
    ensures LeValue(LeBytes(value, width)) == value
  {
    if width == 0 {
    } else {
      DropByteFits(value, width);
      LeValueOfBytes(value / 256, width - 1);
      assert LeBytes(value, width)[1..] == LeBytes(value / 256, width - 1);
    }
  }

  lemma DropByteFits(value: nat, width: nat)
    requires width > 0 && Fits(value, 8 * width)
    ensures Fits(value / 256, 8 * (width - 1))
  {
    Pow2Adds(8, 8 * (width - 1));
    assert Pow2(8) == 256;
    assert 8 + 8 * (width - 1) == 8 * width;
  }

  /** Reading back: a byte string is the encoding of the value it denotes, and of no other. */
  lemma {:induction false} LeBytesOfValue(bytes: seq<Byte>)
    ensures Fits(LeValue(bytes), 8 * |bytes|)
    ensures LeBytes(LeValue(bytes), |bytes|) == bytes
  {
    if bytes == [] {
    } else {
      LeBytesOfValue(bytes[1..]);
      var rest := LeValue(bytes[1..]);
      Pow2Adds(8, 8 * (|bytes| - 1));
      assert Pow2(8) == 256;
      assert 8 + 8 * (|bytes| - 1) == 8 * |bytes|;
      assert LeValue(bytes) / 256 == rest && LeValue(bytes) % 256 == bytes[0];
      assert bytes == [bytes[0]] + bytes[1..];
    }
  }

  lemma {:induction false} BeBytesInjective(a: nat, b: nat, width: nat)
    requires Fits(a, 8 * width) && Fits(b, 8 * width)
    requires BeBytes(a, width) == BeBytes(b, width)
    ensures a == b
  {
    if width == 0 {
    } else {
      var x, y := BeBytes(a, width), BeBytes(b, width);
      assert x[..width - 1] == BeBytes(a / 256, width - 1);
      assert y[..width - 1] == BeBytes(b / 256, width - 1);
      assert x[width - 1] == a % 256 && y[width - 1] == b % 256;
      DropByteFits(a, width);
      DropByteFits(b, width);
      BeBytesInjective(a / 256, b / 256, width - 1);
    }
  }

  // ---------- Slices ----------

  lemma SliceOfSlice<T>(s: seq<T>, a: nat, b: nat, i: nat, j: nat)
    requires a <= b <= |s| && i <= j <= b - a
    ensures s[a..b][i..j] == s[a + i..a + j]
  {
    var window := s[a..b];
    forall k | 0 <= k < j - i ensures window[i..j][k] == s[a + i..a + j][k] {
      assert window[i + k] == s[a + (i + k)];
    }
  }

  lemma Reassociate<T>(a: seq<T>, b: seq<T>, c: seq<T>)
    ensures a + (b + c) == (a + b) + c
  {
  }

  lemma SliceLeft<T>(a: seq<T>, b: seq<T>, i: nat, j: nat)
    requires i <= j <= |a|
    ensures (a + b)[i..j] == a[i..j]
  {
  }

  lemma SliceRight<T>(a: seq<T>, b: seq<T>, i: nat, j: nat)
    requires i <= j <= |b|
    ensures (a + b)[|a| + i..|a| + j] == b[i..j]
  {
  }

  /** The piece stands in the input at a position. */
  predicate At(input: seq<Byte>, pos: nat, piece: seq<Byte>) {
    pos + |piece| <= |input| && input[pos..pos + |piece|] == piece
  }

  lemma AtBoth(input: seq<Byte>, pos: nat, a: seq<Byte>, b: seq<Byte>)
    ensures At(input, pos, a + b) <==> At(input, pos, a) && At(input, pos + |a|, b)
  {
    if At(input, pos, a + b) {
      SliceOfSlice(input, pos, pos + |a| + |b|, 0, |a|);
      SliceOfSlice(input, pos, pos + |a| + |b|, |a|, |a| + |b|);
    } else if At(input, pos, a) && At(input, pos + |a|, b) {
      SlicesJoin(input, pos, pos + |a|, pos + |a| + |b|);
    }
  }

  /** Two pieces behind each other, by name. */
  lemma AtParts(input: seq<Byte>, pos: nat, whole: seq<Byte>, a: seq<Byte>, b: seq<Byte>, next: nat)
    requires At(input, pos, whole) && whole == a + b && next == pos + |a|
    ensures At(input, pos, a) && At(input, next, b)
  {
    AtBoth(input, pos, a, b);
  }

  /** One byte and what follows it. */
  lemma AtFirst(input: seq<Byte>, pos: nat, whole: seq<Byte>, first: Byte, rest: seq<Byte>)
    requires At(input, pos, whole) && whole == [first] + rest
    ensures pos < |input| && input[pos] == first && At(input, pos + 1, rest)
  {
    AtBoth(input, pos, [first], rest);
    assert input[pos..pos + 1][0] == input[pos];
  }

  lemma SlicesJoin<T>(s: seq<T>, i: nat, j: nat, k: nat)
    requires i <= j <= k <= |s|
    ensures s[i..j] + s[j..k] == s[i..k]
  {
  }
}
