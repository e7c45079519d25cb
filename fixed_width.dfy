/** Fixed-width integer arithmetic of a 64-bit (LP64) C++ target, written out
    on unbounded integers: int64_t accumulation, the conversion of int64_t to
    size_t (uint64) in a mixed division, and the narrowing static_cast<int>. */
module FixedWidth {

  const TwoTo32: int := 0x1_0000_0000
  const TwoTo64: int := 0x1_0000_0000_0000_0000
  const Int32Min: int := -0x8000_0000
  const Int32Max: int := 0x7FFF_FFFF
  const Int64Min: int := -0x8000_0000_0000_0000
  const Int64Max: int := 0x7FFF_FFFF_FFFF_FFFF

  predicate IsInt32(x: int) { Int32Min <= x <= Int32Max }
  predicate IsInt64(x: int) { Int64Min <= x <= Int64Max }

  /** Two integers in the same window of width 2^64 that agree modulo 2^64 are equal. */
  lemma SameResidue64(x: int, y: int, lo: int)
    requires lo <= x < lo + TwoTo64 && lo <= y < lo + TwoTo64
    requires (x - y) % TwoTo64 == 0
    ensures x == y
  {
    var q := (x - y) / TwoTo64;
    assert x - y == TwoTo64 * q;
  }

  /** The int64_t value that holds x after two's-complement wrap-around. */
  function Wrap64(x: int): (r: int)
    ensures IsInt64(r)
    ensures IsInt64(x) ==> r == x
  {
    var m := x % TwoTo64;
    if m <= Int64Max then m else m - TwoTo64
  }

  /** The wrapped value differs from x by a multiple of 2^64. */
  lemma Wrap64Congruent(x: int)
    ensures (Wrap64(x) - x) % TwoTo64 == 0
  {
  }

  /** Shifting by a multiple of 2^64 keeps the residue. */
  lemma ModShift64(a: int, k: int)
    ensures (a + TwoTo64 * k) % TwoTo64 == a % TwoTo64
  {
    var b := a + TwoTo64 * k;
    assert b == TwoTo64 * (b / TwoTo64) + b % TwoTo64;
    assert a == TwoTo64 * (a / TwoTo64) + a % TwoTo64;
    SameResidue64(b % TwoTo64, a % TwoTo64, 0);
  }

  /** Wrapping after every step of a sum is the same as wrapping once at the end. */
  lemma Wrap64Add(x: int, d: int)
    ensures Wrap64(Wrap64(x) + d) == Wrap64(x + d)
  {
    var w := Wrap64(x);
    var q := x / TwoTo64;
    assert x == TwoTo64 * q + x % TwoTo64;
    var k := if x % TwoTo64 <= Int64Max then -q else -q - 1;
    assert w + d == (x + d) + TwoTo64 * k;
    ModShift64(x + d, k);
  }

  /** The step of a running int64_t sum: adding d to the wrapped total of x
      gives the wrapped total y = x + d. */
  lemma Wrap64Step(total: int, x: int, d: int, y: int)
    requires total == Wrap64(x) && y == x + d
    ensures Wrap64(total + d) == Wrap64(y)
  {
    Wrap64Add(x, d);
  }

  /** The size_t (uint64) value an int64_t takes in the usual arithmetic
      conversions of a mixed signed/unsigned division. */
  function ToUint64(x: int): (r: nat)
    ensures r < TwoTo64
    ensures 0 <= x < TwoTo64 ==> r == x
  {
    x % TwoTo64
  }

  /** The unsigned value differs from x by a multiple of 2^64. */
  lemma ToUint64Congruent(x: int)
    ensures (ToUint64(x) - x) % TwoTo64 == 0
  {
  }

  /** The conversion to uint64 only sees x modulo 2^64, so wrapping first changes nothing. */
  lemma ToUint64OfWrap(x: int)
    ensures ToUint64(Wrap64(x)) == ToUint64(x)
  {
    var w := Wrap64(x);
    Wrap64Congruent(x);
    ToUint64Congruent(w);
    ToUint64Congruent(x);
    assert (ToUint64(w) - ToUint64(x)) % TwoTo64 == 0 by {
      var a := (ToUint64(w) - w) / TwoTo64;
      var b := (ToUint64(x) - x) / TwoTo64;
      var c := (w - x) / TwoTo64;
      assert ToUint64(w) - ToUint64(x) == TwoTo64 * (a - b + c);
    }
    SameResidue64(ToUint64(w), ToUint64(x), 0);
  }

  /** static_cast<int> of a wider integer: keeps the low 32 bits, read as two's complement. */
  function NarrowToInt32(x: int): (r: int)
    ensures IsInt32(r)
    ensures IsInt32(x) ==> r == x
  {
    var m := x % TwoTo32;
    if m <= Int32Max then m else m - TwoTo32
  }

  /** The narrowed value differs from x by a multiple of 2^32. */
  lemma NarrowToInt32Congruent(x: int)
    ensures (NarrowToInt32(x) - x) % TwoTo32 == 0
  {
  }

  /** Division truncating toward zero, as C++ divides two signed integers:
      the quotient takes the sign of the dividend. */
  function TruncDiv(a: int, n: int): (q: int)
    requires n > 0
    ensures a >= 0 ==> q >= 0
    ensures a <= 0 ==> q <= 0
  {
    if a >= 0 then a / n else -((-a) / n)
  }

  /** Multiplying by a positive factor reflects order. */
  lemma LeOfMulLe(x: int, y: int, n: int)
    requires n > 0 && x * n <= y * n
    ensures x <= y
  {
    assert y * n - x * n == (y - x) * n;
  }

  /** Multiplying by a positive factor reflects strict order. */
  lemma LtOfMulLt(x: int, y: int, n: int)
    requires n > 0 && x * n < y * n
    ensures x < y
  {
    assert y * n - x * n == (y - x) * n;
  }

  /** One more summand adds one more copy. */
  lemma MulSucc(x: int, n: int)
    ensures x * (n + 1) == x * n + x
  {
  }

  /** Euclidean division of a non-negative dividend brackets it between two multiples. */
  lemma DivBracket(a: int, n: int)
    requires a >= 0 && n > 0
    ensures (a / n) * n <= a && a + 1 <= (a / n + 1) * n
  {
    assert a == n * (a / n) + a % n;
    assert (a / n + 1) * n == (a / n) * n + n;
  }

  /** The truncated quotient lies between any bounds that n-fold bound the dividend. */
  lemma TruncDivBetween(a: int, n: int, lo: int, hi: int)
    requires n > 0
    requires lo * n <= a <= hi * n
    ensures lo <= TruncDiv(a, n) <= hi
  {
    if a >= 0 {
      var q := a / n;
      DivBracket(a, n);
      LeOfMulLe(q, hi, n);
      LtOfMulLt(lo, q + 1, n);
    } else {
      var p := (-a) / n;
      DivBracket(-a, n);
      assert (-hi) * n == -(hi * n);
      assert (-lo) * n == -(lo * n);
      LeOfMulLe(p, -lo, n);
      LtOfMulLt(-hi, p + 1, n);
    }
  }
}
