/** Bitwise facts behind "let the indices wrap": masks, powers of two and 32-bit remainders. */
module Bits {
  import opened Common

  function Pow2(k: nat): (r: nat)
    ensures r >= 1
  {
    if k == 0 then 1 else 2 * Pow2(k - 1)
  }

  /** Bitwise AND of two unsigned numbers. */
  function BitAnd(a: nat, b: nat): nat
    decreases a
  {
    if a == 0 || b == 0 then 0 else 2 * BitAnd(a / 2, b / 2) + (a % 2) * (b % 2)
  }

  /** `is_power_of_2`. */
  predicate IsPowerOfTwo(n: nat) { n != 0 && BitAnd(n, n - 1) == 0 }

  /** The test recognises exactly the powers of two. */
  lemma {:induction false} PowerOfTwoTest(n: nat)
    ensures IsPowerOfTwo(n) <==> exists k :: n == Pow2(k)
  {
    if IsPowerOfTwo(n) {
      var k := FindExponent(n);
    }
    forall k | n == Pow2(k) ensures IsPowerOfTwo(n) {
      PowIsPower(k);
    }
  }

  lemma {:induction false} PowIsPower(k: nat)
    ensures BitAnd(Pow2(k), Pow2(k) - 1) == 0
  {
    if k > 0 {
      PowIsPower(k - 1);
      assert (Pow2(k) - 1) / 2 == Pow2(k - 1) - 1;
      assert Pow2(k) / 2 == Pow2(k - 1) && Pow2(k) % 2 == 0;
    }
  }

  lemma {:induction false} AndSelf(n: nat)
    ensures BitAnd(n, n) == n
  {
    if n > 0 {
      AndSelf(n / 2);
      BitSquare(n % 2);
    }
  }

  lemma BitSquare(b: nat)
    requires b < 2
    ensures b * b == b
  {
    if b == 1 { assert b * b == 1; }
  }

  lemma {:induction false} FindExponent(n: nat) returns (k: nat)
    requires IsPowerOfTwo(n)
    ensures n == Pow2(k)
  {
    if n == 1 {
      k := 0;
      assert Pow2(0) == 1;
    } else if n % 2 == 1 {
      assert (n - 1) / 2 == n / 2;
      AndSelf(n / 2);
      assert false;
    } else {
      assert (n - 1) / 2 == n / 2 - 1;
      assert (n - 1) % 2 == 1 && n % 2 == 0;
      assert BitAnd(n, n - 1) == 2 * BitAnd(n / 2, n / 2 - 1) + (n % 2) * ((n - 1) % 2);
      var j := FindExponent(n / 2);
      k := j + 1;
    }
  }

  lemma BitAndOdd(a: nat, m: nat)
    requires a > 0 && m >= 1
    ensures BitAnd(a, 2 * m - 1) == 2 * BitAnd(a / 2, m - 1) + a % 2
  {
    var b := 2 * m - 1;
    assert b / 2 == m - 1 && b % 2 == 1;
    assert BitAnd(a, b) == 2 * BitAnd(a / 2, b / 2) + (a % 2) * (b % 2);
  }

  /** Masking with a power of two less one is the remainder. */
  lemma {:induction false} MaskIsRemainder(a: nat, k: nat)
    ensures BitAnd(a, Pow2(k) - 1) == a % Pow2(k)
  {
    if k == 0 {
      assert Pow2(0) == 1;
    } else if a == 0 {
      RemainderUnique(0, Pow2(k), 0, 0);
    } else {
      MaskIsRemainder(a / 2, k - 1);
      MaskHalves(a, Pow2(k - 1));
    }
  }

  lemma MaskHalves(a: nat, m: nat)
    requires a > 0 && m >= 1 && BitAnd(a / 2, m - 1) == (a / 2) % m
    ensures BitAnd(a, 2 * m - 1) == a % (2 * m)
  {
    BitAndOdd(a, m);
    HalvedRemainder(a, m);
  }

  lemma HalvedRemainder(a: nat, m: nat)
    requires m >= 1
    ensures a % (2 * m) == 2 * ((a / 2) % m) + a % 2
  {
    var q, r := (a / 2) / m, (a / 2) % m;
    assert a / 2 == q * m + r;
    assert a == q * (2 * m) + (2 * r + a % 2) by { assert 2 * (q * m) == q * (2 * m); }
    RemainderUnique(a, 2 * m, q, 2 * r + a % 2);
  }

  lemma MulAtLeast(d: int, m: int)
    requires d >= 1 && m > 0
    ensures d * m >= m
  {}

  lemma MulSub(a: int, b: int, m: int)
    ensures (a - b) * m == a * m - b * m
  {}

  lemma RemainderUnique(a: int, m: int, q: int, r: int)
    requires m > 0 && 0 <= r < m && a == q * m + r
    ensures a % m == r && a / m == q
  {
    var q' := a / m;
    MulSub(q', q, m);
    MulSub(q, q', m);
    if q' > q { MulAtLeast(q' - q, m); }
    if q' < q { MulAtLeast(q - q', m); }
  }

  lemma {:induction false} Pow2Add(a: nat, b: nat)
    ensures Pow2(a + b) == Pow2(a) * Pow2(b)
  {
    if a > 0 {
      Pow2Add(a - 1, b);
      assert Pow2(a + b) == 2 * Pow2(a - 1 + b);
      assert 2 * (Pow2(a - 1) * Pow2(b)) == 2 * Pow2(a - 1) * Pow2(b);
    }
  }

  lemma NestedRemainder(x: nat, m: nat, n: nat, big: nat)
    requires m > 0 && big > 0 && big == n * m
    ensures (x % big) % m == x % m
  {
    var q, r := x / big, x % big;
    var q', r' := r / m, r % m;
    MulAssoc(q, n, m);
    MulAdd(q * n, q', m);
    assert x == q * big + r;
    assert r == q' * m + r';
    RemainderUnique(x, m, q * n + q', r');
  }

  /** A remainder by a power of two survives a wrap at a higher power of two. */
  lemma WrapKeepsRemainder(x: nat, k: nat, w: nat)
    requires k <= w
    ensures (x % Pow2(w)) % Pow2(k) == x % Pow2(k)
  {
    Pow2Add(w - k, k);
    NestedRemainder(x, Pow2(k), Pow2(w - k), Pow2(w));
  }

  lemma MulAssoc(a: int, b: int, c: int)
    ensures a * (b * c) == (a * b) * c
  {}

  lemma MulAdd(a: int, b: int, m: int)
    ensures (a + b) * m == a * m + b * m
  {}

  /** Within a window of `m` consecutive numbers remainders by `m` are distinct. */
  lemma WindowDistinct(i: int, j: int, m: int)
    requires m > 0 && i < j < i + m
    ensures i % m != j % m
  {
    var a, b := i / m, j / m;
    assert i == a * m + i % m && j == b * m + j % m;
    MulSub(b, a, m);
    MulSub(a, b, m);
    if b > a { MulAtLeast(b - a, m); }
    if a > b { MulAtLeast(a - b, m); }
  }

  lemma WordIsPow()
    ensures Pow2(16) == 0x1_0000 && Pow2(32) == WORD
  {
    assert Pow2(8) == 0x100;
    Pow2Add(8, 8);
    Pow2Add(16, 16);
  }

  // ----- roundup_pow_of_two -----

  function BitLength(x: nat): nat { if x == 0 then 0 else 1 + BitLength(x / 2) }

  lemma {:induction false} BitLengthBounds(x: nat)
    requires x > 0
    ensures BitLength(x) >= 1 && Pow2(BitLength(x) - 1) <= x < Pow2(BitLength(x))
  {
    if x > 1 { BitLengthBounds(x / 2); } else { assert Pow2(1) == 2; }
  }

  lemma {:induction false} Pow2Monotone(a: nat, b: nat)
    requires a <= b
    ensures Pow2(a) <= Pow2(b)
    decreases b - a
  {
    if a < b { Pow2Monotone(a, b - 1); }
  }

  lemma BitLengthOfWord(x: nat)
    requires x < WORD
    ensures BitLength(x) <= 32
  {
    if x > 0 && BitLength(x) > 32 {
      BitLengthBounds(x);
      Pow2Monotone(32, BitLength(x) - 1);
      WordIsPow();
    }
  }

  /** `__builtin_clz` on a 32-bit word. */
  function LeadingZeros(x: nat): nat
    requires x < WORD
  {
    BitLengthOfWord(x);
    32 - BitLength(x)
  }

  /** `roundup_pow_of_two`: the exponent is one more than the number of leading zeros of n - 1. */
  function RoundUp(n: nat): nat
    requires 0 < n <= WORD
  {
    Pow2(LeadingZeros(n - 1) + 1)
  }

  lemma RoundUpExact(n: nat)
    requires 2 <= n <= WORD
    ensures RoundUp(n) >= n <==> n <= 65536
    ensures !(n <= RoundUp(n) < 2 * n)
  {
    var b := BitLength(n - 1);
    BitLengthOfWord(n - 1);
    BitLengthBounds(n - 1);
    WordIsPow();
    if b <= 16 {
      Pow2Monotone(b + 1, 33 - b);
      Pow2Monotone(b, 16);
    } else {
      Pow2Monotone(33 - b, 16);
      Pow2Monotone(16, b - 1);
    }
  }
}
