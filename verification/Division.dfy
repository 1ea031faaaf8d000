/** The 64-bit division routines a 32-bit kernel links against: one quotient bit a step, from the top.
    Words are numbers below 2^64, and every operation that can wrap says so. */
module Division {

  function Pow2(i: nat): (p: nat)
    ensures p >= 1
  {
    if i == 0 then 1 else 2 * Pow2(i - 1)
  }

  const W: int := 0x1_0000_0000_0000_0000
  const HALF: int := 0x8000_0000_0000_0000

  lemma {:induction false} PowAdd(a: nat, b: nat)
    ensures Pow2(a + b) == Pow2(a) * Pow2(b)
  {
    if a > 0 {
      PowAdd(a - 1, b);
      assert 2 * (Pow2(a - 1) * Pow2(b)) == (2 * Pow2(a - 1)) * Pow2(b);
    }
  }

  lemma Pow64()
    ensures Pow2(63) == HALF && Pow2(64) == W
  {
    assert Pow2(4) == 16;
    PowAdd(4, 4);
    PowAdd(8, 8);
    PowAdd(16, 16);
    assert Pow2(32) == 0x1_0000_0000;
    PowAdd(32, 32);
  }

  /** Bit `i` of `x`. */
  function Bit(x: nat, i: nat): (b: nat)
    ensures b <= 1
  {
    x / Pow2(i) % 2
  }

  /** `x` with bit `i` or-ed in. */
  function SetBit(x: nat, i: nat): nat {
    if Bit(x, i) == 1 then x else x + Pow2(i)
  }

  function ShiftLeft(x: nat): (y: nat) {
    x * 2 % W
  }

  /** The part of `x` above bit `i`, one bit at a time. */
  lemma TopBits(x: nat, i: nat)
    ensures x / Pow2(i) == 2 * (x / Pow2(i + 1)) + Bit(x, i)
  {
    var p := Pow2(i);
    var a := x / Pow2(i);
    HalveTwice(x, p);
    assert a == 2 * (a / 2) + a % 2;
  }

  lemma HalveTwice(x: nat, p: nat)
    requires p >= 1
    ensures x / p / 2 == x / (2 * p)
  {
    var h, e, r := x / p / 2, x / p % 2, x % p;
    assert x == p * (x / p) + r;
    assert x / p == 2 * h + e;
    Regroup(p, h, e);
    DivIs(x, 2 * p, h, p * e + r);
  }

  lemma Regroup(p: nat, h: nat, e: nat)
    ensures p * (2 * h + e) == (2 * p) * h + p * e
  {
  }

  /** Quotient and remainder are unique. */
  lemma DivIs(x: nat, d: nat, q: nat, r: nat)
    requires x == d * q + r && r < d
    ensures x / d == q && x % d == r
  {
    var q', r' := x / d, x % d;
    assert x == d * q' + r';
    if q' < q {
      Gap(d, q', q);
    } else if q' > q {
      Gap(d, q, q');
    }
  }

  lemma Gap(d: nat, a: nat, b: nat)
    requires a < b
    ensures d * a + d <= d * b
  {
    Bigger(b - a, d);
    assert d * b == d * a + d * (b - a);
  }

  lemma NextBit(x: nat, y: nat, k: nat)
    requires x / 2 == y && k > 0
    ensures Bit(x, k) == Bit(y, k - 1)
  {
    DropFirst(x, y, Pow2(k - 1));
  }

  lemma DropFirst(x: nat, y: nat, p: nat)
    requires p >= 1 && x / 2 == y
    ensures x / (2 * p) == y / p
  {
    var q, r := y / p, y % p;
    assert y == p * q + r;
    Regroup(p, q, 0);
    DivIs(x, 2 * p, q, 2 * r + x % 2);
  }

  lemma LowBit(x: nat)
    ensures Bit(x, 0) == x % 2
  {
    assert Pow2(0) == 1;
  }

  lemma HalfSet(x: nat, i: nat)
    requires i > 0
    ensures SetBit(x, i) / 2 == SetBit(x / 2, i - 1) && SetBit(x, i) % 2 == x % 2
  {
    NextBit(x, x / 2, i);
  }

  /** Or-ing in a bit sets it and leaves the others alone. */
  lemma {:induction false} SetBitIs(x: nat, i: nat, j: nat)
    ensures Bit(SetBit(x, i), j) == if j == i then 1 else Bit(x, j)
  {
    var y := SetBit(x, i);
    LowBit(x);
    LowBit(y);
    if i > 0 {
      HalfSet(x, i);
    }
    if j > 0 {
      NextBit(x, x / 2, j);
      NextBit(y, y / 2, j);
      if i > 0 {
        SetBitIs(x / 2, i - 1, j - 1);
      }
    }
  }

  lemma ClearBit(q: nat, i: nat)
    ensures Bit(q * Pow2(i + 1), i) == 0
  {
    var p := Pow2(i);
    assert q * Pow2(i + 1) == p * (2 * q) + 0;
    DivIs(q * Pow2(i + 1), p, 2 * q, 0);
  }

  /** The shifted remainder fits in a word: it is at most the bits of the dividend taken so far. */
  lemma NoOverflow(n: nat, i: nat, q: nat, d: nat, r: nat)
    requires n < W && i < 64 && n / Pow2(i + 1) == q * d + r
    ensures r < HALF && ShiftLeft(r) == 2 * r
  {
    Shrinks(n, Pow2(i));
    HalveTwice(n, Pow2(i));
    NotNegative(q, d);
  }

  lemma Shrinks(n: nat, p: nat)
    requires p >= 1
    ensures n / p <= n
  {
    assert n == p * (n / p) + n % p;
    Bigger(p, n / p);
  }

  lemma NotNegative(a: nat, b: nat)
    ensures a * b >= 0
  {
  }

  lemma Bigger(p: nat, x: nat)
    requires p >= 1
    ensures p * x >= x
  {
  }

  /** One step of the loop: the next bit of the dividend comes down. */
  lemma BringDown(n: nat, i: nat, d: nat, q: nat, r: nat)
    requires n < W && i < 64 && d >= 1 && r < d && n / Pow2(i + 1) == q * d + r
    ensures ShiftLeft(r) == 2 * r && n / Pow2(i) == (2 * q) * d + (2 * r + Bit(n, i)) && 2 * r + Bit(n, i) < 2 * d
  {
    NoOverflow(n, i, q, d, r);
    TopBits(n, i);
    assert 2 * (q * d + r) == (2 * q) * d + 2 * r;
  }

  lemma OneMore(a: nat, b: nat)
    ensures (a + 1) * b == a * b + b
  {
  }

  /** The shift clears the low bit, so or-ing a bit in there adds it. */
  lemma ShiftEven(x: nat)
    requires x < W
    ensures ShiftLeft(x) % 2 == 0 && ShiftLeft(x) < W - 1
  {
  }

  /** The body of the loop for bit `i`; the ghost `q` is the quotient so far without its low zeros. */
  method DivideBit(n: nat, d: nat, i: nat, quotient: nat, remainder: nat, ghost q: nat)
    returns (quo: nat, rem: nat, ghost q': nat)
    requires n < W && d < W && i < 64 && remainder < W && quotient == q * Pow2(i + 1)
    requires d >= 1 ==> remainder < d && n / Pow2(i + 1) == q * d + remainder
    ensures rem < W && quo == q' * Pow2(i)
    ensures d >= 1 ==> rem < d && n / Pow2(i) == q' * d + rem
    ensures d == 0 ==> q' == 2 * q + 1
  {
    if d >= 1 {
      BringDown(n, i, d, q, remainder);
    }
    ClearBit(q, i);
    OneMore(2 * q, Pow2(i));
    OneMore(2 * q, d);
    ShiftEven(remainder);
    quo, rem, q' := quotient, ShiftLeft(remainder), 2 * q;
    assert quo == q' * Pow2(i);
    rem := rem + Bit(n, i);
    if rem >= d {
      rem := rem - d;
      quo := SetBit(quo, i);
      q' := 2 * q + 1;
    }
  }

  /** The loop, for any divisor at all. */
  method LongDivision(n: nat, d: nat) returns (quotient: nat, remainder: nat)
    requires n < W && d < W
    ensures d >= 1 ==> n == quotient * d + remainder && remainder < d
    ensures d == 0 ==> quotient == W - 1
  {
    quotient, remainder := 0, 0;
    ghost var q := 0;
    Pow64();
    assert n / Pow2(64) == 0;
    var i := 63;
    while i >= 0
      invariant -1 <= i <= 63 && remainder < W && quotient == q * Pow2(i + 1)
      invariant d >= 1 ==> remainder < d && n / Pow2(i + 1) == q * d + remainder
      invariant d == 0 ==> q == Pow2(63 - i) - 1
    {
      quotient, remainder, q := DivideBit(n, d, i, quotient, remainder, q);
      i := i - 1;
    }
    assert Pow2(0) == 1;
  }

  /** `__udivmoddi4`. */
  method UDivMod(n: nat, d: nat) returns (quotient: nat, remainder: nat)
    requires n < W && d < W
    ensures d == 0 ==> quotient == 0 && remainder == 0
    ensures d >= 1 ==> n == quotient * d + remainder && remainder < d && quotient == n / d && remainder == n % d
  {
    if d == 0 {
      return 0, 0;
    }
    if d > n {
      quotient, remainder := 0, n;
    } else if d == n {
      quotient, remainder := 1, 0;
    } else {
      quotient, remainder := LongDivision(n, d);
    }
    DivIs(n, d, quotient, remainder);
  }

  /** `__udivdi3`: no test for zero, so the loop takes nothing off and sets every bit. */
  method UDiv(n: nat, d: nat) returns (quotient: nat)
    requires n < W && d < W
    ensures quotient == if d == 0 then W - 1 else n / d
  {
    var r;
    quotient, r := LongDivision(n, d);
    if d >= 1 {
      DivIs(n, d, quotient, r);
    }
  }

  // ---------------------------------------------------------------- signed

  predicate Int64(x: int) {
    -HALF <= x < HALF
  }

  /** The signed reading of a word. */
  function Signed(x: nat): (r: int)
    requires x < W
    ensures Int64(r)
  {
    if x < HALF then x else x - W
  }

  /** Negation that wraps at the smallest number. */
  function Neg(x: int): (r: int)
    requires Int64(x)
    ensures Int64(r)
  {
    if x == -HALF then x else -x
  }

  /** A signed number as an unsigned word. */
  function Word(x: int): (r: nat)
    requires Int64(x)
    ensures r < W
  {
    if x < 0 then x + W else x
  }

  function Abs(x: int): (r: nat) {
    if x < 0 then -x else x
  }

  lemma AbsWord(x: int)
    requires Int64(x)
    ensures Word(if x < 0 then Neg(x) else x) == Abs(x) <= HALF
  {
  }

  /** `a` divided by `b` with the quotient truncated toward zero, as section 6.5.5 of ISO C99 has it. */
  predicate Truncated(a: int, b: int, q: int, r: int) {
    a == q * b + r && Abs(r) < Abs(b) && (r == 0 || (r < 0 <==> a < 0))
  }

  /** There is only one truncated quotient and remainder. */
  lemma TruncatedUnique(a: int, b: int, q: int, r: int)
    requires Truncated(a, b, q, r)
    ensures Abs(q) == Abs(a) / Abs(b) && Abs(r) == Abs(a) % Abs(b)
    ensures q == 0 || (q < 0 <==> (a < 0) != (b < 0))
  {
    SameSide(a, b, q, r);
    DivIs(Abs(a), Abs(b), Abs(q), Abs(r));
  }

  lemma SameSide(a: int, b: int, q: int, r: int)
    requires Truncated(a, b, q, r)
    ensures Abs(a) == Abs(b) * Abs(q) + Abs(r)
    ensures q == 0 || (q < 0 <==> (a < 0) != (b < 0))
  {
    MulAbs(q, b);
    if q != 0 {
      Bigger(Abs(q), Abs(b));
    }
  }

  lemma MulAbs(a: int, b: int)
    ensures a * b == if (a < 0) != (b < 0) then -(Abs(a) * Abs(b)) else Abs(a) * Abs(b)
    ensures Abs(a) * Abs(b) == Abs(b) * Abs(a) >= 0
  {
    assert a < 0 && b < 0 ==> a * b == (-a) * (-b);
    assert a < 0 && b >= 0 ==> a * b == -((-a) * b);
    assert a >= 0 && b < 0 ==> a * b == -(a * (-b));
  }

  /** `__divmoddi4`: the truncated quotient and remainder for every nonzero divisor, except that the
      one quotient that does not fit, the smallest number over -1, wraps to the smallest number. */
  method DivMod(a: int, b: int) returns (quotient: int, remainder: int)
    requires Int64(a) && Int64(b)
    ensures Int64(quotient) && Int64(remainder)
    ensures b == 0 ==> quotient == 0 && remainder == 0
    ensures b != 0 ==> (Truncated(a, b, quotient, remainder) <==> !(a == -HALF && b == -1))
    ensures a == -HALF && b == -1 ==> quotient == -HALF && remainder == 0
  {
    AbsWord(a);
    AbsWord(b);
    var q, r := UDivMod(Word(if a < 0 then Neg(a) else a), Word(if b < 0 then Neg(b) else b));
    quotient, remainder := Signed(q), Signed(r);
    if (a < 0) != (b < 0) {
      quotient := Neg(quotient);
    }
    if a < 0 {
      remainder := Neg(remainder);
    }
    if b != 0 {
      QuotientFits(a, b, q, r);
      SignsRight(a, b, q, r);
    }
  }

  /** The magnitudes fit, but for the one quotient. */
  lemma QuotientFits(a: int, b: int, q: nat, r: nat)
    requires Int64(a) && Int64(b) && b != 0 && Abs(a) == q * Abs(b) + r && r < Abs(b)
    ensures q <= HALF && r < HALF && (q == HALF ==> a == -HALF && Abs(b) == 1)
  {
    Bigger(Abs(b), q);
    if Abs(b) >= 2 {
      Bigger(Abs(b) - 1, q);
      OneMore(Abs(b) - 1, q);
    }
  }

  /** Dividing the magnitudes and putting the signs back truncates. */
  lemma SignsRight(a: int, b: int, q: int, r: int)
    requires q >= 0 && b != 0 && Abs(a) == q * Abs(b) + r && 0 <= r < Abs(b)
    ensures Truncated(a, b, if (a < 0) != (b < 0) then -q else q, if a < 0 then -r else r)
  {
    MulAbs(q, b);
    MulAbs(-q, b);
  }
}
