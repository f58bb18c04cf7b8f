/** `msqrt` (msqrt.c): Newton's iteration on integers; and `rpow` (pow.c). */
module MpRoot {
  import opened Arithmetic
  import opened MpDigits
  import opened MpAdd
  import opened Mp
  import opened MpNumber
  import opened MpPower

  /** n - 1 zeros under the digit t. */
  function Leading(n: nat, t: int): (d: seq<int>)
    requires n > 0
    ensures |d| == n
  {
    seq(n, k => if k == n - 1 then t else 0)
  }

  lemma {:induction false} Zeros(d: seq<int>, n: nat)
    requires n <= |d| && forall k | 0 <= k < n :: d[k] == 0
    ensures Val(d, n) == 0
  {
    if n > 0 {
      Zeros(d, n - 1);
    }
  }

  lemma {:induction false} LeadingValue(n: nat, t: int)
    requires n > 0 && 0 < t < B
    ensures Valid(Mint(n, Leading(n, t))) && Canon(Mint(n, Leading(n, t)))
    ensures Z(Mint(n, Leading(n, t))) == t * Pow(n - 1)
  {
    Zeros(Leading(n, t), n - 1);
  }

  lemma {:induction false} StartOdd(a: Mint, h: nat)
    requires Valid(a) && a.len == h + h + 1
    ensures Z(a) < 256 * Pow(h) * (256 * Pow(h))
  {
    ValBound(a.val, a.len);
    PowAdd(h, h);
    assert 256 * Pow(h) * (256 * Pow(h)) == 65536 * (Pow(h) * Pow(h));
  }

  lemma {:induction false} StartEven(a: Mint, h: nat)
    requires Valid(a) && a.len == h + h
    ensures Z(a) < Pow(h) * Pow(h)
  {
    ValBound(a.val, a.len);
    PowAdd(h, h);
  }

  lemma {:induction false} MeanSquare(x: int, c: int)
    ensures 4 * (x * c) <= (x + c) * (x + c)
  {
    Square(x - c);
    assert (x - c) * (x - c) == x * x - 2 * (x * c) + c * c;
    assert (x + c) * (x + c) == x * x + 2 * (x * c) + c * c;
  }

  lemma {:induction false} Square(x: int)
    ensures x * x >= 0
  {
  }

  lemma {:induction false} SquareMonotone(s: int, t: int)
    requires 0 <= s <= t
    ensures s * s <= t * t
  {
    MulLe(s, t, s);
    MulLe(s, t, t);
  }

  /** A Newton step from anywhere stays at or above the root. */
  lemma {:induction false} NewtonStep(a: int, x: int, q: int, r: int, y: int, j: int)
    requires 0 <= a && 0 < x && 0 <= q && a == q * x + r && 0 <= r < x
    requires x + q == y * 2 + j && 0 <= j < 2
    ensures a < (y + 1) * (y + 1)
  {
    var c, z := q + 1, y + 1;
    assert a < x * c by {
      assert x * c == q * x + x;
    }
    MeanSquare(x, c);
    SquareMonotone(x + c, 2 * z);
    assert 2 * z * (2 * z) == 4 * (z * z);
  }

  /** When the step does not decrease, x is not above the root. */
  lemma {:induction false} NewtonStop(a: int, x: int, q: int, r: int, y: int, j: int)
    requires 0 < x && a == q * x + r && 0 <= r < x && x + q == y * 2 + j && 0 <= j < 2 && x <= y
    ensures x * x <= a
  {
    MulLe(x, q, x);
  }

  lemma {:induction false} RootPositive(a: int, y: int)
    requires 0 < a < (y + 1) * (y + 1) && 0 <= y
    ensures 0 < y
  {
  }

  /** The first approximation: its square is above a. */
  method Start(a: Mint) returns (x: Mint)
    requires Valid(a) && a.len > 0
    ensures Valid(x) && Canon(x) && 0 < x.len <= a.len / 2 + 1 && Z(x) > 0 && Z(a) < Z(x) * Z(x)
  {
    if a.len % 2 == 1 {
      x := Mint((1 + a.len) / 2, Leading((1 + a.len) / 2, 256));
      LeadingValue((1 + a.len) / 2, 256);
      StartOdd(a, (a.len - 1) / 2);
    } else {
      x := Mint(1 + a.len / 2, Leading(1 + a.len / 2, 1));
      LeadingValue(1 + a.len / 2, 1);
      StartEven(a, a.len / 2);
    }
    ZeroLength(x);
  }

  /** One trip round the loop: either the next, smaller approximation, or x is the root. */
  method Approximate(a: Mint, x: Mint) returns (y: Mint, again: bool)
    requires Valid(a) && Canon(a) && a.len > 0 && Valid(x) && Canon(x) && x.len > 0
    ensures Valid(y) && Canon(y) && y.len > 0 && 0 < Z(y) && Z(a) < (Z(y) + 1) * (Z(y) + 1)
    ensures if again then Z(y) < Z(x) else Z(x) * Z(x) <= Z(a)
  {
    ZeroLength(a);
    ZeroLength(x);
    var q, junk := Mdiv(a, x);
    var j;
    y := Madd(x, q);
    ghost var sum := y;
    assert Z(y) >= 0;
    ZeroLength(y);
    y, j := Sdiv(y, 2);
    NewtonStep(Z(a), Z(x), Z(q), Z(junk), Z(y), j);
    RootPositive(Z(a), Z(y));
    ZeroLength(y);
    var c := Mcmp(x, y);
    again := c > 0;
    if !again {
      NewtonStop(Z(a), Z(x), Z(q), Z(junk), Z(y), j);
    }
  }

  /** b is the integer square root of a and r what is left over; the result is zero for a square. */
  method Msqrt(a: Mint) returns (b: Mint, r: Mint, left: int)
    requires Valid(a) && Canon(a) && 0 <= a.len <= MAX_LEN
    ensures Valid(b) && Valid(r) && Canon(b) && Canon(r)
    ensures Z(b) >= 0 && Z(b) * Z(b) <= Z(a) < (Z(b) + 1) * (Z(b) + 1)
    ensures Z(r) == Z(a) - Z(b) * Z(b) && (left == 0 <==> Z(a) == Z(b) * Z(b))
  {
    if a.len == 0 {
      return Mint(0, []), Mint(0, []), 0;
    }
    ZeroLength(a);
    var x := Start(a);
    ghost var x0 := x;
    assert (Z(x) + 1) * (Z(x) + 1) == Z(x) * Z(x) + 2 * Z(x) + 1;
    var y, again := Approximate(a, x);
    while again
      invariant Valid(x) && Canon(x) && x.len > 0 && 0 < Z(x) <= Z(x0) && Z(a) < (Z(x) + 1) * (Z(x) + 1)
      invariant Valid(y) && Canon(y) && y.len > 0 && 0 < Z(y) && Z(a) < (Z(y) + 1) * (Z(y) + 1)
      invariant if again then Z(y) < Z(x) else Z(x) * Z(x) <= Z(a)
      decreases Z(x), again
    {
      x := y;
      y, again := Approximate(a, x);
    }
    SizeBelow(x, x0);
    b := x;
    x := Mult(x, x);
    r := Msub(a, x);
    left := r.len;
    ZeroLength(r);
  }

  lemma {:induction false} PowerBound(a: Mint, n: nat, e: int)
    requires Valid(a) && a.len >= 0 && e == n * a.len
    ensures e >= 0 && 0 <= IntPow(Z(a), n) <= Pow(e)
  {
    if n > 0 {
      var f := (n - 1) * a.len;
      assert e == f + a.len;
      PowerBound(a, n - 1, f);
      PowAdd(f, a.len);
      ValBound(a.val, a.len);
      ProductBound(Z(a), Pow(a.len), IntPow(Z(a), n - 1), Pow(f));
    }
  }

  lemma {:induction false} ProductBound(x: int, p: int, y: int, q: int)
    requires 0 <= x <= p && 0 <= y <= q
    ensures 0 <= x * y <= q * p
  {
    MulLe(x, p, y);
    MulLe(y, q, p);
  }

  /** `rpow`: exponentiation modulo a number that is above any result as long as a is not negative. The length of a
      negative a is taken for its sign too, so that the modulus gets shorter with a longer result, and is at last put
      in front of its block, which is the result `outside`. */
  method Rpow(a: Mint, n: int) returns (b: Mint, outside: bool)
    requires Valid(a) && 0 <= n < B && n * a.len + 4 <= MAX_LEN
    ensures outside <==> n * a.len + 4 <= 0
    ensures !outside ==> Valid(b) && Z(b) == Remainder(IntPow(Z(a), n), 4096 * Pow(n * a.len + 3))
    ensures !outside ==> (Z(b) == IntPow(Z(a), n) <==> Abs(IntPow(Z(a), n)) < 4096 * Pow(n * a.len + 3))
    ensures a.len >= 0 ==> !outside && Z(b) == IntPow(Z(a), n)
  {
    var e := n * a.len;
    if a.len >= 0 {
      PowerBound(a, n, e);
      PowMonotone(e, e + 3);
    }
    outside := e + 4 <= 0;
    b := a;
    if !outside {
      b := PowUnder(a, n, e + 4);
      SmallRemainder(IntPow(Z(a), n), 4096 * Pow(e + 3));
    }
  }

  lemma {:induction false} SmallRemainder(x: int, m: int)
    requires m > 0
    ensures Remainder(x, m) == x <==> Abs(x) < m
  {
    if 0 <= x < m {
      QuotientIs(x, m, 0, x);
    } else if -m < x < 0 {
      QuotientIs(-x, m, 0, -x);
    }
  }

  /** The remainder modulo a number of so many digits that begins with 4096. */
  method PowUnder(a: Mint, n: int, len: nat) returns (b: Mint)
    requires Valid(a) && 0 <= n < B && 0 < len <= MAX_LEN
    ensures Valid(b) && Z(b) == Remainder(IntPow(Z(a), n), 4096 * Pow(len - 1))
  {
    var y := Mint(len, Leading(len, 4096));
    LeadingValue(len, 4096);
    assert Val([n], 0) == 0 && Pow(0) == 1;
    var x := Mint(1, [n]);
    b := PowMod(a, x, y);
  }

  /** The 4th power of -2 has no block for its modulus. */
  method PowerOutside() returns (outside: bool)
    ensures outside
  {
    OneDigit(-1, 2);
    var b;
    b, outside := Rpow(Mint(-1, [2]), 4);
  }

  /** The square of -32767 comes out reduced modulo 4096 * 32768. */
  method PowerReduced() returns (b: Mint)
    ensures Valid(b) && Z(b) != 32767 * 32767
  {
    OneDigit(-1, 32767);
    var outside;
    b, outside := Rpow(Mint(-1, [32767]), 2);
    assert IntPow(-32767, 1) == -32767 * IntPow(-32767, 0);
    assert IntPow(-32767, 2) == -32767 * IntPow(-32767, 1);
    assert Pow(1) == B * Pow(0);
  }
}
