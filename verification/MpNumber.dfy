/** `gcd`, `invert` (gcd.c), `pow` (pow.c) and `msqrt` (msqrt.c). */
module MpNumber {
  import opened Arithmetic
  import opened MpDigits
  import opened MpAdd
  import opened Mp

  // ---------------------------------------------------------------- gcd

  ghost predicate Times(d: int, k: int, x: int) {
    x == d * k
  }

  ghost predicate Divides(d: int, x: int) {
    exists k :: Times(d, k, x)
  }

  /** g is the greatest common divisor of x and y: what divides both is what divides g. */
  ghost predicate IsGcd(g: int, x: int, y: int) {
    g >= 0 && forall d :: Divides(d, g) <==> Divides(d, x) && Divides(d, y)
  }

  lemma {:induction false} DividesZero(d: int)
    ensures Divides(d, 0)
  {
    assert Times(d, 0, 0);
  }

  lemma {:induction false} DividesSum(d: int, x: int, y: int, q: int)
    requires Divides(d, x) && Divides(d, y)
    ensures Divides(d, q * x + y)
  {
    var k: int :| Times(d, k, x);
    var l: int :| Times(d, l, y);
    assert q * x + y == d * (q * k + l) by {
      assert q * (d * k) == d * (q * k);
    }
    assert Times(d, q * k + l, q * x + y);
  }

  /** Euclid's step: the divisors of x and y are those of y and the remainder. */
  lemma {:induction false} EuclidStep(g: int, x: int, y: int, q: int, r: int)
    requires x == q * y + r && IsGcd(g, y, r)
    ensures IsGcd(g, x, y)
  {
    forall d ensures Divides(d, g) <==> Divides(d, x) && Divides(d, y) {
      if Divides(d, y) {
        if Divides(d, r) {
          DividesSum(d, y, r, q);
        }
        if Divides(d, x) {
          DividesSum(d, y, x, -q);
          assert -q * y + x == r by {
            assert -q * y == -(q * y);
          }
        }
      }
    }
  }

  /** The remainders of Euclid's algorithm. */
  ghost function Euclid(x: int, y: int): (g: int)
    requires x >= 0 && y >= 0
    decreases y
  {
    if y == 0 then x else Euclid(y, x % y)
  }

  lemma {:induction false} EuclidIsGcd(x: int, y: int)
    requires x >= 0 && y >= 0
    ensures IsGcd(Euclid(x, y), x, y)
    decreases y
  {
    if y == 0 {
      forall d ensures Divides(d, 0) {
        DividesZero(d);
      }
    } else {
      EuclidIsGcd(y, x % y);
      EuclidStep(Euclid(x, y), x, y, x / y, x % y);
    }
  }

  method Gcd(a: Mint, b: Mint) returns (c: Mint)
    requires Valid(a) && Valid(b) && Canon(a) && Canon(b)
    ensures Valid(c) && Canon(c) && IsGcd(Magnitude(c), Magnitude(a), Magnitude(b))
    ensures a.len >= 0 && b.len >= 0 ==> IsGcd(Z(c), Z(a), Z(b))
  {
    var x, y := a, b;
    while y.len != 0
      invariant Valid(x) && Valid(y) && Canon(x) && Canon(y)
      invariant Euclid(Magnitude(x), Magnitude(y)) == Euclid(Magnitude(a), Magnitude(b))
      invariant a.len >= 0 && b.len >= 0 ==> x.len >= 0 && y.len >= 0
      decreases Magnitude(y)
    {
      ZeroLength(y);
      var w, z := Mdiv(x, y);
      QuotientIs(Magnitude(x), Magnitude(y), Magnitude(w), Magnitude(z));
      x := y;
      y := z;
    }
    assert Magnitude(y) == 0;
    EuclidIsGcd(Magnitude(a), Magnitude(b));
    c := x;
  }

  // ---------------------------------------------------------------- invert

  /** x and y differ by a multiple of m. */
  ghost predicate Congruent(x: int, y: int, m: int) {
    Divides(m, x - y)
  }

  function Alternate(i: nat): int {
    if i % 2 == 0 then 1 else -1
  }

  /** What every round of `invert` keeps, with `old` and `next` the two coefficients. */
  ghost predicate Bezout(a: int, b: int, i: nat, x: int, y: int, next: int, old0: int) {
    && Congruent(a * next, Alternate(i) * y, b)
    && Congruent(a * old0, -Alternate(i) * x, b)
    && x * next + y * old0 == b
  }

  lemma {:induction false} BezoutStart(a: int, b: int)
    ensures Bezout(a, b, 0, b, a, 1, 0)
  {
    assert a * 1 - Alternate(0) * a == 0;
    DividesZero(b);
    assert a * 0 - -Alternate(0) * b == b * 1;
    assert Times(b, 1, a * 0 - -Alternate(0) * b);
  }

  lemma {:induction false} BezoutStep(a: int, b: int, i: nat, x: int, y: int, next: int, old0: int, q: int, z: int)
    requires Bezout(a, b, i, x, y, next, old0) && x == q * y + z
    ensures Bezout(a, b, i + 1, y, z, q * next + old0, next)
  {
    var s := Alternate(i);
    assert Alternate(i + 1) == -s;
    // the congruences
    DividesSum(b, a * next - s * y, a * old0 - -s * x, q);
    Congruence(a, next, old0, q, s, x, y, z);
    assert a * next - -(-s) * y == a * next - s * y;
    Determinant(next, old0, q, x, y, z);
  }

  lemma {:induction false} Determinant(next: int, old0: int, q: int, x: int, y: int, z: int)
    requires x == q * y + z
    ensures y * (q * next + old0) + z * next == x * next + y * old0
  {
    assert y * (q * next) == q * y * next;
    assert x * next == q * y * next + z * next;
  }

  lemma {:induction false} Congruence(a: int, next: int, old0: int, q: int, s: int, x: int, y: int, z: int)
    requires x == q * y + z
    ensures q * (a * next - s * y) + (a * old0 - -s * x) == a * (q * next + old0) - -s * z
  {
    assert q * (a * next - s * y) == a * (q * next) - s * (q * y);
    assert a * (q * next + old0) == a * (q * next) + a * old0;
    assert -s * x == -(s * (q * y)) - s * z;
  }

  /** The coefficient of the round before is at most half of b. */
  lemma {:induction false} Half(x: int, y: int, next: int, old0: int, b: int)
    requires x * next + y * old0 == b && 0 < y < x && 0 <= old0 && 0 < next
    ensures 2 * next <= b
  {
    MulLe(2, x, next);
    assert y * old0 >= 0;
  }

  lemma {:induction false} SizeBelow(a: Mint, b: Mint)
    requires Valid(a) && Valid(b) && Canon(a) && Magnitude(a) <= Magnitude(b)
    ensures Abs(a.len) <= Abs(b.len)
  {
    if Abs(b.len) < Abs(a.len) {
      Longer(a, b);
    }
  }

  lemma {:induction false} UnitMint(m: Mint)
    requires m == Mint(1, [1])
    ensures Valid(m) && Canon(m) && Z(m) == 1
  {
    One();
  }

  /** One round of the loop of `invert`. */
  method InvertRound(ghost a: int, ghost b: Mint, ghost i: nat, x: Mint, y: Mint, next: Mint, old0: Mint)
    returns (y': Mint, next': Mint)
    requires Valid(b) && Valid(x) && Valid(y) && Valid(next) && Valid(old0)
    requires Canon(b) && Canon(x) && Canon(y) && Canon(next) && Canon(old0)
    requires b.len > 0 && x.len > 0 && y.len > 0 && next.len > 0 && old0.len >= 0 && b.len <= MAX_LEN
    requires Z(y) < Z(x) && Bezout(a, Z(b), i, Z(x), Z(y), Z(next), Z(old0))
    ensures Valid(y') && Canon(y') && y'.len >= 0 && 0 <= Z(y') < Z(y)
    ensures Valid(next') && Canon(next') && next'.len > 0
    ensures Bezout(a, Z(b), i + 1, Z(y), Z(y'), Z(next'), Z(next))
    ensures Euclid(Z(x), Z(y)) == Euclid(Z(y), Z(y'))
  {
    ZeroLength(y);
    ZeroLength(x);
    ZeroLength(next);
    ZeroLength(old0);
    var w;
    w, y' := Mdiv(x, y);
    Half(Z(x), Z(y), Z(next), Z(old0), Z(b));
    SizeBelow(next, b);
    Quotient(Z(x), Z(w), Z(y), Z(y'));
    ZeroLength(w);
    next' := Mult(w, next);
    assert Z(next') >= 0;
    BezoutStep(a, Z(b), i, Z(x), Z(y), Z(next), Z(old0), Z(w), Z(y'));
    QuotientIs(Z(x), Z(y), Z(w), Z(y'));
    MulLe(1, Z(w), Z(next));
    ZeroLength(next');
    next' := Madd(next', old0);
    ZeroLength(next');
  }

  lemma {:induction false} Quotient(x: int, w: int, y: int, z: int)
    requires x == w * y + z && 0 <= z < y < x
    ensures w >= 1
  {
    if w <= 0 {
      MulLe(w, 0, y);
    }
  }

  /** For a and b with no common factor and 0 < a < b, `invert` finds the c below b with a * c = 1 mod b. */
  method Invert(a: Mint, b: Mint) returns (c: Mint)
    requires Valid(a) && Valid(b) && Canon(a) && Canon(b) && b.len <= MAX_LEN
    requires 0 < Z(a) < Z(b) && IsGcd(1, Z(b), Z(a))
    ensures Valid(c) && Canon(c) && 0 < Z(c) < Z(b) && Congruent(Z(a) * Z(c), 1, Z(b))
  {
    ZeroLength(a);
    ZeroLength(b);
    var x, y, next, old0, i := b, a, Mint(1, [1]), Mint(0, []), 0;
    UnitMint(next);
    BezoutStart(Z(a), Z(b));
    while y.len != 0
      invariant Valid(x) && Valid(y) && Valid(next) && Valid(old0)
      invariant Canon(x) && Canon(y) && Canon(next) && Canon(old0)
      invariant x.len > 0 && y.len >= 0 && next.len > 0 && old0.len >= 0 && Z(y) < Z(x)
      invariant Bezout(Z(a), Z(b), i, Z(x), Z(y), Z(next), Z(old0))
      invariant Euclid(Z(x), Z(y)) == Euclid(Z(b), Z(a))
      invariant if i == 0 then Z(y) > 0 else 0 < Z(old0) && 2 * Z(old0) <= Z(b)
      decreases Z(y)
    {
      ZeroLength(y);
      ZeroLength(next);
      ZeroLength(old0);
      Half(Z(x), Z(y), Z(next), Z(old0), Z(b));
      var y', next' := InvertRound(Z(a), b, i, x, y, next, old0);
      old0 := next;
      next := next';
      x := y;
      y := y';
      i := i + 1;
    }
    Coprime(Z(b), Z(a), Z(x));
    c := old0;
    if i % 2 == 0 {
      c := Msub(b, c);
      Complement1(Z(a), Z(b), Z(old0), Z(c));
    }
  }

  lemma {:induction false} Coprime(b: int, a: int, x: int)
    requires 0 < a < b && 0 < x && IsGcd(1, b, a) && Euclid(x, 0) == Euclid(b, a)
    ensures x == 1
  {
    EuclidIsGcd(b, a);
    assert Times(x, 1, x);
    assert Divides(x, x);
    assert Divides(x, 1);
    var k: int :| Times(x, k, 1);
    assert k <= 0 ==> x * k <= 0;
    if x >= 2 && k >= 1 {
      MulLe(2, x, k);
    }
  }

  lemma {:induction false} Complement1(a: int, b: int, old0: int, c: int)
    requires Congruent(a * old0, -1, b) && c == b - old0
    ensures Congruent(a * c, 1, b)
  {
    assert Times(b, 1, b);
    assert Divides(b, b);
    var k: int :| Times(b, k, a * old0 - -1);
    assert a * c - 1 == b * (a - k) by {
      assert a * (b - old0) == a * b - a * old0;
      assert b * (a - k) == a * b - b * k;
    }
    assert Times(b, a - k, a * c - 1);
  }
}
