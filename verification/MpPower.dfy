/** `pow` and `rpow` (pow.c): modular exponentiation, bit by bit from the top. */
module MpPower {
  import opened Arithmetic
  import opened MpDigits
  import opened MpAdd
  import opened Mp
  import opened MpNumber

  ghost function IntPow(a: int, n: nat): int {
    if n == 0 then 1 else a * IntPow(a, n - 1)
  }

  lemma {:induction false} PowSum(a: int, m: nat, n: nat)
    ensures IntPow(a, m + n) == IntPow(a, m) * IntPow(a, n)
  {
    if m > 0 {
      PowSum(a, m - 1, n);
      assert m + n - 1 == m - 1 + n;
      assert a * (IntPow(a, m - 1) * IntPow(a, n)) == a * IntPow(a, m - 1) * IntPow(a, n);
    }
  }

  lemma {:induction false} CongruentTimes(x: int, x': int, y: int, y': int, m: int)
    requires Congruent(x, x', m) && Congruent(y, y', m)
    ensures Congruent(x * y, x' * y', m)
  {
    var k: int :| Times(m, k, x - x');
    var l: int :| Times(m, l, y - y');
    assert x * y - x' * y' == m * (k * y + x' * l) by {
      assert x * y - x' * y' == (x - x') * y + x' * (y - y');
      assert m * k * y == m * (k * y) && x' * (m * l) == m * (x' * l);
    }
    assert Times(m, k * y + x' * l, x * y - x' * y');
  }

  lemma {:induction false} CongruentVia(x: int, y: int, q: int, m: int, z: int)
    requires Congruent(x, z, m) && x == q * m + y
    ensures Congruent(y, z, m)
  {
    var k: int :| Times(m, k, x - z);
    assert y - z == m * (k - q) by {
      assert m * (k - q) == m * k - m * q;
    }
    assert Times(m, k - q, y - z);
  }

  lemma {:induction false} CongruentSelf(x: int, m: int)
    ensures Congruent(x, x, m)
  {
    DividesZero(m);
  }

  /** The least residue is the only congruent number in range. */
  lemma {:induction false} LeastResidue(x: int, y: int, m: int)
    requires m > 0 && Congruent(x, y, m) && 0 <= x < m
    ensures x == y % m
  {
    var k: int :| Times(m, k, x - y);
    QuotientIs(y, m, -k, x) by {
      assert -k * m == -(m * k);
    }
  }

  /** What a remainder modulo c is multiplied by: `mdiv` turns the sign where the divisor is negative. */
  function Sign(c: Mint): int {
    if c.len > 0 then 1 else -1
  }

  /** d is the number, reduced without changing sides. */
  ghost predicate Reduced(d: int, x: int, m: int) {
    Congruent(d, x, m) && SameSide(d, x)
  }

  /** A product reduced modulo c: one `mult` and the `mdiv` after it. */
  method TimesMod(x: Mint, y: Mint, c: Mint, ghost u: int, ghost v: int) returns (d: Mint)
    requires Valid(x) && Valid(y) && Valid(c) && Canon(c) && c.len != 0 && Abs(y.len) <= MAX_LEN
    requires Reduced(Z(x), u, Magnitude(c)) && Reduced(Z(y), v, Magnitude(c))
    ensures Valid(d) && Abs(d.len) <= Abs(c.len) && Abs(Z(d)) < Magnitude(c)
    ensures Reduced(Z(d), Sign(c) * (u * v), Magnitude(c))
  {
    ProductSide(Z(x), u, Z(y), v);
    var p := Mult(x, y);
    CongruentTimes(Z(x), u, Z(y), v, Magnitude(c));
    var q;
    q, d := Mdiv(p, c);
    ghost var w, m := u * v, Magnitude(c);
    if c.len > 0 {
      CongruentVia(Z(p), Z(d), Z(q), m, w);
    } else {
      NegativeModulus(Z(p), Z(q), Z(d), m, w);
    }
  }

  lemma {:induction false} NegativeModulus(p: int, q: int, d: int, m: int, w: int)
    requires Reduced(p, w, m) && p - q * -m == -d && SameSide(d, -p)
    ensures Reduced(d, -1 * w, m)
  {
    assert q * -m == -q * m;
    CongruentVia(p, -d, -q, m, w);
    CongruentOpposite(-d, w, m);
  }

  lemma {:induction false} CongruentOpposite(x: int, y: int, m: int)
    requires Congruent(x, y, m)
    ensures Congruent(-x, -y, m)
  {
    var k: int :| Times(m, k, x - y);
    assert m * -k == -(m * k);
    assert Times(m, -k, -x - -y);
  }

  lemma {:induction false} ProductSide(x: int, u: int, y: int, v: int)
    requires SameSide(x, u) && SameSide(y, v)
    ensures SameSide(x * y, u * v)
  {
    Sides(x, y);
    Sides(u, v);
  }

  lemma {:induction false} Sides(x: int, y: int)
    ensures x == 0 || y == 0 ==> x * y == 0
    ensures (x > 0 && y > 0) || (x < 0 && y < 0) ==> x * y > 0
    ensures (x > 0 && y < 0) || (x < 0 && y > 0) ==> x * y < 0
  {
  }

  /** The remainder of the division that truncates: on the side of x. */
  function Remainder(x: int, m: int): (r: int)
    requires m > 0
    ensures -m < r < m
  {
    if x >= 0 then x % m else -(-x % m)
  }

  /** What is congruent, small enough and on the same side is the remainder. */
  lemma {:induction false} IsRemainder(x: int, y: int, m: int)
    requires m > 0 && Congruent(x, y, m) && -m < x < m && SameSide(x, y)
    ensures x == Remainder(y, m)
    ensures x == y % m <==> y >= 0 || y % m == 0
  {
    if y >= 0 {
      LeastResidue(x, y, m);
    } else {
      var k: int :| Times(m, k, x - y);
      assert Times(m, -k, -x - -y) by {
        assert m * -k == -(m * k);
      }
      LeastResidue(-x, -y, m);
      Opposite(y, m);
    }
  }

  lemma {:induction false} Opposite(y: int, m: int)
    requires m > 0
    ensures -y % m == 0 <==> y % m == 0
    ensures y % m != 0 ==> y % m > 0
  {
    var q := y / m;
    assert y == q * m + y % m;
    if y % m == 0 {
      QuotientIs(-y, m, -q, 0);
    } else {
      assert -y == (-q - 1) * m + (m - y % m) by {
        assert (-q - 1) * m == -(q * m) - m;
      }
      QuotientIs(-y, m, -q - 1, m - y % m);
    }
  }

  /** The top i of the 15 bits of a digit, and the rest in the register. */
  ghost predicate Shifting(digit: int, i: nat, top: int, n: int) {
    0 <= top && 0 <= n < 65536 && digit * Two(i) == top * B + n % B
  }

  lemma {:induction false} ShiftStep(digit: int, i: nat, top: int, n: int, n': int)
    requires Shifting(digit, i, top, n) && n' == Int16(n * 2)
    ensures Shifting(digit, i + 1, 2 * top + (if Bit15(n') then 1 else 0), n')
  {
    assert digit * (2 * Two(i)) == 2 * (digit * Two(i));
    var m := n % B;
    assert n == m || n == m + B;
    assert n' == 2 * m;
    assert n' % B == if Bit15(n') then 2 * m - B else 2 * m;
  }

  lemma {:induction false} Shifted15(digit: int, top: int, n: int)
    requires 0 <= digit < B && Shifting(digit, 15, top, n)
    ensures top == digit
  {
    Two15();
  }

  lemma {:induction false} Two15()
    ensures Two(15) == B
  {
    assert Two(5) == 32;
    assert Two(10) == 32 * Two(5);
    assert Two(15) == 32 * Two(10);
  }

  /** Modulo a negative number an even power comes out with the other sign. */
  function Turn(c: Mint, e: nat): (t: int)
    ensures t == 1 || t == -1
  {
    if c.len < 0 && e % 2 == 0 then -1 else 1
  }

  /** The running power: d is a to the e, or its opposite, modulo c. */
  ghost predicate Power(d: Mint, a: Mint, e: nat, c: Mint, t: int)
    requires Valid(d) && Valid(a) && Valid(c)
  {
    (t == 1 || t == -1) && Reduced(Z(d), t * IntPow(Z(a), e), Magnitude(c))
  }

  /** One bit of the exponent: square, and multiply by a if the bit is set. */
  method PowBit(a: Mint, bit: bool, c: Mint, d0: Mint, ghost e: nat, ghost t: int) returns (d: Mint)
    requires Valid(a) && Valid(c) && Valid(d0) && Canon(c) && 0 < Abs(c.len) <= MAX_LEN
    requires Abs(d0.len) <= MAX_LEN && Power(d0, a, e, c, t)
    ensures Valid(d) && Abs(d.len) <= MAX_LEN && Abs(Z(d)) < Magnitude(c)
    ensures var f := if bit then e + e + 1 else e + e; Power(d, a, f, c, Turn(c, f))
  {
    ghost var x, p, g := t * IntPow(Z(a), e), IntPow(Z(a), e + e), Sign(c);
    d := TimesMod(d0, d0, c, x, x);
    Squared(Z(a), e, t);
    if bit {
      CongruentSelf(Z(a), Magnitude(c));
      d := TimesMod(a, d, c, Z(a), g * p);
      Turned(Z(a), e + e, g);
    }
  }

  lemma {:induction false} Squared(a: int, e: nat, t: int)
    requires t == 1 || t == -1
    ensures (t * IntPow(a, e)) * (t * IntPow(a, e)) == IntPow(a, e + e)
  {
    var x := IntPow(a, e);
    PowSum(a, e, e);
    assert (t * x) * (t * x) == (t * t) * (x * x);
  }

  lemma {:induction false} Turned(a: int, n: nat, g: int)
    requires g == 1 || g == -1
    ensures g * (a * (g * IntPow(a, n))) == IntPow(a, n + 1)
  {
    var p := IntPow(a, n);
    assert g * (a * (g * p)) == a * p;
  }

  lemma {:induction false} Exponent(e: int, t: int, top: int, bit: int)
    ensures e * t + top + (e * t + top) + bit == e * (2 * t) + (2 * top + bit)
  {
  }

  /** The 15 rounds for one digit of the exponent. */
  method PowDigit(a: Mint, digit: int, c: Mint, d0: Mint, ghost e: nat, ghost t: int) returns (d: Mint)
    requires Valid(a) && Valid(c) && Valid(d0) && Canon(c) && 0 < Abs(c.len) <= MAX_LEN
    requires 0 <= digit < B && Abs(d0.len) <= MAX_LEN && Power(d0, a, e, c, t)
    ensures Valid(d) && Abs(d.len) <= MAX_LEN && Abs(Z(d)) < Magnitude(c)
    ensures Power(d, a, e * B + digit, c, Turn(c, e * B + digit))
  {
    d := d0;
    var n, i := digit, 0;
    ghost var top: nat, f: nat, s := 0, e, t;
    while i < 15
      invariant i <= 15 && Shifting(digit, i, top, n) && f == e * Two(i) + top
      invariant Valid(d) && Abs(d.len) <= MAX_LEN && Power(d, a, f, c, s)
      invariant i > 0 ==> Abs(Z(d)) < Magnitude(c) && s == Turn(c, f)
    {
      ShiftStep(digit, i, top, n, Int16(n * 2));
      n := Int16(n * 2);
      d := PowBit(a, Bit15(n), c, d, f, s);
      ghost var bit := if Bit15(n) then 1 else 0;
      Exponent(e, Two(i), top, bit);
      f := f + f + bit;
      s := Turn(c, f);
      top := 2 * top + bit;
      i := i + 1;
    }
    Shifted15(digit, top, n);
    Two15();
  }

  lemma {:induction false} PartNat(b: seq<int>, n: nat, j: nat)
    requires Digits(b, n) && j <= n
    ensures Part(b, n - j, j) >= 0
    ensures j > 0 ==> Part(b, n - j, j) == b[n - j] + B * Part(b, n - j + 1, j - 1)
  {
    PartBound(b, n - j, j);
    if j > 0 {
      PartLow(b, n - j, j - 1);
    }
  }

  /** The exponent that counts: a negative one has no digits to go through. */
  ghost function Exponential(b: Mint): (e: nat)
    requires Valid(b)
  {
    if b.len > 0 then Z(b) else 0
  }

  /** The power as it is reduced: the opposite for an even exponent and a negative modulus. */
  ghost function Result(a: Mint, b: Mint, c: Mint): int
    requires Valid(a) && Valid(b)
  {
    (if b.len > 0 then Turn(c, Exponential(b)) else 1) * IntPow(Z(a), Exponential(b))
  }

  /** a to the b modulo c. The result is the remainder of the power that truncates, unless c is 1 or -1 and b has no
      digits; so, for c positive, it is the least residue only where the power is not negative or c divides it. */
  method PowMod(a: Mint, b: Mint, c: Mint) returns (d: Mint)
    requires Valid(a) && Valid(b) && Valid(c) && Canon(c) && 0 < Abs(c.len) <= MAX_LEN
    ensures Valid(d) && Congruent(Z(d), Result(a, b, c), Magnitude(c))
    ensures Magnitude(c) > 0
    ensures Z(d) == Remainder(Result(a, b, c), Magnitude(c)) <==> Magnitude(c) > 1 || b.len > 0
    ensures var p := IntPow(Z(a), Exponential(b));
            c.len > 0 ==> (Z(d) == p % Z(c) <==> (Z(c) > 1 || b.len > 0) && (p >= 0 || p % Z(c) == 0))
  {
    ZeroLength(c);
    d := Mint(1, [1]);
    UnitMint(d);
    CongruentSelf(1, Magnitude(c));
    var j := 0;
    ghost var e, t := 0, 1;
    assert b.len >= 0 ==> Part(b.val, b.len, 0) == 0;
    while j < b.len
      invariant 0 <= j && (j <= b.len || j == 0) && e >= 0
      invariant if b.len > 0 then e == Part(b.val, b.len - j, j) else e == 0
      invariant Valid(d) && Abs(d.len) <= MAX_LEN && Power(d, a, e, c, t)
      invariant if j == 0 then Z(d) == 1 && t == 1 && e == 0 else Abs(Z(d)) < Magnitude(c) && t == Turn(c, e)
    {
      var digit := b.val[b.len - j - 1];
      PartNat(b.val, b.len, j + 1);
      d := PowDigit(a, digit, c, d, e, t);
      e := e * B + digit;
      t := Turn(c, e);
      j := j + 1;
    }
    if b.len > 0 {
      ValIsPart(b.val, b.len);
    }
    if b.len > 0 || Magnitude(c) > 1 {
      IsRemainder(Z(d), Result(a, b, c), Magnitude(c));
    }
  }

  /** -2 to the 1 modulo 5 comes out as -2 and not as 3. */
  method PowerOfNegative() returns (d: Mint)
    ensures Valid(d) && Z(d) == -2
  {
    OneDigit(-1, 2);
    OneDigit(1, 1);
    OneDigit(1, 5);
    d := PowMod(Mint(-1, [2]), Mint(1, [1]), Mint(1, [5]));
    assert IntPow(-2, 1) == -2 * IntPow(-2, 0);
  }

  /** Any number to no digits modulo 1 is not reduced to 0. */
  method PowerOfNothing() returns (d: Mint)
    ensures Valid(d) && Z(d) != 0
  {
    UnitMint(Mint(1, [1]));
    OneDigit(1, 5);
    d := PowMod(Mint(1, [5]), Mint(0, []), Mint(1, [1]));
  }
}
