/** Signed numbers of libmp: the sign of the length field is the sign of the number. */
module Mp {
  import opened Arithmetic
  import opened MpDigits
  import opened MpAdd
  import opened MpMult
  import opened MpDiv
  import opened MpLong

  datatype Mint = Mint(len: int, val: seq<int>)

  /** `len` is a short. */
  const MAX_LEN: int := 32767

  function Abs(x: int): (r: int)
    ensures r >= 0 && (r == x || r == -x)
  {
    if x < 0 then -x else x
  }

  ghost predicate Valid(a: Mint) {
    Digits(a.val, Abs(a.len))
  }

  ghost function Magnitude(a: Mint): (r: int)
    requires Valid(a)
    ensures r >= 0
  {
    ValBound(a.val, Abs(a.len));
    Val(a.val, Abs(a.len))
  }

  /** The number that a stands for. */
  ghost function Z(a: Mint): int
    requires Valid(a)
  {
    if a.len < 0 then -Magnitude(a) else Magnitude(a)
  }

  /** No leading zeros; zero has length 0. */
  ghost predicate Canon(a: Mint)
    requires Valid(a)
  {
    Canonical(a.val, Abs(a.len))
  }

  function Negated(a: Mint): (r: Mint)
    ensures Valid(a) ==> Valid(r) && Z(r) == -Z(a) && Magnitude(r) == Magnitude(a)
    ensures Valid(a) && Canon(a) ==> Canon(r)
  {
    Mint(-a.len, a.val)
  }

  /** A canonical number is zero only when its length is. */
  lemma {:induction false} ZeroLength(a: Mint)
    requires Valid(a) && Canon(a)
    ensures a.len == 0 <==> Z(a) == 0
    ensures a.len > 0 <==> Z(a) > 0
  {
    if a.len != 0 {
      ValLower(a.val, Abs(a.len));
    }
  }

  /** Canonical numbers of a smaller magnitude are not longer. */
  lemma {:induction false} Longer(a: Mint, b: Mint)
    requires Valid(a) && Valid(b) && Canon(a) && Abs(b.len) < Abs(a.len)
    ensures Magnitude(b) < Magnitude(a)
  {
    ValLower(a.val, Abs(a.len));
    ValBound(b.val, Abs(b.len));
    PowMonotone(Abs(b.len), Abs(a.len) - 1);
  }

  method AddUnsigned(x: Mint, y: Mint) returns (z: Mint)
    requires Valid(x) && Valid(y) && x.len >= 0 && y.len >= 0
    ensures Valid(z) && z.len >= 0 && Z(z) == Z(x) + Z(y)
    ensures Canon(x) && Canon(y) ==> Canon(z)
  {
    var c, clen;
    if x.len >= y.len {
      c, clen := MAdd(x.val, x.len, y.val, y.len);
    } else {
      c, clen := MAdd(y.val, y.len, x.val, x.len);
    }
    z := Mint(clen, c);
  }

  method SubUnsigned(x: Mint, y: Mint) returns (z: Mint)
    requires Valid(x) && Valid(y) && x.len >= 0 && y.len >= 0
    ensures Valid(z) && Z(z) == Z(x) - Z(y) && Canon(z)
  {
    var c, clen;
    if x.len >= y.len {
      c, clen := MSub(x.val, x.len, y.val, y.len);
      z := Mint(clen, c);
    } else {
      c, clen := MSub(y.val, y.len, x.val, x.len);
      z := Mint(-clen, c);
    }
  }

  method Madd(a: Mint, b: Mint) returns (c: Mint)
    requires Valid(a) && Valid(b)
    ensures Valid(c) && Z(c) == Z(a) + Z(b)
    ensures Canon(a) && Canon(b) ==> Canon(c)
  {
    if a.len >= 0 {
      if b.len >= 0 {
        c := AddUnsigned(a, b);
      } else {
        c := SubUnsigned(a, Negated(b));
      }
    } else if b.len <= 0 {
      c := AddUnsigned(Negated(a), Negated(b));
      c := Negated(c);
    } else {
      c := SubUnsigned(b, Negated(a));
    }
  }

  /** `msub` is a - b, except that with a negative and b not positive its sign is wrong. */
  method Msub(a: Mint, b: Mint) returns (c: Mint)
    requires Valid(a) && Valid(b)
    ensures Valid(c) && (Canon(a) && Canon(b) ==> Canon(c))
    ensures Z(c) == if a.len < 0 && b.len <= 0 then Z(b) - Z(a) else Z(a) - Z(b)
    ensures Z(c) == Z(a) - Z(b) <==> a.len >= 0 || b.len > 0 || Z(a) == Z(b)
  {
    if a.len >= 0 {
      if b.len >= 0 {
        c := SubUnsigned(a, b);
      } else {
        c := AddUnsigned(a, Negated(b));
      }
    } else if b.len <= 0 {
      c := SubUnsigned(Negated(b), Negated(a));
      c := Negated(c);
    } else {
      c := AddUnsigned(Negated(a), b);
      c := Negated(c);
    }
  }

  method Mult(a: Mint, b: Mint) returns (c: Mint)
    requires Valid(a) && Valid(b) && (Abs(a.len) <= MAX_LEN || Abs(b.len) <= MAX_LEN)
    ensures Valid(c) && Z(c) == Z(a) * Z(b) && (a.len >= 0 && b.len >= 0 ==> c.len >= 0)
    ensures Canon(a) && Canon(b) && a.len != 0 && b.len != 0 ==> Canon(c)
    ensures a.len == 0 && b.len != 0 ==> Abs(c.len) == Abs(b.len) - 1
    ensures b.len == 0 && a.len != 0 ==> Abs(c.len) == Abs(a.len) - 1
    ensures a.len == 0 && b.len == 0 ==> c.len == 0
  {
    var d, len := MultUnsigned(a.val, Abs(a.len), b.val, Abs(b.len));
    c := Mint(len, d);
    Signs(Magnitude(a), Magnitude(b));
    if (a.len < 0) != (b.len < 0) {
      c := Negated(c);
    }
  }

  /** The longer operand goes first. */
  method MultUnsigned(a: seq<int>, m: nat, b: seq<int>, n: nat) returns (d: seq<int>, len: nat)
    requires Digits(a, m) && Digits(b, n) && (m <= MAX_LEN || n <= MAX_LEN)
    ensures Digits(d, len) && Val(d, len) == Val(a, m) * Val(b, n)
    ensures m > 0 && n > 0 && Canonical(a, m) && Canonical(b, n) ==> Canonical(d, len)
    ensures m == 0 || n == 0 ==> len == if m + n == 0 then 0 else m + n - 1
  {
    if m < n {
      d, len := MMult(b, n, a, m);
    } else {
      d, len := MMult(a, m, b, n);
    }
  }

  lemma {:induction false} Signs(x: int, y: int)
    ensures (-x) * y == -(x * y) && x * -y == -(x * y) && (-x) * -y == x * y
  {
  }

  /** x is not on the other side of 0 than u, and is 0 when u is. */
  ghost predicate SameSide(x: int, u: int) {
    (u >= 0 ==> x >= 0) && (u <= 0 ==> x <= 0)
  }

  /** `mdiv`: truncating division; for b negative the remainder has the wrong sign. */
  method Mdiv(a: Mint, b: Mint) returns (q: Mint, r: Mint)
    requires Valid(a) && Valid(b) && Canon(b) && b.len != 0
    ensures Valid(q) && Valid(r) && Abs(r.len) <= Abs(b.len)
    ensures Magnitude(a) == Magnitude(q) * Magnitude(b) + Magnitude(r) && Magnitude(r) < Magnitude(b)
    ensures Z(a) - Z(q) * Z(b) == if b.len > 0 then Z(r) else -Z(r)
    ensures Z(a) == Z(q) * Z(b) + Z(r) <==> b.len > 0 || Magnitude(a) % Magnitude(b) == 0
    ensures a.len >= 0 && b.len > 0 ==> Z(r) >= 0 && Z(q) >= 0 && q.len >= 0 && r.len >= 0
    ensures SameSide(Z(r), if b.len > 0 then Z(a) else -Z(a))
    ensures Canon(a) ==> Canon(q) && Canon(r)
  {
    var d, dlen, e, elen := MDiv(a.val, Abs(a.len), b.val, Abs(b.len));
    q, r := Mint(dlen, d), Mint(elen, e);
    QuotientIs(Magnitude(a), Magnitude(b), Magnitude(q), Magnitude(r));
    Signs(Magnitude(q), Magnitude(b));
    MulLe(0, Magnitude(q), Magnitude(b));
    if (a.len < 0) != (b.len < 0) {
      q, r := Negated(q), Negated(r);
    }
  }

  /** `sdiv`: division by a single precision integer. */
  method Sdiv(a: Mint, n: int) returns (q: Mint, r: int)
    requires Valid(a) && 0 < Abs(n) < B
    ensures Valid(q) && Abs(r) < Abs(n) && Abs(q.len) <= Abs(a.len)
    ensures Z(a) - Z(q) * n == if n > 0 then r else -r
    ensures a.len >= 0 && n > 0 ==> r >= 0 && q.len >= 0
    ensures Canon(a) ==> Canon(q)
  {
    var d, dlen, e := SDivide(a.val, Abs(a.len), Abs(n));
    q, r := Mint(dlen, d), e;
    Signs(Magnitude(q), Abs(n));
    if (a.len < 0) != (n < 0) {
      q, r := Negated(q), -r;
    }
  }

  /** `mcmp` orders canonical numbers, but two negative numbers of one length the wrong way round. */
  method Mcmp(a: Mint, b: Mint) returns (res: int)
    requires Valid(a) && Valid(b) && Canon(a) && Canon(b)
    ensures res == 0 <==> Z(a) == Z(b)
    ensures (res < 0 <==> Z(a) < Z(b)) <==> a.len != b.len || a.len >= 0 || Z(a) == Z(b)
  {
    if a.len != b.len {
      OrderByLength(a, b);
      return a.len - b.len;
    }
    var c := Msub(a, b);
    ZeroLength(c);
    return c.len;
  }

  lemma {:induction false} OrderByLength(a: Mint, b: Mint)
    requires Valid(a) && Valid(b) && Canon(a) && Canon(b) && a.len != b.len
    ensures Z(a) != Z(b) && (a.len < b.len <==> Z(a) < Z(b))
  {
    ZeroLength(a);
    ZeroLength(b);
    if Abs(a.len) < Abs(b.len) {
      Longer(b, a);
    } else if Abs(b.len) < Abs(a.len) {
      Longer(a, b);
    }
  }

  /** `move` with `mcan`: leading zeros dropped. */
  method Mcan(a: Mint) returns (c: Mint)
    requires Valid(a)
    ensures Valid(c) && Canon(c) && Z(c) == Z(a)
  {
    var n := DropZeros(a.val, Abs(a.len));
    c := Mint(n, a.val);
    if a.len < 0 {
      c := Negated(c);
    }
  }

  // ---------------------------------------------------------------- where the results are not what they should be

  lemma {:induction false} OneDigit(sign: int, x: int)
    requires (sign == 1 || sign == -1) && 0 < x < B
    ensures Valid(Mint(sign, [x])) && Canon(Mint(sign, [x])) && Z(Mint(sign, [x])) == sign * x
            && Magnitude(Mint(sign, [x])) == x
  {
    assert Val([x], 0) == 0 && Pow(0) == 1;
    assert Val([x], 1) == x;
  }

  /** -1 less 0 comes out as 1. */
  method SubtractNothing() returns (c: Mint)
    ensures Valid(c) && Z(c) == 1
  {
    OneDigit(-1, 1);
    c := Msub(Mint(-1, [1]), Mint(0, []));
  }

  /** 7 by -2 comes out as -3 and -1, which is 5. */
  method DivideByNegative() returns (q: Mint, r: Mint)
    ensures Valid(q) && Valid(r) && Z(q) == -3 && Z(r) == -1
  {
    OneDigit(1, 7);
    OneDigit(-1, 2);
    q, r := Mdiv(Mint(1, [7]), Mint(-1, [2]));
  }

  /** -1 compares as less than -2. */
  method CompareNegatives() returns (res: int)
    ensures res < 0
  {
    OneDigit(-1, 1);
    OneDigit(-1, 2);
    res := Mcmp(Mint(-1, [1]), Mint(-1, [2]));
  }

  /** Nothing times a number of two digits comes out as a zero with a digit of its own. */
  method MultiplyNothing() returns (c: Mint)
    ensures Valid(c) && Z(c) == 0 && c.len == 1 && !Canon(c)
  {
    assert Val([3, 5], 0) == 0;
    c := Mult(Mint(0, []), Mint(2, [3, 5]));
    assert Val(c.val, 0) == 0 && Val(c.val, 1) == c.val[0] * Pow(0);
  }
}
