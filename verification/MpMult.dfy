/** `m_mult` and `tradd` (mult.c): column products in a 31-bit accumulator with a separate carry. */
module MpMult {
  import opened Arithmetic
  import opened MpDigits
  import opened MpAdd

  const LONG_SIGN: int := 0x8000_0000

  /** What is read in front of an allocated block: the allocator's header word, whose busy bit is set. */
  const BUSY_WORD: int := 1

  // ---------------------------------------------------------------- columns

  ghost function Dig(d: seq<int>, n: nat, j: int): int
    requires n <= |d|
  {
    if 0 <= j < n then d[j] else 0
  }

  /** The first j products of column i: a[t] * b[i - t] for t < j. */
  ghost function Col(a: seq<int>, m: nat, b: seq<int>, n: nat, i: int, j: nat): int
    requires m <= |a| && n <= |b|
  {
    if j == 0 then 0 else Col(a, m, b, n, i, j - 1) + Dig(a, m, j - 1) * Dig(b, n, i - (j - 1))
  }

  /** The columns below k, weighted. */
  ghost function Conv(a: seq<int>, m: nat, b: seq<int>, n: nat, k: nat): int
    requires m <= |a| && n <= |b|
  {
    if k == 0 then 0 else Conv(a, m, b, n, k - 1) + Col(a, m, b, n, k - 1, k) * Pow(k - 1)
  }

  /** The digits of a moved up by s places, as far as column k. */
  ghost function Shifted(a: seq<int>, m: nat, s: nat, k: nat): int
    requires m <= |a|
  {
    if k == 0 then 0 else Shifted(a, m, s, k - 1) + Dig(a, m, k - 1 - s) * Pow(k - 1)
  }

  lemma {:induction false} ShiftedNone(a: seq<int>, m: nat, s: nat, k: nat)
    requires m <= |a| && k <= s
    ensures Shifted(a, m, s, k) == 0
  {
    if k > 0 {
      ShiftedNone(a, m, s, k - 1);
    }
  }

  lemma {:induction false} ShiftedSome(a: seq<int>, m: nat, s: nat, j: nat)
    requires j <= m <= |a|
    ensures Shifted(a, m, s, s + j) == Val(a, j) * Pow(s)
  {
    if j == 0 {
      ShiftedNone(a, m, s, s);
    } else {
      ShiftedSome(a, m, s, j - 1);
      PowAdd(j - 1, s);
      assert s + j - 1 == j - 1 + s;
      SplitDigit(Val(a, j - 1), a[j - 1], Pow(j - 1), Pow(s));
    }
  }

  lemma {:induction false} ShiftedAll(a: seq<int>, m: nat, s: nat, k: nat)
    requires m <= |a| && m + s <= k
    ensures Shifted(a, m, s, k) == Val(a, m) * Pow(s)
  {
    if k == s + m {
      ShiftedSome(a, m, s, m);
    } else {
      ShiftedAll(a, m, s, k - 1);
    }
  }

  /** What one more digit of b adds to a column. */
  lemma {:induction false} ColDigit(a: seq<int>, m: nat, b: seq<int>, n: nat, i: int, j: nat)
    requires m <= |a| && 1 <= n <= |b|
    ensures Col(a, m, b, n, i, j)
         == Col(a, m, b, n - 1, i, j) + if 0 <= i - (n - 1) < j then Dig(a, m, i - (n - 1)) * b[n - 1] else 0
  {
    if j > 0 {
      ColDigit(a, m, b, n, i, j - 1);
    }
  }

  lemma {:induction false} ConvDigit(a: seq<int>, m: nat, b: seq<int>, n: nat, k: nat)
    requires m <= |a| && 1 <= n <= |b|
    ensures Conv(a, m, b, n, k) == Conv(a, m, b, n - 1, k) + Shifted(a, m, n - 1, k) * b[n - 1]
  {
    if k > 0 {
      ConvDigit(a, m, b, n, k - 1);
      ColDigit(a, m, b, n, k - 1, k);
      ConvStep(Conv(a, m, b, n, k - 1), Conv(a, m, b, n - 1, k - 1),
               Col(a, m, b, n, k - 1, k), Col(a, m, b, n - 1, k - 1, k),
               Dig(a, m, k - 1 - (n - 1)), b[n - 1], Pow(k - 1), Shifted(a, m, n - 1, k - 1));
    }
  }

  lemma {:induction false} ConvStep(v: int, w: int, c: int, e: int, x: int, d: int, p: int, s: int)
    requires v == w + s * d && c == e + x * d
    ensures v + c * p == w + e * p + (s + x * p) * d
  {
    assert c * p == e * p + x * d * p;
    assert (s + x * p) * d == s * d + x * p * d;
  }

  lemma {:induction false} ColEmpty(a: seq<int>, m: nat, b: seq<int>, i: int, j: nat)
    requires m <= |a|
    ensures Col(a, m, b, 0, i, j) == 0
  {
    if j > 0 {
      ColEmpty(a, m, b, i, j - 1);
    }
  }

  lemma {:induction false} ConvEmpty(a: seq<int>, m: nat, b: seq<int>, k: nat)
    requires m <= |a|
    ensures Conv(a, m, b, 0, k) == 0
  {
    if k > 0 {
      ConvEmpty(a, m, b, k - 1);
      ColEmpty(a, m, b, k - 1, k);
    }
  }

  /** All columns together make the product. */
  lemma {:induction false} ConvIsProduct(a: seq<int>, m: nat, b: seq<int>, n: nat, k: nat)
    requires m <= |a| && n <= |b| && m + n <= k
    ensures Conv(a, m, b, n, k) == Val(a, m) * Val(b, n)
  {
    if n == 0 {
      ConvEmpty(a, m, b, k);
    } else {
      ConvIsProduct(a, m, b, n - 1, k);
      ConvDigit(a, m, b, n, k);
      ShiftedAll(a, m, n - 1, k);
      ProductDigit(Val(a, m), Val(b, n - 1), b[n - 1], Pow(n - 1));
    }
  }

  lemma {:induction false} ProductDigit(v: int, w: int, d: int, p: int)
    ensures v * w + v * p * d == v * (w + d * p)
  {
    assert v * (w + d * p) == v * w + v * (d * p);
    assert v * (d * p) == v * p * d;
  }

  /** Products outside the bounds of the loops are zero. */
  lemma {:induction false} ColSkip(a: seq<int>, m: nat, b: seq<int>, n: nat, i: nat, j: nat, j': nat)
    requires m <= |a| && n <= |b| && j <= j'
    requires j == j' || j >= m || i - j' + 1 >= n
    ensures Col(a, m, b, n, i, j') == Col(a, m, b, n, i, j)
    decreases j'
  {
    if j < j' {
      ColSkip(a, m, b, n, i, j, j' - 1);
    }
  }

  // ---------------------------------------------------------------- the accumulator

  /** `tradd`: adds x to the accumulator; bit 31 is moved into the carry. */
  method Tradd(carry0: int, sum0: int, x: int) returns (carry: int, sum: int)
    requires 0 <= sum0 < LONG_SIGN && 0 <= x < 0x4000_0000
    ensures 0 <= sum < LONG_SIGN && carry0 <= carry
    ensures carry * LONG_SIGN + sum == carry0 * LONG_SIGN + sum0 + x
  {
    carry, sum := carry0, sum0 + x;
    if sum >= LONG_SIGN {
      sum := sum - LONG_SIGN;
      carry := carry + 1;
    }
  }

  lemma {:induction false} DigitProduct(x: int, y: int)
    requires 0 <= x < B && 0 <= y < B
    ensures 0 <= x * y < 0x4000_0000
  {
    MulLe(0, x, y);
    MulLe(x, B, y);
  }

  /** The inner loop over one column, from j0 up to j1. */
  method Column(a: seq<int>, m: nat, b: seq<int>, n: nat, i: nat, j0: nat, j1: nat, sum0: int)
    returns (carry: int, sum: int)
    requires Digits(a, m) && Digits(b, n) && n <= 32767
    requires j0 <= j1 <= m && j1 <= i + 1 && i - j0 < n && j1 - j0 <= n && 0 <= sum0 < LONG_SIGN
    requires (j0 == 0 || i - j0 + 1 >= n) && (j1 == i + 1 || j1 == m)
    ensures carry * LONG_SIGN + sum == sum0 + Col(a, m, b, n, i, i + 1)
    ensures 0 <= carry < B && 0 <= sum < LONG_SIGN
  {
    carry, sum := 0, sum0;
    ColSkip(a, m, b, n, i, 0, j0);
    for j := j0 to j1
      invariant 0 <= carry && 0 <= sum < LONG_SIGN
      invariant carry * LONG_SIGN + sum == sum0 + Col(a, m, b, n, i, j)
      invariant carry * LONG_SIGN + sum <= sum0 + (j - j0) * 0x4000_0000
    {
      var x := a[j];
      DigitProduct(x, b[i - j]);
      x := x * b[i - j];
      carry, sum := Tradd(carry, sum, x);
    }
    ColSkip(a, m, b, n, i, j1, i + 1);
  }

  /** The end of a column: the low 15 bits are the digit, the rest moves down, and the carry is put back
      into the high half. */
  method Emit(carry: int, sum0: int) returns (d: int, sum: int)
    requires 0 <= carry < B && 0 <= sum0 < LONG_SIGN
    ensures 0 <= d < B && 0 <= sum < LONG_SIGN
    ensures d + sum * B == carry * LONG_SIGN + sum0
  {
    d := sum0 % B;
    sum := sum0 / B;
    assert sum / 65536 == 0;
    sum := carry * 65536 + sum % 65536;
  }

  method MMult(a: seq<int>, m: nat, b: seq<int>, n: nat) returns (c: seq<int>, clen: nat)
    requires Digits(a, m) && Digits(b, n) && n <= m && n <= 32767
    ensures |c| == m + n && Digits(c, m + n) && Val(c, m + n) == Val(a, m) * Val(b, n)
    ensures clen <= m + n <= clen + 1 && Val(c, clen) == Val(a, m) * Val(b, n)
    ensures n > 0 && Canonical(a, m) && Canonical(b, n) ==> Canonical(c, clen)
    ensures n == 0 ==> clen == if m > 0 then m - 1 else 0
  {
    c := seq(m + n, _ => 0);
    var sum, i := 0, 0;
    while i < m + n
      invariant i <= m + n && |c| == m + n && 0 <= sum < LONG_SIGN
      invariant Digits(c, i)
      invariant Val(c, i) + sum * Pow(i) == Conv(a, m, b, n, i)
    {
      var carry, d;
      ghost var sum0 := sum;
      carry, sum := ColumnAt(a, m, b, n, i, sum);
      d, sum := Emit(carry, sum);
      ValPut(c, i, d);
      Carry(sum0, Col(a, m, b, n, i, i + 1), 0, d, sum, Pow(i));
      c := c[i := d];
      i := i + 1;
    }
    ConvIsProduct(a, m, b, n, m + n);
    ProductFits(a, m, b, n, c, sum);
    var top := if m + n == 0 then BUSY_WORD else c[m + n - 1];
    clen := if top != 0 then m + n else m + n - 1;
    if m > 0 {
      if n > 0 && a[m - 1] != 0 && b[n - 1] != 0 && clen == m + n - 1 {
        ProductTop(a, m, b, n);
        TopDigit(c, clen);
      }
      if n == 0 {
        ZeroTop(c, m);
      }
    }
  }

  /** The three loop headers of the program, for column i. */
  method ColumnAt(a: seq<int>, m: nat, b: seq<int>, n: nat, i: nat, sum0: int) returns (carry: int, sum: int)
    requires Digits(a, m) && Digits(b, n) && n <= m && n <= 32767 && i < m + n && 0 <= sum0 < LONG_SIGN
    ensures carry * LONG_SIGN + sum == sum0 + Col(a, m, b, n, i, i + 1)
    ensures 0 <= carry < B && 0 <= sum < LONG_SIGN
  {
    if i < n {
      carry, sum := Column(a, m, b, n, i, 0, i + 1, sum0);
    } else if i < m {
      carry, sum := Column(a, m, b, n, i, i - n + 1, i + 1, sum0);
    } else {
      carry, sum := Column(a, m, b, n, i, i - n + 1, m, sum0);
    }
  }

  /** The product leaves no carry out of the top column. */
  lemma {:induction false} ProductFits(a: seq<int>, m: nat, b: seq<int>, n: nat, c: seq<int>, sum: int)
    requires Digits(a, m) && Digits(b, n) && Digits(c, m + n) && 0 <= sum
    requires Val(c, m + n) + sum * Pow(m + n) == Val(a, m) * Val(b, n)
    ensures sum == 0
  {
    ValBound(a, m);
    ValBound(b, n);
    ValBound(c, m + n);
    PowAdd(m, n);
    MulLe(Val(a, m), Pow(m), Val(b, n));
    MulLt(Val(b, n), Pow(n), Pow(m));
    assert Val(a, m) * Val(b, n) < Pow(m) * Pow(n);
    if sum >= 1 {
      MulLe(1, sum, Pow(m + n));
    }
  }

  lemma {:induction false} ProductTop(a: seq<int>, m: nat, b: seq<int>, n: nat)
    requires Digits(a, m) && Digits(b, n) && m > 0 && n > 0 && a[m - 1] != 0 && b[n - 1] != 0
    ensures Pow(m + n - 2) <= Val(a, m) * Val(b, n)
  {
    ValLower(a, m);
    ValLower(b, n);
    PowAdd(m - 1, n - 1);
    assert m - 1 + (n - 1) == m + n - 2;
    MulLe(Pow(m - 1), Val(a, m), Pow(n - 1));
    MulLe(Pow(n - 1), Val(b, n), Val(a, m));
  }

  lemma {:induction false} ZeroTop(c: seq<int>, m: nat)
    requires m > 0 && Digits(c, m) && Val(c, m) == 0
    ensures c[m - 1] == 0
  {
    ValBound(c, m - 1);
    if c[m - 1] != 0 {
      ValLower(c, m);
    }
  }
}
