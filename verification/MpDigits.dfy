/** Digit strings of libmp: base 2^15, least significant digit first. */
module MpDigits {
  import opened Arithmetic

  const B: int := 32768

  ghost function Pow(n: nat): (p: int)
    ensures p >= 1
  {
    if n == 0 then 1 else B * Pow(n - 1)
  }

  ghost predicate Digits(d: seq<int>, n: nat) {
    n <= |d| && forall k | 0 <= k < n :: 0 <= d[k] < B
  }

  /** The value of the n digits of d from position j on. */
  ghost function Part(d: seq<int>, j: nat, n: nat): int
    requires j + n <= |d|
  {
    if n == 0 then 0 else Part(d, j, n - 1) + d[j + n - 1] * Pow(n - 1)
  }

  /** The value of the first n digits of d. */
  ghost function Val(d: seq<int>, n: nat): int
    requires n <= |d|
  {
    if n == 0 then 0 else Val(d, n - 1) + d[n - 1] * Pow(n - 1)
  }

  lemma {:induction false} ValIsPart(d: seq<int>, n: nat)
    requires n <= |d|
    ensures Val(d, n) == Part(d, 0, n)
  {
    if n > 0 {
      ValIsPart(d, n - 1);
    }
  }

  lemma {:induction false} ValSame(d: seq<int>, d': seq<int>, n: nat)
    requires n <= |d| && n <= |d'|
    requires forall k | 0 <= k < n :: d[k] == d'[k]
    ensures Val(d, n) == Val(d', n)
  {
    if n > 0 {
      ValSame(d, d', n - 1);
    }
  }

  lemma {:induction false} PartSame(d: seq<int>, j: nat, d': seq<int>, j': nat, n: nat)
    requires j + n <= |d| && j' + n <= |d'|
    requires forall k, k' | j <= k < j + n && k' - k == j' - j :: d[k] == d'[k']
    ensures Part(d, j, n) == Part(d', j', n)
  {
    if n > 0 {
      PartSame(d, j, d', j', n - 1);
      var k, k' := j + n - 1, j' + n - 1;
      assert d[k] == d'[k'];
    }
  }

  /** Writing digit i leaves the value below it alone. */
  lemma {:induction false} ValPut(d: seq<int>, i: nat, x: int)
    requires i < |d|
    ensures Val(d[i := x], i) == Val(d, i)
    ensures Val(d[i := x], i + 1) == Val(d, i) + x * Pow(i)
  {
    ValSame(d[i := x], d, i);
  }

  lemma {:induction false} ValBound(d: seq<int>, n: nat)
    requires Digits(d, n)
    ensures 0 <= Val(d, n) < Pow(n)
  {
    if n > 0 {
      ValBound(d, n - 1);
      MulLe(0, d[n - 1], Pow(n - 1));
      MulLe(d[n - 1], B - 1, Pow(n - 1));
    }
  }

  lemma {:induction false} PartBound(d: seq<int>, j: nat, n: nat)
    requires j + n <= |d| && forall k | j <= k < j + n :: 0 <= d[k] < B
    ensures 0 <= Part(d, j, n) < Pow(n)
  {
    if n > 0 {
      PartBound(d, j, n - 1);
      var k := j + n - 1;
      MulLe(0, d[k], Pow(n - 1));
      MulLe(d[k], B - 1, Pow(n - 1));
    }
  }

  lemma {:induction false} PowAdd(m: nat, n: nat)
    ensures Pow(m + n) == Pow(m) * Pow(n)
  {
    if n > 0 {
      PowAdd(m, n - 1);
      assert m + n - 1 == m + (n - 1);
      Reassoc(Pow(m), Pow(n - 1));
    }
  }

  lemma {:induction false} Reassoc(x: int, y: int)
    ensures B * (x * y) == x * (B * y)
  {
  }

  /** A number with a non-zero top digit has full length. */
  lemma {:induction false} ValLower(d: seq<int>, n: nat)
    requires Digits(d, n) && n > 0 && d[n - 1] != 0
    ensures Pow(n - 1) <= Val(d, n)
  {
    ValBound(d, n - 1);
    MulLe(1, d[n - 1], Pow(n - 1));
  }

  lemma {:induction false} PowMonotone(m: nat, n: nat)
    requires m <= n
    ensures Pow(m) <= Pow(n)
    decreases n
  {
    if m < n {
      PowMonotone(m, n - 1);
    }
  }

  /** Digit by digit: x + y + z == d + c * B at one position. */
  lemma {:induction false} Carry(x: int, y: int, z: int, d: int, c: int, p: int)
    requires x + y + z == d + c * B
    ensures x * p + y * p + z * p == d * p + c * (B * p)
  {
    assert (x + y + z) * p == x * p + y * p + z * p;
    assert (d + c * B) * p == d * p + c * (B * p);
  }

  /** The lowest digit of a run taken off. */
  lemma {:induction false} PartLow(d: seq<int>, j: nat, n: nat)
    requires j + n < |d|
    ensures Part(d, j, n + 1) == d[j] + B * Part(d, j + 1, n)
  {
    if n == 0 {
      assert Part(d, j, 0) == 0;
    } else {
      PartLow(d, j, n - 1);
      assert j + 1 + n - 1 == j + n;
      Scale(Part(d, j + 1, n - 1), d[j + n], Pow(n - 1));
    }
  }

  lemma {:induction false} Scale(v: int, d: int, p: int)
    ensures B * (v + d * p) == B * v + d * (B * p)
  {
  }

  /** Writing digit i of the run at j leaves the run below it alone. */
  lemma {:induction false} PartPut(d: seq<int>, j: nat, i: nat, x: int)
    requires j + i < |d|
    ensures Part(d[j + i := x], j, i) == Part(d, j, i)
    ensures Part(d[j + i := x], j, i + 1) == Part(d, j, i) + x * Pow(i)
  {
    PartSame(d[j + i := x], j, d, j, i);
  }

  /** Writing below the run at j leaves it alone. */
  lemma {:induction false} PartPutBelow(d: seq<int>, i: nat, x: int, j: nat, n: nat)
    requires i < j && j + n <= |d|
    ensures Part(d[i := x], j, n) == Part(d, j, n)
  {
    PartSame(d[i := x], j, d, j, n);
  }

  /** A number splits at any digit. */
  lemma {:induction false} PartSplit(d: seq<int>, j: nat, m: nat, n: nat)
    requires j + m + n <= |d|
    ensures Part(d, j, m + n) == Part(d, j, m) + Part(d, j + m, n) * Pow(m)
  {
    if n > 0 {
      PartSplit(d, j, m, n - 1);
      PowAdd(n - 1, m);
      var k := m + n;
      assert k - 1 == n - 1 + m;
      SplitDigit(Part(d, j + m, n - 1), d[j + m + n - 1], Pow(n - 1), Pow(m));
    }
  }

  lemma {:induction false} SplitDigit(v: int, d: int, p: int, q: int)
    ensures (v + d * p) * q == v * q + d * (p * q)
  {
  }
}
