/** `s_div` (mout.c) and `m_div` (mdiv.c): division by one digit, and normalised long division. */
module MpDiv {
  import opened Arithmetic
  import opened MpDigits
  import opened MpAdd
  import opened MpMult

  // ---------------------------------------------------------------- one digit

  /** The digits from i on divide to the quotient digits from i on and the running remainder x. */
  ghost predicate Partway(a: seq<int>, alen: nat, q: seq<int>, i: nat, n: int, x: int)
    requires i <= alen <= |a| && alen <= |q|
  {
    Part(a, i, alen - i) == Part(q, i, alen - i) * n + x
  }

  lemma {:induction false} PartwayStep(a: seq<int>, alen: nat, q: seq<int>, i: nat, n: int, x: int, d: int, x': int)
    requires i < alen <= |a| && alen <= |q| && x * B + a[i] == d * n + x'
    requires Partway(a, alen, q, i + 1, n, x)
    ensures Partway(a, alen, q[i := d], i, n, x')
  {
    var q', k, m := q[i := d], i + 1, alen - i - 1;
    PartLow(a, i, m);
    PartLow(q', i, m);
    PartPutBelow(q, i, d, k, m);
    LongStep(Part(a, k, m), a[i], Part(q, k, m), d, n, x, x');
    assert alen - i == m + 1;
  }

  lemma {:induction false} LongStep(v: int, u: int, w: int, d: int, n: int, x: int, x': int)
    requires v == w * n + x && x * B + u == d * n + x'
    ensures u + B * v == (d + B * w) * n + x'
  {
    assert B * (w * n) == B * w * n;
    assert (d + B * w) * n == d * n + B * w * n;
  }

  lemma {:induction false} DigitQuotient(x: int, u: int, n: int)
    requires 0 <= x < n && 0 <= u < B
    ensures 0 <= (x * B + u) / n < B && 0 <= (x * B + u) % n < n
    ensures x * B + u == (x * B + u) / n * n + (x * B + u) % n
  {
    var y := x * B + u;
    assert 0 <= y < n * B;
  }

  method SDivide(a: seq<int>, alen: nat, n: int) returns (q: seq<int>, qlen: nat, r: int)
    requires Digits(a, alen) && 0 < n < B
    ensures qlen <= alen <= qlen + 1 && Digits(q, qlen) && 0 <= r < n
    ensures Val(a, alen) == Val(q, qlen) * n + r
    ensures Canonical(a, alen) ==> Canonical(q, qlen)
  {
    var x, i := 0, alen;
    q := seq(alen, _ => 0);
    while i > 0
      invariant 0 <= i <= alen && |q| == alen && 0 <= x < n && Digits(q, alen)
      invariant Partway(a, alen, q, i, n, x)
    {
      i := i - 1;
      DigitQuotient(x, a[i], n);
      var y := x * B + a[i];
      PartwayStep(a, alen, q, i, n, x, y / n, y % n);
      q := q[i := y / n];
      x := y % n;
    }
    r := x;
    ValIsPart(a, alen);
    ValIsPart(q, alen);
    var top := if alen == 0 then BUSY_WORD else q[alen - 1];
    qlen := if top == 0 then alen - 1 else alen;
    if top == 0 && qlen > 0 && a[alen - 1] != 0 {
      OneDigitLost(a, alen, q, n, r);
    }
  }

  /** Dividing by one digit shortens a number by at most one digit. */
  lemma {:induction false} OneDigitLost(a: seq<int>, alen: nat, q: seq<int>, n: int, r: int)
    requires Digits(a, alen) && alen >= 2 && a[alen - 1] != 0 && 0 <= r < n < B
    requires Digits(q, alen) && q[alen - 1] == 0 && Val(a, alen) == Val(q, alen) * n + r
    ensures q[alen - 2] != 0
  {
    var m := alen - 1;
    ValLower(a, alen);
    assert Val(q, alen) == Val(q, m);
    if q[m - 1] == 0 {
      assert Val(q, m) == Val(q, m - 1);
      ValBound(q, m - 1);
      Swamped(Val(q, m - 1), Pow(m - 1), n, r);
    }
  }

  lemma {:induction false} Swamped(v: int, p: int, n: int, r: int)
    requires 0 <= v < p && 0 <= r < n < B
    ensures v * n + r < B * p
  {
    MulLe(v + 1, p, n);
    MulLe(n, B, p);
  }

  // ---------------------------------------------------------------- the trial digit

  /** A value a C long can hold. */
  predicate Long(x: int) {
    -LONG_SIGN <= x < LONG_SIGN
  }

  /** `m_trq`: the largest digit whose product with the two top digits of the divisor fits
      under the three top digits of the dividend; no intermediate result leaves a long. */
  method MTrq(v1: int, v2: int, u1: int, u2: int, u3: int) returns (d: int)
    requires 0 < v1 < B && 0 <= v2 < B && 0 <= u1 <= v1 && 0 <= u2 < B && 0 <= u3 < B
    ensures 0 <= d < B
    ensures d * (v1 * B + v2) <= (u1 * B + u2) * B + u3
    ensures d == B - 1 || (u1 * B + u2) * B + u3 < (d + 1) * (v1 * B + v2)
  {
    if u1 == v1 {
      d := B - 1;
      assert u1 * B + u2 - v1 * d == v1 + u2;
    } else {
      FirstGuess(v1, v2, u1, u2, u3);
      d := (u1 * B + u2) / v1;
    }
    while true
      invariant 0 <= d < B && 0 <= u1 * B + u2 - v1 * d < 65536
      invariant d == B - 1 || (u1 * B + u2) * B + u3 < (d + 1) * (v1 * B + v2)
      decreases d
    {
      var x1 := u1 * B + u2 - v1 * d;
      DigitProduct(v1, d);
      DigitProduct(v2, d);
      assert Long(v1 * d) && Long(x1 * B + u3) && Long(x1 * B + u3 - v2 * d);
      TwoDigits(v1, v2, d);
      x1 := x1 * B + u3 - v2 * d;
      if x1 < 0 {
        Lower(v1, v2, d);
        d := d - 1;
      } else {
        return;
      }
    }
  }

  lemma {:induction false} TwoDigits(v1: int, v2: int, d: int)
    ensures d * (v1 * B + v2) == v1 * d * B + v2 * d
  {
  }

  lemma {:induction false} Lower(v1: int, v2: int, d: int)
    ensures v1 * (d - 1) == v1 * d - v1
    ensures (d - 1 + 1) * (v1 * B + v2) == d * (v1 * B + v2)
  {
  }

  lemma {:induction false} FirstGuess(v1: int, v2: int, u1: int, u2: int, u3: int)
    requires 0 < v1 < B && 0 <= v2 < B && 0 <= u1 < v1 && 0 <= u2 < B && 0 <= u3 < B
    ensures var d := (u1 * B + u2) / v1;
            && 0 <= d < B && 0 <= u1 * B + u2 - v1 * d < v1
            && (u1 * B + u2) * B + u3 < (d + 1) * (v1 * B + v2)
  {
    var y := u1 * B + u2;
    var d := y / v1;
    DigitQuotient(u1, u2, v1);
    assert d * v1 == v1 * d;
    TwoDigits(v1, v2, d + 1);
    assert v1 * (d + 1) == v1 * d + v1;
    MulLe(0, v2, d + 1);
    assert v2 * (d + 1) >= 0;
  }

  /** Knuth's bound: the trial digit is the true digit or one more. */
  lemma {:induction false} TrialDigit(u: int, v: int, u3: int, v2: int, p: int, d: int)
    requires 0 < p && 0 <= d < B && B <= v2
    requires u3 * p <= u < (u3 + 1) * p && v2 * p <= v < (v2 + 1) * p && u < B * v
    requires d * v2 <= u3 && (d == B - 1 || u3 < (d + 1) * v2)
    ensures (d - 1) * v <= u < (d + 1) * v
  {
    // not too small
    if d < B - 1 {
      MulLe(u3 + 1, (d + 1) * v2, p);
      assert (d + 1) * v2 * p == (d + 1) * (v2 * p);
      MulLe(v2 * p, v, d + 1);
      assert (d + 1) * (v2 * p) <= (d + 1) * v;
    }
    // at most one too big
    MulLe(d * v2, u3, p);
    assert d * v2 * p == d * (v2 * p);
    MulLe(v, (v2 + 1) * p, d);
    assert (v2 + 1) * p * d == d * (v2 * p) + d * p;
    MulLe(d, v2, p);
    assert (d - 1) * v == v * d - v;
  }

  // ---------------------------------------------------------------- subtract, and add back

  /** Digits of u outside the window of n + 1 at j are those of u0, and all are digits. */
  ghost predicate Window(u0: seq<int>, u: seq<int>, j: nat, n: nat) {
    && j <= |u| == |u0| && Digits(u, |u|)
    && forall k | 0 <= k < j :: u[k] == u0[k]
  }

  lemma {:induction false} BorrowStep(u: seq<int>, j: nat, i: nat, w: int, a: seq<int>, q: int,
                                      borrow: int, d: int, borrow': int, b: int)
    requires j + i < |u| && i < |a|
    requires Part(u, j, i) + borrow * Pow(i) == w - q * Val(a, i)
    requires borrow - a[i] * q + b == d + borrow' * B
    ensures Part(u[j + i := d], j, i + 1) + borrow' * Pow(i + 1) == w + b * Pow(i) - q * Val(a, i + 1)
  {
    PartPut(u, j, i, d);
    Carry(borrow, -(a[i] * q), b, d, borrow', Pow(i));
    Distribute(q, Val(a, i), a[i], Pow(i));
  }

  lemma {:induction false} Distribute(q: int, v: int, d: int, p: int)
    ensures q * (v + d * p) == q * v + d * q * p
    ensures -(d * q) * p == -(d * q * p)
  {
    assert q * (d * p) == d * q * p;
  }

  lemma {:induction false} BorrowRange(borrow: int, x: int, q: int, b: int)
    requires -B < borrow <= 0 && 0 <= x < B && 0 <= q < B && 0 <= b < B
    ensures -B * B < borrow - x * q + b < B
    ensures -B < (borrow - x * q + b) / B <= 0
  {
    MulLe(0, x, q);
    MulLe(x, B - 1, q);
  }

  /** The first loop of `m_dsb` and the digit above it: u - q * a, with what is left of the borrow. */
  method MultiplySubtract(q: int, n: nat, a: seq<int>, u0: seq<int>, j: nat) returns (u: seq<int>, top: int)
    requires 0 <= q < B && Digits(a, n) && Digits(u0, |u0|) && j + n < |u0|
    ensures Window(u0, u, j, n)
    ensures Part(u, j, n + 1) + top * Pow(n + 1) == Part(u0, j, n + 1) - q * Val(a, n)
  {
    u := u0;
    var borrow, i := 0, 0;
    while i < n
      invariant i <= n && -B < borrow <= 0 && Window(u0, u, j, n)
      invariant forall k | j + i <= k < |u| :: u[k] == u0[k]
      invariant Part(u, j, i) + borrow * Pow(i) == Part(u0, j, i) - q * Val(a, i)
    {
      var x := borrow - a[i] * q + u[j + i];
      BorrowRange(borrow, a[i], q, u[j + i]);
      assert Long(x);
      BorrowStep(u, j, i, Part(u0, j, i), a, q, borrow, x % B, x / B, u[j + i]);
      u := u[j + i := x % B];
      borrow := x / B;
      i := i + 1;
    }
    var x := borrow + u[j + n];
    PartPut(u, j, n, x % B);
    Carry(borrow, u0[j + n], 0, x % B, x / B, Pow(n));
    u := u[j + n := x % B];
    top := x / B;
  }

  /** The second loop of `m_dsb`: the divisor is added back to the low n digits, and the carry dropped. */
  method AddBack(n: nat, a: seq<int>, u0: seq<int>, j: nat) returns (u: seq<int>, ghost carry: int)
    requires Digits(a, n) && Digits(u0, |u0|) && j + n < |u0|
    ensures Window(u0, u, j, n)
    ensures Part(u, j, n) + carry * Pow(n) == Part(u0, j, n) + Val(a, n)
  {
    u := u0;
    var borrow, i := 0, 0;
    while i < n
      invariant i <= n && 0 <= borrow <= 1 && Window(u0, u, j, n)
      invariant forall k | j + i <= k < |u| :: u[k] == u0[k]
      invariant Part(u, j, i) + borrow * Pow(i) == Part(u0, j, i) + Val(a, i)
    {
      var x := Int16(a[i] + u[j + i] + borrow);
      ghost var borrow0 := borrow;
      borrow := if Bit15(x) then 1 else 0;
      AddStep(u, j, i, Part(u0, j, i), a, borrow0, Low15(x), borrow, u[j + i]);
      u := u[j + i := Low15(x)];
      i := i + 1;
    }
    carry := borrow;
  }

  lemma {:induction false} AddStep(u: seq<int>, j: nat, i: nat, w: int, a: seq<int>,
                                   borrow: int, d: int, borrow': int, b: int)
    requires j + i < |u| && i < |a|
    requires Part(u, j, i) + borrow * Pow(i) == w + Val(a, i)
    requires borrow + a[i] + b == d + borrow' * B
    ensures Part(u[j + i := d], j, i + 1) + borrow' * Pow(i + 1) == w + b * Pow(i) + Val(a, i + 1)
  {
    PartPut(u, j, i, d);
    Carry(borrow, a[i], b, d, borrow', Pow(i));
  }

  lemma {:induction false} SameResidue(x: int, y: int, k: int, p: int)
    requires 0 <= x < p && 0 <= y < p && x - y == k * p
    ensures x == y
  {
    if k >= 1 {
      MulLe(1, k, p);
    } else if k <= -1 {
      MulLe(k, -1, p);
    }
  }

  /** `m_dsb`: takes q * a from the window, or one a less when that would go below zero. */
  method MDsb(q: int, n: nat, a: seq<int>, u0: seq<int>, j: nat) returns (u: seq<int>, back: bool)
    requires 0 <= q < B && Digits(a, n) && Digits(u0, |u0|) && j + n < |u0|
    requires (q - 1) * Val(a, n) <= Part(u0, j, n + 1) < (q + 1) * Val(a, n)
    ensures Window(u0, u, j, n)
    ensures back <==> Part(u0, j, n + 1) < q * Val(a, n)
    ensures Part(u, j, n) == Part(u0, j, n + 1) - (if back then q - 1 else q) * Val(a, n)
  {
    var top;
    u, top := MultiplySubtract(q, n, a, u0, j);
    ghost var w := Part(u0, j, n + 1) - q * Val(a, n);
    Nearly(q, Val(a, n), Part(u0, j, n + 1));
    ValBound(a, n);
    PartBound(u0, j, n + 1);
    if top == 0 {
      KeepDigits(u, j, n, w);
      return u, false;
    }
    PartBound(u, j, n + 1);
    NegativeTop(Part(u, j, n + 1), top, w, Pow(n + 1));
    ghost var carry, rest := 0, u;
    u, carry := AddBack(n, a, u, j);
    BackDigits(rest, u, j, n, top, carry, w, Val(a, n));
    return u, true;
  }

  lemma {:induction false} Nearly(q: int, v: int, w: int)
    requires (q - 1) * v <= w < (q + 1) * v
    ensures -v <= w - q * v < v
    ensures w - (q - 1) * v == w - q * v + v
  {
    assert (q + 1) * v == q * v + v && (q - 1) * v == q * v - v;
  }

  lemma {:induction false} KeepDigits(u: seq<int>, j: nat, n: nat, w: int)
    requires Digits(u, |u|) && j + n < |u| && Part(u, j, n + 1) == w && w < Pow(n)
    ensures Part(u, j, n) == w && w >= 0
  {
    PartBound(u, j, n);
    PartBound(u, j, n + 1);
    SameResidue(w, Part(u, j, n), u[j + n], Pow(n));
  }

  lemma {:induction false} BackDigits(u: seq<int>, u': seq<int>, j: nat, n: nat, top: int, carry: int, w: int, v: int)
    requires j + n < |u| == |u'| && Digits(u', |u'|)
    requires Part(u, j, n + 1) + top * Pow(n + 1) == w
    requires Part(u', j, n) + carry * Pow(n) == Part(u, j, n) + v && 0 <= w + v < Pow(n)
    ensures Part(u', j, n) == w + v
  {
    var high := u[j + n];
    PartBound(u', j, n);
    assert high * Pow(n) + top * (B * Pow(n)) == (high + top * B) * Pow(n);
    Multiples(Part(u, j, n), high + top * B, carry, Pow(n), w, v, Part(u', j, n));
  }

  lemma {:induction false} NegativeTop(x: int, top: int, y: int, p: int)
    requires 0 <= x < p && x + top * p == y && top != 0 && y < p
    ensures y < 0
  {
    if top >= 1 {
      MulLe(1, top, p);
    } else {
      MulLe(top, -1, p);
    }
  }

  lemma {:induction false} Multiples(rest: int, h: int, carry: int, p: int, y: int, v: int, s: int)
    requires rest + h * p == y && s + carry * p == rest + v
    requires 0 <= s < p && 0 <= y + v < p
    ensures s == y + v
  {
    assert (h + carry) * p == h * p + carry * p;
    SameResidue(y + v, s, h + carry, p);
  }
}
