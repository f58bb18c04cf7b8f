/** `m_div` (mdiv.c): normalised long division. */
module MpLong {
  import opened Arithmetic
  import opened MpDigits
  import opened MpAdd
  import opened MpMult
  import opened MpDiv

  lemma {:induction false} TopThree(d: seq<int>, j: nat, m: nat)
    requires j + m + 3 <= |d|
    ensures Part(d, j, m + 3) == Part(d, j, m) + ((d[j + m + 2] * B + d[j + m + 1]) * B + d[j + m]) * Pow(m)
  {
    var p := Pow(m);
    assert Part(d, j, m + 1) == Part(d, j, m) + d[j + m] * p;
    assert Part(d, j, m + 2) == Part(d, j, m + 1) + d[j + m + 1] * (B * p);
    assert Part(d, j, m + 3) == Part(d, j, m + 2) + d[j + m + 2] * (B * (B * p));
    Horner(d[j + m + 2], d[j + m + 1], d[j + m], p);
  }

  lemma {:induction false} Horner(x: int, y: int, z: int, p: int)
    ensures ((x * B + y) * B + z) * p == z * p + y * (B * p) + x * (B * (B * p))
  {
    assert x * (B * (B * p)) == x * B * B * p;
  }

  lemma {:induction false} TopTwo(d: seq<int>, m: nat)
    requires m + 2 <= |d|
    ensures Val(d, m + 2) == Val(d, m) + (d[m + 1] * B + d[m]) * Pow(m)
  {
    assert Val(d, m + 1) == Val(d, m) + d[m] * Pow(m);
    Horner(0, d[m + 1], d[m], Pow(m));
  }

  lemma {:induction false} TopNotAbove(u: seq<int>, k: nat, v: seq<int>, n: nat)
    requires n > 0 && k + n <= |u| && Digits(u, |u|) && Digits(v, n) && Part(u, k, n) < Val(v, n)
    ensures u[k + n - 1] <= v[n - 1]
  {
    var m: nat := n - 1;
    var p, x, y := Pow(m), u[k + m], v[m];
    PartBound(u, k, m);
    ValBound(v, m);
    assert Part(u, k, n) == Part(u, k, m) + x * p;
    assert Val(v, n) == Val(v, m) + y * p;
    if x > y {
      MulLe(y + 1, x, p);
    }
  }

  /** The next window: one more digit under a remainder less than the divisor. */
  lemma {:induction false} NextWindow(u: seq<int>, j: nat, n: nat, v: int)
    requires Digits(u, |u|) && j + n < |u| && Part(u, j + 1, n) < v
    ensures Part(u, j, n + 1) == u[j] + B * Part(u, j + 1, n) < B * v
  {
    PartLow(u, j, n);
  }

  lemma {:induction false} WindowDigit(u: seq<int>, j: nat, n: nat, v: seq<int>, d: int)
    requires n >= 2 && j + n < |u| && Digits(u, |u|) && Digits(v, n) && v[n - 1] > 0 && 0 <= d < B
    requires Part(u, j, n + 1) < B * Val(v, n)
    requires var u3 := (u[j + n] * B + u[j + n - 1]) * B + u[j + n - 2]; var v2 := v[n - 1] * B + v[n - 2];
             d * v2 <= u3 && (d == B - 1 || u3 < (d + 1) * v2)
    ensures (d - 1) * Val(v, n) <= Part(u, j, n + 1) < (d + 1) * Val(v, n)
  {
    var m := n - 2;
    TopThree(u, j, m);
    TopTwo(v, m);
    PartBound(u, j, m);
    ValBound(v, m);
    var u3, v2 := (u[j + n] * B + u[j + n - 1]) * B + u[j + n - 2], v[n - 1] * B + v[n - 2];
    assert (u3 + 1) * Pow(m) == u3 * Pow(m) + Pow(m) && (v2 + 1) * Pow(m) == v2 * Pow(m) + Pow(m);
    assert m + 3 == n + 1 && m + 2 == n;
    TrialDigit(Part(u, j, n + 1), Val(v, n), u3, v2, Pow(m), d);
  }

  /** One quotient digit: the remainder in the window at j becomes less than the divisor again. */
  method DivideStep(v: seq<int>, n: nat, u0: seq<int>, j: nat) returns (u: seq<int>, d: int)
    requires n >= 2 && Digits(v, n) && v[n - 1] > 0 && Digits(u0, |u0|) && j + n < |u0|
    requires Part(u0, j + 1, n) < Val(v, n)
    ensures Window(u0, u, j, n) && 0 <= d < B
    ensures Part(u, j, n) == u0[j] + B * Part(u0, j + 1, n) - d * Val(v, n)
    ensures 0 <= Part(u, j, n) < Val(v, n)
  {
    ghost var k := j + 1;
    NextWindow(u0, j, n, Val(v, n));
    TopNotAbove(u0, k, v, n);
    d := MTrq(v[n - 1], v[n - 2], u0[j + n], u0[j + n - 1], u0[j + n - 2]);
    WindowDigit(u0, j, n, v, d);
    PartBound(u0, j, n + 1);
    var back;
    u, back := MDsb(d, n, v, u0, j);
    Nearby(d, Val(v, n));
    if back {
      d := d - 1;
    }
  }

  lemma {:induction false} Nearby(d: int, v: int)
    ensures (d - 1) * v == d * v - v && (d + 1) * v == d * v + v && 0 * v == 0
  {
  }

  /** The quotient digits from k on, times the divisor, and the remainder in the window at k. */
  ghost predicate Divided(u0: seq<int>, len: nat, u: seq<int>, k: nat, n: nat, q: seq<int>, v: int)
    requires k + n <= len == |u0| == |u| && len - n <= |q|
  {
    Part(u0, k, len - k) == Part(q, k, len - n - k) * v + Part(u, k, n)
  }

  lemma {:induction false} DividedStep(u0: seq<int>, len: nat, u: seq<int>, u': seq<int>, j: nat, n: nat,
                                       q: seq<int>, d: int, v: int)
    requires j + 1 + n <= len == |u0| == |u| == |u'| && len - n <= |q|
    requires Divided(u0, len, u, j + 1, n, q, v) && u[j] == u0[j]
    requires Part(u', j, n) == u[j] + B * Part(u, j + 1, n) - d * v
    ensures Divided(u0, len, u', j, n, q[j := d], v)
  {
    var k, m, q' := j + 1, len - n - j - 1, q[j := d];
    PartLow(u0, j, m + n);
    PartLow(q', j, m);
    PartPutBelow(q, j, d, k, m);
    assert len - k == m + n && len - j == m + n + 1 && len - n - j == m + 1 && len - n - k == m;
    LongStep(Part(u0, k, m + n), u0[j], Part(q, k, m), d, v, Part(u, k, n), Part(u', j, n));
  }

  /** The main loop: all quotient digits, top down; the remainder ends up in the low n digits. */
  method DivideDigits(u0: seq<int>, len: nat, v: seq<int>, n: nat) returns (q: seq<int>, u: seq<int>)
    requires n >= 2 && Digits(v, n) && v[n - 1] > 0 && Digits(u0, len) && |u0| == len > n
    requires Part(u0, len - n, n) < Val(v, n)
    ensures Digits(q, len - n) && |q| == len - n && Digits(u, n)
    ensures Val(u0, len) == Val(q, len - n) * Val(v, n) + Val(u, n) && 0 <= Val(u, n) < Val(v, n)
  {
    q := seq(len - n, _ => 0);
    u := u0;
    var j := len - n;
    assert Part(q, j, 0) == 0;
    PartBound(u, j, n);
    while j > 0
      invariant 0 <= j <= len - n && |q| == len - n && Digits(q, len - n) && |u| == len && Digits(u, len)
      invariant forall k | 0 <= k < j :: u[k] == u0[k]
      invariant 0 <= Part(u, j, n) < Val(v, n)
      invariant Divided(u0, len, u, j, n, q, Val(v, n))
    {
      j := j - 1;
      ghost var was := u;
      var d;
      u, d := DivideStep(v, n, u, j);
      DividedStep(u0, len, was, u, j, n, q, d, Val(v, n));
      q := q[j := d];
    }
    ValIsPart(u0, len);
    ValIsPart(q, len - n);
    ValIsPart(u, n);
  }

  /** Leading zeros dropped: `mcan` (util.c) on a magnitude. */
  method DropZeros(a: seq<int>, alen: nat) returns (n: nat)
    requires Digits(a, alen)
    ensures n <= alen && Canonical(a, n) && Val(a, n) == Val(a, alen)
    ensures Canonical(a, alen) ==> n == alen
  {
    n := alen;
    while n > 0 && a[n - 1] == 0
      invariant n <= alen && Val(a, n) == Val(a, alen)
      invariant Canonical(a, alen) ==> n == alen
    {
      n := n - 1;
    }
  }

  /** Scaling by d = B / (top + 1) keeps the divisor within its n digits. */
  lemma {:induction false} Normalised(b: seq<int>, n: nat, d: int, v: seq<int>)
    requires n >= 1 && Digits(b, n) && b[n - 1] != 0 && 0 < d && (b[n - 1] + 1) * d <= B
    requires |v| == n + 1 && Digits(v, n + 1) && Val(v, n + 1) == Val(b, n) * d
    ensures Val(v, n) == Val(b, n) * d && v[n - 1] != 0
  {
    ValBound(b, n - 1);
    ScaledBelow(Val(b, n - 1), b[n - 1], Pow(n - 1), d);
    ValBound(v, n);
    if v[n] != 0 {
      ValLower(v, n + 1);
    }
    ValLower(b, n);
    MulLe(1, d, Val(b, n));
    TopDigit(v, n);
  }

  lemma {:induction false} ScaleRange(t: int, d: int)
    requires 2 <= t <= B && d == B / t
    ensures 0 < d < B && t * d <= B
  {
    if d >= B {
      MulLe(2, t, d);
    }
  }

  lemma {:induction false} ScaledBelow(low: int, top: int, p: int, d: int)
    requires 0 <= low < p && 0 < d && (top + 1) * d <= B
    ensures (low + top * p) * d < B * p
  {
    MulLe((top + 1) * d, B, p);
    assert (top + 1) * d * p == top * d * p + d * p;
    MulLt(low, p, d);
    assert (low + top * p) * d == low * d + top * d * p;
  }

  /** The top n digits of the scaled dividend are less than the scaled divisor. */
  lemma {:induction false} StartsBelow(a: seq<int>, alen: nat, b: seq<int>, n: nat, d: int, u: seq<int>)
    requires Digits(a, alen) && Digits(b, n) && 1 <= n <= alen && b[n - 1] != 0 && 0 < d
    requires |u| == alen + 1 && Digits(u, alen + 1) && Val(u, alen + 1) == Val(a, alen) * d
    ensures Part(u, alen + 1 - n, n) < Val(b, n) * d
  {
    var m := alen + 1 - n;
    ValIsPart(u, alen + 1);
    PartSplit(u, 0, m, n);
    assert m + n == alen + 1 && 0 + m == m;
    PartBound(u, 0, m);
    ValBound(a, alen);
    MulLt(Val(a, alen), Pow(alen), d);
    PowAdd(n - 1, m);
    assert n - 1 + m == alen;
    ValLower(b, n);
    MulLe(Pow(n - 1), Val(b, n), d);
    BelowTop(Part(u, m, n), Pow(m), Pow(n - 1), d);
  }

  lemma {:induction false} BelowTop(x: int, p: int, q: int, d: int)
    requires p > 0 && x * p < q * p * d
    ensures x < q * d
  {
    assert q * d * p == q * p * d;
    if x >= q * d {
      MulLe(q * d, x, p);
    }
  }

  /** Dividing the scaled remainder by the scale gives the remainder. */
  lemma {:induction false} Unscaled(a: int, b: int, d: int, q: int, r: int, w: int, s: int)
    requires d > 0 && a * d == q * (b * d) + r && 0 <= r < b * d && r == w * d + s && 0 <= s < d
    ensures a == q * b + w && 0 <= w < b
  {
    assert (a - q * b - w) * d == a * d - q * (b * d) - w * d;
    SameResidue(s, 0, a - q * b - w, d);
    if w >= b {
      MulLe(b, w, d);
    }
    if w < 0 {
      MulLe(w, -1, d);
    }
    if a - q * b - w >= 1 {
      MulLe(1, a - q * b - w, d);
    } else if a - q * b - w <= -1 {
      MulLe(a - q * b - w, -1, d);
    }
  }

  /** A quotient can be one digit short of full length, not two. */
  lemma {:induction false} QuotientTop(a: seq<int>, alen: nat, b: seq<int>, n: nat, q: seq<int>, r: int)
    requires Digits(a, alen) && Digits(b, n) && 1 <= n < alen && a[alen - 1] != 0
    requires Digits(q, alen - n + 1) && q[alen - n] == 0
    requires Val(a, alen) == Val(q, alen - n + 1) * Val(b, n) + r && 0 <= r < Val(b, n)
    ensures q[alen - n - 1] != 0
  {
    var m := alen - n;
    assert Val(q, m + 1) == Val(q, m);
    if q[m - 1] == 0 {
      assert Val(q, m) == Val(q, m - 1);
      ValBound(q, m - 1);
      ValBound(b, n);
      ValLower(a, alen);
      PowAdd(m - 1, n);
      assert m - 1 + n == alen - 1;
      ShortProduct(Val(q, m - 1), Pow(m - 1), Val(b, n), Pow(n), r);
    }
  }

  lemma {:induction false} ShortProduct(x: int, p: int, y: int, q: int, r: int)
    requires 0 <= x < p && 0 <= r < y < q
    ensures x * y + r < p * q
  {
    MulLe(x + 1, p, y);
    MulLt(y, q, p);
  }

  /** A number shorter than the divisor is its own remainder. */
  lemma {:induction false} Shorter(a: seq<int>, alen: nat, b: seq<int>, n: nat)
    requires Digits(a, alen) && Digits(b, n) && alen < n && b[n - 1] != 0
    ensures Val(a, alen) < Val(b, n)
  {
    ValBound(a, alen);
    ValLower(b, n);
    PowMonotone(alen, n - 1);
  }

  /** a = q * b + r with r less than b, for any digits a and any canonical b but zero. */
  method MDiv(a: seq<int>, alen: nat, b: seq<int>, blen: nat)
    returns (q: seq<int>, qlen: nat, r: seq<int>, rlen: nat)
    requires Digits(a, alen) && Digits(b, blen) && blen > 0 && b[blen - 1] != 0
    ensures Digits(q, qlen) && Digits(r, rlen) && rlen <= blen
    ensures Val(a, alen) == Val(q, qlen) * Val(b, blen) + Val(r, rlen)
    ensures 0 <= Val(r, rlen) < Val(b, blen)
    ensures Canonical(a, alen) ==> Canonical(q, qlen) && Canonical(r, rlen)
  {
    if blen == 1 {
      var d;
      q, qlen, d := SDivide(a, alen, b[0]);
      r, rlen := [d], if d == 0 then 0 else 1;
      assert Val(r, 0) == 0 && Val(b, 0) == 0;
    } else if alen < blen {
      q, qlen, r, rlen := [], 0, a, alen;
      ValBound(a, alen);
      Shorter(a, alen, b, blen);
    } else {
      var d := B / (b[blen - 1] + 1);
      q, r, rlen := DivideScaled(a, alen, b, blen, d);
      qlen := if q[alen - blen] == 0 then alen - blen else alen - blen + 1;
      if a[alen - 1] != 0 && qlen == alen - blen > 0 {
        QuotientTop(a, alen, b, blen, q, Val(r, rlen));
      }
    }
  }

  lemma {:induction false} OneDigit(d: int)
    ensures Val([d], 1) == d
  {
    assert Pow(0) == 1 && Val([d], 0) == 0;
  }

  /** Both operands scaled by d, divided, and the remainder scaled back. */
  method DivideScaled(a: seq<int>, alen: nat, b: seq<int>, n: nat, d: int)
    returns (q: seq<int>, r: seq<int>, rlen: nat)
    requires Digits(a, alen) && Digits(b, n) && 2 <= n <= alen && b[n - 1] != 0 && d == B / (b[n - 1] + 1)
    ensures Digits(q, alen - n + 1) && Digits(r, rlen) && rlen <= n && Canonical(r, rlen)
    ensures Val(a, alen) == Val(q, alen - n + 1) * Val(b, n) + Val(r, rlen)
    ensures 0 <= Val(r, rlen) < Val(b, n)
  {
    ScaleRange(b[n - 1] + 1, d);
    OneDigit(d);
    var u, ulen := MMult(a, alen, [d], 1);
    var v, vlen := MMult(b, n, [d], 1);
    Normalised(b, n, d, v);
    StartsBelow(a, alen, b, n, d, u);
    var rest, s;
    q, rest := DivideDigits(u, alen + 1, v, n);
    var m := DropZeros(rest, n);
    r, rlen, s := SDivide(rest, m, d);
    Unscaled(Val(a, alen), Val(b, n), d, Val(q, alen - n + 1), Val(rest, n), Val(r, rlen), s);
  }
}
