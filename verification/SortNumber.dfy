/** The numeric branch of `cmp` of sort (sort.c): keys of any length are compared as decimal numbers, digit by digit,
    without ever being converted. */
module SortNumber {
  import opened Arithmetic

  predicate IsDigit(c: char) {
    '0' <= c <= '9'
  }

  predicate Blank(c: char) {
    c == ' ' || c == '\t'
  }

  function Digit(c: char): (d: int)
    ensures 0 <= d <= 9
    ensures IsDigit(c) ==> (d == 0 <==> c == '0')
  {
    if IsDigit(c) then c as int - '0' as int else 0
  }

  /** A line ends in its only newline. */
  ghost predicate Line(s: string) {
    |s| > 0 && s[|s| - 1] == '\n' && forall k | 0 <= k < |s| - 1 :: s[k] != '\n'
  }

  // ---------------------------------------------------------------- the number a key stands for

  ghost function Power10(k: nat): (p: int)
    ensures p >= 1
  {
    if k == 0 then 1 else 10 * Power10(k - 1)
  }

  ghost function Whole(s: string, i: nat, q: nat): (v: int)
    requires q <= |s|
    ensures v >= 0
    decreases q - i
  {
    if i >= q then 0 else Whole(s, i + 1, q) + Digit(s[i]) * Power10(q - i - 1)
  }

  ghost function Fraction(s: string, i: nat, q: nat): (v: real)
    requires q <= |s|
    ensures 0.0 <= v < 1.0
    decreases q - i
  {
    if i >= q then 0.0 else (Digit(s[i]) as real + Fraction(s, i + 1, q)) / 10.0
  }

  ghost function AfterBlanks(s: string, p: nat): (q: nat)
    requires p <= |s|
    ensures p <= q <= |s|
    decreases |s| - p
  {
    if p < |s| && Blank(s[p]) then AfterBlanks(s, p + 1) else p
  }

  ghost function DigitsEnd(s: string, p: nat, l: nat): (q: nat)
    requires l <= |s|
    ensures p <= q && (q <= l || q == p)
    decreases l - p
  {
    if p < l && IsDigit(s[p]) then DigitsEnd(s, p + 1, l) else p
  }

  ghost function Magnitude(s: string, p: nat, l: nat): (v: real)
    requires l < |s| && p < |s|
    ensures v >= 0.0
  {
    var q := DigitsEnd(s, p, l);
    var f := if s[q] == '.' then q + 1 else q;
    Whole(s, p, q) as real + Fraction(s, f, DigitsEnd(s, f, l))
  }

  /** The key from p up to l: blanks, a minus sign, digits, a point and digits, each of which may be missing. */
  ghost function Value(s: string, p: nat, l: nat): real
    requires Line(s) && l < |s| && p < |s|
  {
    BlanksEnd(s, p);
    var b := AfterBlanks(s, p);
    if s[b] == '-' then -Magnitude(s, b + 1, l) else Magnitude(s, b, l)
  }

  lemma {:induction false} BlanksEnd(s: string, p: nat)
    requires Line(s) && p < |s|
    ensures AfterBlanks(s, p) < |s|
    ensures s[AfterBlanks(s, p)] == '-' ==> AfterBlanks(s, p) + 1 < |s|
    decreases |s| - p
  {
    if Blank(s[p]) {
      BlanksEnd(s, p + 1);
    }
  }

  // ---------------------------------------------------------------- laws

  lemma {:induction false} WholeBound(s: string, i: nat, q: nat)
    requires i <= q <= |s|
    ensures Whole(s, i, q) < Power10(q - i)
    decreases q - i
  {
    if i < q {
      WholeBound(s, i + 1, q);
      var k: nat := q - i - 1;
      MulLe(Digit(s[i]), 9, Power10(k));
      assert Power10(k + 1) == 10 * Power10(k);
    }
  }

  lemma {:induction false} WholeGrows(s: string, p: nat, i: nat, q: nat)
    requires p <= i <= q <= |s|
    ensures Whole(s, p, q) >= Whole(s, i, q)
    decreases i - p
  {
    if p < i {
      WholeGrows(s, p + 1, i, q);
    }
  }

  lemma {:induction false} Power10Grows(a: nat, b: nat)
    requires a <= b
    ensures Power10(a) <= Power10(b)
  {
    if a < b {
      Power10Grows(a, b - 1);
    }
  }

  ghost predicate SameSign(a: int, b: int) {
    (a > 0 <==> b > 0) && (a < 0 <==> b < 0)
  }

  // ---------------------------------------------------------------- scanning

  method SkipBlanks(s: string, p: nat) returns (q: nat)
    requires Line(s) && p < |s|
    ensures q == AfterBlanks(s, p) && q < |s|
  {
    q := p;
    BlanksEnd(s, p);
    while Blank(s[q])
      invariant q < |s| && AfterBlanks(s, q) == AfterBlanks(s, p)
      decreases |s| - q
    {
      q := q + 1;
    }
  }

  method SkipDigits(s: string, p: nat, l: nat) returns (q: nat)
    requires l < |s|
    ensures q == DigitsEnd(s, p, l)
  {
    q := p;
    while q < l && IsDigit(s[q])
      invariant q <= l || q == p
      invariant DigitsEnd(s, q, l) == DigitsEnd(s, p, l)
      decreases l - q
    {
      q := q + 1;
    }
  }

  // ---------------------------------------------------------------- before the point

  /** From the last digits back, the later difference overriding the earlier, until one number runs out. */
  method CommonDigits(s: string, pa: nat, qa: nat, t: string, pb: nat, qb: nat) returns (ia: nat, ib: nat, a: int)
    requires pa <= qa <= |s| && pb <= qb <= |t|
    requires (forall k | pa <= k < qa :: IsDigit(s[k])) && (forall k | pb <= k < qb :: IsDigit(t[k]))
    ensures pa <= ia <= qa && pb <= ib <= qb && (ia == pa || ib == pb) && qa - ia == qb - ib
    ensures SameSign(a, Whole(t, ib, qb) - Whole(s, ia, qa))
  {
    ia, ib, a := qa, qb, 0;
    while ia > pa && ib > pb
      invariant pa <= ia <= qa && pb <= ib <= qb && qa - ia == qb - ib
      invariant SameSign(a, Whole(t, ib, qb) - Whole(s, ia, qa))
    {
      WholeBound(s, ia, qa);
      WholeBound(t, ib, qb);
      ghost var k: nat := qa - ia;
      ghost var wa, wb := Whole(s, ia, qa), Whole(t, ib, qb);
      ib := ib - 1;
      ia := ia - 1;
      var b := t[ib] as int - s[ia] as int;
      if b != 0 {
        a := b;
      }
      TopDigit(Digit(s[ia]), Digit(t[ib]), Power10(k), wa, wb);
    }
  }

  lemma {:induction false} TopDigit(da: int, db: int, p: int, wa: int, wb: int)
    requires 0 <= wa < p && 0 <= wb < p
    ensures db > da ==> wb + db * p > wa + da * p
    ensures db < da ==> wb + db * p < wa + da * p
    ensures db == da ==> (wb + db * p) - (wa + da * p) == wb - wa
  {
    if db > da {
      TimesMore(da, db, p);
    } else if db < da {
      TimesMore(db, da, p);
    }
  }

  lemma {:induction false} TimesMore(a: int, b: int, p: int)
    requires a < b && p > 0
    ensures a * p + p <= b * p
  {
    var c := b - a;
    assert b * p == a * p + c * p;
    assert (c - 1) * p >= 0;
  }

  /** What is left of the longer number: has it a digit other than 0? */
  method AnyDigit(s: string, p: nat, i0: nat, q: nat) returns (found: bool)
    requires p <= i0 <= q <= |s|
    requires forall k | p <= k < i0 :: IsDigit(s[k])
    ensures found ==> Whole(s, p, q) >= Power10(q - i0)
    ensures !found ==> Whole(s, p, q) == Whole(s, i0, q)
  {
    var i := i0;
    while i > p
      invariant p <= i <= i0 && Whole(s, i, q) == Whole(s, i0, q)
    {
      i := i - 1;
      if s[i] != '0' {
        HighDigit(s, p, i, i0, q);
        return true;
      }
    }
    return false;
  }

  lemma {:induction false} HighDigit(s: string, p: nat, i: nat, i0: nat, q: nat)
    requires p <= i < i0 <= q <= |s| && Digit(s[i]) > 0
    ensures Whole(s, p, q) >= Power10(q - i0)
  {
    var t: nat, b: nat := q - i - 1, q - i0;
    Power10Grows(b, t);
    TimesMore(0, Digit(s[i]), Power10(t));
    WholeGrows(s, p, i, q);
  }

  lemma {:induction false} AllDigits(s: string, p: nat, l: nat)
    requires l <= |s|
    ensures forall k | p <= k < DigitsEnd(s, p, l) :: k < |s| && IsDigit(s[k])
    decreases l - p
  {
    if p < l && IsDigit(s[p]) {
      AllDigits(s, p + 1, l);
    }
  }

  /** What the whole parts say: with equal signs their order, otherwise the sign of one that is not 0. */
  ghost predicate WholeVerdict(c: int, sa: int, sb: int, x: int, y: int) {
    if sa == sb then SameSign(c, sa * (y - x)) else c == (if x > 0 then -sa else if y > 0 then sb else 0)
  }

  method CompareWhole(s: string, pa: nat, qa: nat, t: string, pb: nat, qb: nat, sa: int, sb: int) returns (c: int)
    requires pa <= qa <= |s| && pb <= qb <= |t|
    requires (forall k | pa <= k < qa :: IsDigit(s[k])) && (forall k | pb <= k < qb :: IsDigit(t[k]))
    requires (sa == 1 || sa == -1) && (sb == 1 || sb == -1)
    ensures WholeVerdict(c, sa, sb, Whole(s, pa, qa), Whole(t, pb, qb))
  {
    var ia, ib, a := qa, qb, 0;
    if sa == sb {
      ia, ib, a := CommonDigits(s, pa, qa, t, pb, qb);
    }
    WholeBound(s, ia, qa);
    WholeBound(t, ib, qb);
    var found := AnyDigit(s, pa, ia, qa);
    if found {
      return -sa;
    }
    found := AnyDigit(t, pb, ib, qb);
    if found {
      return sb;
    }
    return a * sa;
  }

  // ---------------------------------------------------------------- after the point

  ghost predicate SameOrder(a: real, b: real, c: real, d: real) {
    (a < b <==> c < d) && (a > b <==> c > d)
  }

  ghost predicate FractionVerdict(c: int, sa: int, sb: int, x: real, y: real) {
    if sa == sb
    then (c * sa > 0 <==> x < y) && (c * sa < 0 <==> x > y)
    else c == (if x > 0.0 then -sa else if y > 0.0 then sb else 0)
  }

  method CommonFraction(s: string, pa0: nat, la: nat, t: string, pb0: nat, lb: nat) returns (pa: nat, pb: nat, a: int)
    requires la < |s| && lb < |t| && pa0 <= |s| && pb0 <= |t|
    ensures pa0 <= pa <= |s| && pb0 <= pb <= |t| && DigitsEnd(s, pa, la) == DigitsEnd(s, pa0, la)
            && DigitsEnd(t, pb, lb) == DigitsEnd(t, pb0, lb)
    ensures a > 0 ==> Fraction(s, pa0, DigitsEnd(s, pa0, la)) < Fraction(t, pb0, DigitsEnd(t, pb0, lb))
    ensures a < 0 ==> Fraction(s, pa0, DigitsEnd(s, pa0, la)) > Fraction(t, pb0, DigitsEnd(t, pb0, lb))
    ensures a == 0 ==> SameOrder(Fraction(s, pa0, DigitsEnd(s, pa0, la)), Fraction(t, pb0, DigitsEnd(t, pb0, lb)),
                                 Fraction(s, pa, DigitsEnd(s, pa, la)), Fraction(t, pb, DigitsEnd(t, pb, lb)))
    ensures a == 0 ==> pa == DigitsEnd(s, pa, la) || pb == DigitsEnd(t, pb, lb)
  {
    pa, pb, a := pa0, pb0, 0;
    ghost var qa, qb := DigitsEnd(s, pa0, la), DigitsEnd(t, pb0, lb);
    while pa < la && IsDigit(s[pa]) && pb < lb && IsDigit(t[pb])
      invariant pa0 <= pa <= |s| && pb0 <= pb <= |t| && DigitsEnd(s, pa, la) == qa && DigitsEnd(t, pb, lb) == qb
      invariant SameOrder(Fraction(s, pa0, qa), Fraction(t, pb0, qb), Fraction(s, pa, qa), Fraction(t, pb, qb))
      decreases la - pa
    {
      a := t[pb] as int - s[pa] as int;
      if a != 0 {
        return;
      }
      pb := pb + 1;
      pa := pa + 1;
    }
  }

  method AnyFraction(s: string, p0: nat, l: nat) returns (found: bool)
    requires l < |s| && p0 <= |s|
    ensures found <==> Fraction(s, p0, DigitsEnd(s, p0, l)) > 0.0
  {
    var p := p0;
    ghost var q := DigitsEnd(s, p0, l);
    while p < l && IsDigit(s[p])
      invariant p0 <= p <= |s| && DigitsEnd(s, p, l) == q
      invariant Fraction(s, p0, q) > 0.0 <==> Fraction(s, p, q) > 0.0
      decreases l - p
    {
      if s[p] != '0' {
        return true;
      }
      p := p + 1;
    }
    return false;
  }

  method CompareFraction(s: string, pa: nat, la: nat, t: string, pb: nat, lb: nat, sa: int, sb: int) returns (c: int)
    requires la < |s| && lb < |t| && pa <= |s| && pb <= |t|
    requires (sa == 1 || sa == -1) && (sb == 1 || sb == -1)
    ensures FractionVerdict(c, sa, sb, Fraction(s, pa, DigitsEnd(s, pa, la)), Fraction(t, pb, DigitsEnd(t, pb, lb)))
  {
    var ia, ib, a := pa, pb, 0;
    if sa == sb {
      ia, ib, a := CommonFraction(s, pa, la, t, pb, lb);
      if a != 0 {
        return a * sa;
      }
    }
    var found := AnyFraction(s, ia, la);
    if found {
      return -sa;
    }
    found := AnyFraction(t, ib, lb);
    if found {
      return sb;
    }
    return 0;
  }

  // ---------------------------------------------------------------- the whole comparison

  ghost function Signed(sign: int, v: real): real {
    if sign == 1 then v else -v
  }

  ghost predicate Tells(c: int, va: real, vb: real) {
    (c > 0 <==> va < vb) && (c < 0 <==> va > vb)
  }

  lemma {:induction false} Verdict(c: int, d: int, sa: int, sb: int, x: int, y: int, f: real, g: real)
    requires (sa == 1 || sa == -1) && (sb == 1 || sb == -1) && x >= 0 && y >= 0 && 0.0 <= f < 1.0 && 0.0 <= g < 1.0
    requires WholeVerdict(c, sa, sb, x, y) && (c == 0 ==> FractionVerdict(d, sa, sb, f, g))
    ensures var r := if c != 0 then c else d;
            Tells(r, Signed(sa, x as real + f), Signed(sb, y as real + g))
  {
    assert x > y ==> x as real >= y as real + 1.0;
    assert x < y ==> x as real + 1.0 <= y as real;
  }

  /** Positive when the first key is the smaller number, negative when it is the larger and 0 when both are equal, and
      the other way round with `-r`. */
  method NumericCompare(s: string, p: nat, la: nat, t: string, q: nat, lb: nat, rflg: int) returns (c: int)
    requires Line(s) && Line(t) && p < |s| && la < |s| && q < |t| && lb < |t|
    requires rflg == 1 || rflg == -1
    ensures rflg == 1 ==> (c > 0 <==> Value(s, p, la) < Value(t, q, lb))
                          && (c < 0 <==> Value(s, p, la) > Value(t, q, lb))
    ensures rflg == -1 ==> (c > 0 <==> Value(s, p, la) > Value(t, q, lb))
                           && (c < 0 <==> Value(s, p, la) < Value(t, q, lb))
  {
    var pa := SkipBlanks(s, p);
    var pb := SkipBlanks(t, q);
    var sa, sb := rflg, rflg;
    if s[pa] == '-' {
      pa := pa + 1;
      sa := -sa;
    }
    if t[pb] == '-' {
      pb := pb + 1;
      sb := -sb;
    }
    c := CompareMagnitudes(s, pa, la, t, pb, lb, sa, sb);
  }

  method CompareMagnitudes(s: string, pa: nat, la: nat, t: string, pb: nat, lb: nat, sa: int, sb: int) returns (c: int)
    requires pa < |s| && la < |s| && pb < |t| && lb < |t|
    requires (sa == 1 || sa == -1) && (sb == 1 || sb == -1)
    ensures Tells(c, Signed(sa, Magnitude(s, pa, la)), Signed(sb, Magnitude(t, pb, lb)))
  {
    var ja := SkipDigits(s, pa, la);
    var jb := SkipDigits(t, pb, lb);
    AllDigits(s, pa, la);
    AllDigits(t, pb, lb);
    c := CompareWhole(s, pa, ja, t, pb, jb, sa, sb);
    var fa := if s[ja] == '.' then ja + 1 else ja;
    var fb := if t[jb] == '.' then jb + 1 else jb;
    ghost var d := 0;
    ghost var whole := c;
    if c == 0 {
      c := CompareFraction(s, fa, la, t, fb, lb, sa, sb);
      d := c;
    }
    Verdict(whole, d, sa, sb, Whole(s, pa, ja), Whole(t, pb, jb),
            Fraction(s, fa, DigitsEnd(s, fa, la)), Fraction(t, fb, DigitsEnd(t, fb, lb)));
  }
}
