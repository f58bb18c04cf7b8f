/** `m_add` and `m_sub` (madd.c): digit loops with a carry or borrow kept in bit 15 of a 16-bit int. */
module MpAdd {
  import opened MpDigits

  /** The 16-bit pattern of an int result; bit 15 is the sign. */
  function Int16(x: int): (r: int)
    ensures 0 <= r < 65536
  {
    x % 65536
  }

  predicate Bit15(x: int)
    requires 0 <= x < 65536
  {
    x >= B
  }

  function Low15(x: int): (r: int)
    requires 0 <= x < 65536
    ensures 0 <= r < B
  {
    x % B
  }

  /** No leading zero digit. */
  ghost predicate Canonical(d: seq<int>, n: nat)
    requires n <= |d|
  {
    n > 0 ==> d[n - 1] != 0
  }

  /** A number at least as big as B to the n has a digit there. */
  lemma {:induction false} TopDigit(d: seq<int>, n: nat)
    requires Digits(d, n) && n > 0 && Pow(n - 1) <= Val(d, n)
    ensures d[n - 1] != 0
  {
    ValBound(d, n - 1);
  }

  /** The value of the digits written so far and the carry out of them. */
  ghost predicate Sum(c: seq<int>, i: nat, carry: int, value: int) {
    && Digits(c, i)
    && Val(c, i) + carry * Pow(i) == value
  }

  lemma {:induction false} SumStep(c: seq<int>, i: nat, carry: int, value: int, y: int, z: int, d: int, carry': int)
    requires i < |c| && Sum(c, i, carry, value) && 0 <= d < B
    requires carry + y + z == d + carry' * B
    ensures Sum(c[i := d], i + 1, carry', value + y * Pow(i) + z * Pow(i))
  {
    ValPut(c, i, d);
    Carry(carry, y, z, d, carry', Pow(i));
  }

  method MAdd(a: seq<int>, alen: nat, b: seq<int>, blen: nat) returns (c: seq<int>, clen: nat)
    requires Digits(a, alen) && Digits(b, blen) && blen <= alen
    ensures alen <= clen <= alen + 1 && Digits(c, clen) && (clen > alen ==> c[alen] == 1)
    ensures Val(c, clen) == Val(a, alen) + Val(b, blen)
    ensures Canonical(a, alen) ==> Canonical(c, clen)
  {
    c := seq(alen + 1, _ => 0);
    var carry, i := 0, 0;
    while i < blen
      invariant i <= blen && |c| == alen + 1 && 0 <= carry <= 1
      invariant Sum(c, i, carry, Val(a, i) + Val(b, i))
    {
      var x := Int16(carry + a[i] + b[i]);
      ghost var carry0 := carry;
      carry := if Bit15(x) then 1 else 0;
      SumStep(c, i, carry0, Val(a, i) + Val(b, i), a[i], b[i], Low15(x), carry);
      c := c[i := Low15(x)];
      i := i + 1;
    }
    c, carry := AddRest(a, alen, c, i, carry, Val(b, blen));
    if carry == 1 {
      ValPut(c, alen, 1);
      c := c[alen := 1];
      clen := alen + 1;
    } else {
      clen := alen;
      if alen > 0 && a[alen - 1] != 0 {
        ValLower(a, alen);
        ValBound(b, blen);
        TopDigit(c, alen);
      }
    }
  }

  /** The second loop: beyond the end of b only the carry is added. */
  method AddRest(a: seq<int>, alen: nat, c0: seq<int>, i0: nat, carry0: int, ghost v: int)
    returns (c: seq<int>, carry: int)
    requires Digits(a, alen) && i0 <= alen && |c0| == alen + 1 && 0 <= carry0 <= 1
    requires Sum(c0, i0, carry0, Val(a, i0) + v)
    ensures |c| == alen + 1 && 0 <= carry <= 1 && Sum(c, alen, carry, Val(a, alen) + v)
  {
    c, carry := c0, carry0;
    var i := i0;
    while i < alen
      invariant i0 <= i <= alen && |c| == alen + 1 && 0 <= carry <= 1
      invariant Sum(c, i, carry, Val(a, i) + v)
    {
      var x := Int16(carry + a[i]);
      ghost var carry1 := carry;
      if !Bit15(x) {
        carry := 0;
      }
      SumStep(c, i, carry1, Val(a, i) + v, a[i], 0, Low15(x), carry);
      c := c[i := Low15(x)];
      i := i + 1;
    }
  }

  /** All 15 bits of the first n digits flipped. */
  method Complement(c0: seq<int>, n: nat) returns (c: seq<int>)
    requires Digits(c0, n)
    ensures |c| == |c0| && Digits(c, n) && Val(c, n) == Pow(n) - 1 - Val(c0, n)
  {
    c := c0;
    for i := 0 to n
      invariant |c| == |c0| && Digits(c, i) && (forall k | i <= k < n :: c[k] == c0[k])
      invariant Val(c, i) == Pow(i) - 1 - Val(c0, i)
    {
      ValPut(c, i, B - 1 - c[i]);
      assert (B - 1 - c0[i]) * Pow(i) == B * Pow(i) - Pow(i) - c0[i] * Pow(i);
      c := c[i := B - 1 - c[i]];
    }
  }

  /** a - b as a signed length and digits: complemented when the final borrow shows it negative. */
  method MSub(a: seq<int>, alen: nat, b: seq<int>, blen: nat) returns (c: seq<int>, clen: int)
    requires Digits(a, alen) && Digits(b, blen) && blen <= alen
    ensures var n := if clen >= 0 then clen else -clen;
            && Digits(c, n) && Canonical(c, n)
            && Val(a, alen) - Val(b, blen) == if clen >= 0 then Val(c, n) else -Val(c, n)
  {
    var borrow;
    c, borrow := Subtract(a, alen, b, blen);
    if borrow < 0 {
      c := Negate(c, alen, a, b, blen);
    }
    var i := alen;
    while i > 0
      invariant 0 <= i <= alen && Digits(c, alen)
      invariant Val(c, alen) == Val(c, i)
    {
      i := i - 1;
      if c[i] > 0 {
        clen := if borrow == 0 then i + 1 else -i - 1;
        return;
      }
    }
    clen := 0;
  }

  /** The two's complement of a negative difference. */
  method Negate(c0: seq<int>, alen: nat, ghost a: seq<int>, ghost b: seq<int>, ghost blen: nat)
    returns (c: seq<int>)
    requires alen > 0 && Digits(c0, alen) && Digits(a, alen) && Digits(b, blen) && blen <= alen
    requires Val(c0, alen) - Pow(alen) == Val(a, alen) - Val(b, blen)
    ensures Digits(c, alen) && Val(c, alen) == Val(b, blen) - Val(a, alen)
  {
    c := Complement(c0, alen);
    var n;
    c, n := MAdd(c, alen, [1], 1);
    One();
    ValBound(a, alen);
    ValBound(b, blen);
    PowMonotone(blen, alen);
    if n > alen {
      ValLower(c, n);
    }
  }

  lemma {:induction false} One()
    ensures Val([1], 1) == 1 && Digits([1], 1)
  {
    assert Pow(0) == 1 && Val([1], 0) == 0;
  }

  /** The two borrow loops. */
  method Subtract(a: seq<int>, alen: nat, b: seq<int>, blen: nat) returns (c: seq<int>, borrow: int)
    requires Digits(a, alen) && Digits(b, blen) && blen <= alen
    ensures |c| == alen && Digits(c, alen) && -1 <= borrow <= 0 && (borrow < 0 ==> alen > 0)
    ensures Val(c, alen) + borrow * Pow(alen) == Val(a, alen) - Val(b, blen)
  {
    c := seq(alen, _ => 0);
    var i := 0;
    borrow := 0;
    while i < blen
      invariant i <= blen && |c| == alen && -1 <= borrow <= 0 && (i == 0 ==> borrow == 0)
      invariant Sum(c, i, borrow, Val(a, i) - Val(b, i))
    {
      var x := Int16(borrow + a[i] - b[i]);
      ghost var borrow0 := borrow;
      borrow := if Bit15(x) then -1 else 0;
      SumStep(c, i, borrow0, Val(a, i) - Val(b, i), a[i], -b[i], Low15(x), borrow);
      assert (-b[i]) * Pow(i) == -(b[i] * Pow(i));
      c := c[i := Low15(x)];
      i := i + 1;
    }
    c, borrow := SubtractRest(a, alen, c, i, borrow, -Val(b, blen));
  }

  method SubtractRest(a: seq<int>, alen: nat, c0: seq<int>, i0: nat, borrow0: int, ghost v: int)
    returns (c: seq<int>, borrow: int)
    requires Digits(a, alen) && i0 <= alen && |c0| == alen && -1 <= borrow0 <= 0 && (i0 == 0 ==> borrow0 == 0)
    requires Sum(c0, i0, borrow0, Val(a, i0) + v)
    ensures |c| == alen && -1 <= borrow <= 0 && (alen == 0 ==> borrow == 0)
    ensures Sum(c, alen, borrow, Val(a, alen) + v)
  {
    c, borrow := c0, borrow0;
    var i := i0;
    while i < alen
      invariant i0 <= i <= alen && |c| == alen && -1 <= borrow <= 0 && (i == 0 ==> borrow == 0)
      invariant Sum(c, i, borrow, Val(a, i) + v)
    {
      var x := Int16(borrow + a[i]);
      ghost var borrow1 := borrow;
      if !Bit15(x) {
        borrow := 0;
      }
      SumStep(c, i, borrow1, Val(a, i) + v, a[i], 0, Low15(x), borrow);
      c := c[i := Low15(x)];
      i := i + 1;
    }
  }
}
