/** `qsort` of sort (sort.c): a quicksort whose partition gathers all elements equal to the pivot in the middle. */
module SortQuick {
  import opened Arithmetic

  /** Lines by number; `compare` puts them in an order that some ranking of them tells. */
  function Compare(rank: int -> int, x: int, y: int): int {
    rank(x) - rank(y)
  }

  // ---------------------------------------------------------------- exchanges

  function Exchange(s: seq<int>, p: nat, q: nat): (r: seq<int>)
    requires p < |s| && q < |s|
    ensures |r| == |s| && r[p] == s[q] && r[q] == s[p] && forall k | 0 <= k < |s| && k != p && k != q :: r[k] == s[k]
  {
    s[p := s[q]][q := s[p]]
  }

  /** `qstexc`: p gets what is at r, r what is at q, and q what was at p. */
  function Exchange3(s: seq<int>, p: nat, q: nat, r: nat): (t: seq<int>)
    requires p < |s| && q < |s| && r < |s| && p != q && p != r
    ensures |t| == |s| && t[p] == s[r] && t[q] == s[p] && (q != r ==> t[r] == s[q])
    ensures forall k | 0 <= k < |s| && k != p && k != q && k != r :: t[k] == s[k]
  {
    s[p := s[r]][r := s[q]][q := s[p]]
  }

  lemma {:induction false} ExchangePermutes(s: seq<int>, p: nat, q: nat)
    requires p < |s| && q < |s|
    ensures multiset(Exchange(s, p, q)) == multiset(s)
  {
  }

  lemma {:induction false} Exchange3Permutes(s: seq<int>, p: nat, q: nat, r: nat)
    requires p < |s| && q < |s| && r < |s| && p != q && p != r
    ensures multiset(Exchange3(s, p, q, r)) == multiset(s)
  {
    if q == r {
      assert Exchange3(s, p, q, r) == Exchange(s, p, q);
    } else {
      assert Exchange3(s, p, q, r) == Exchange(Exchange(s, p, r), r, q);
      ExchangePermutes(s, p, r);
      ExchangePermutes(Exchange(s, p, r), r, q);
    }
  }

  // ---------------------------------------------------------------- what sorting a stretch may do

  ghost predicate Within(s: seq<int>, a: nat, l: nat, x: int) {
    exists m :: a <= m < l <= |s| && s[m] == x
  }

  /** The same elements, and outside of a to l in the same places. */
  ghost predicate Rearranged(s: seq<int>, t: seq<int>, a: nat, l: nat) {
    && |t| == |s| && a <= l <= |s| && multiset(t) == multiset(s)
    && (forall k | 0 <= k < |s| && !(a <= k < l) :: t[k] == s[k])
    && (forall k | a <= k < l :: Within(s, a, l, t[k]))
  }

  lemma {:induction false} RearrangedSelf(s: seq<int>, a: nat, l: nat)
    requires a <= l <= |s|
    ensures Rearranged(s, s, a, l)
  {
  }

  lemma {:induction false} RearrangedTrans(s: seq<int>, t: seq<int>, u: seq<int>, a: nat, l: nat)
    requires Rearranged(s, t, a, l) && Rearranged(t, u, a, l)
    ensures Rearranged(s, u, a, l)
  {
    forall k | a <= k < l ensures Within(s, a, l, u[k]) {
      assert Within(t, a, l, u[k]);
      var m :| a <= m < l && t[m] == u[k];
      assert Within(s, a, l, t[m]);
    }
  }

  /** Rearranging a part of a stretch rearranges the stretch. */
  lemma {:induction false} RearrangedPart(s: seq<int>, t: seq<int>, b: nat, m: nat, a: nat, l: nat)
    requires Rearranged(s, t, b, m) && a <= b <= m <= l <= |s|
    ensures Rearranged(s, t, a, l)
  {
    forall k | a <= k < l ensures Within(s, a, l, t[k]) {
      if b <= k < m {
        assert Within(s, b, m, t[k]);
        var n :| b <= n < m && s[n] == t[k];
      } else {
        assert s[k] == t[k];
      }
    }
  }

  lemma {:induction false} ExchangeRearranges(s: seq<int>, p: nat, q: nat, a: nat, l: nat)
    requires a <= p < l <= |s| && a <= q < l
    ensures Rearranged(s, Exchange(s, p, q), a, l)
  {
    ExchangePermutes(s, p, q);
    var t := Exchange(s, p, q);
    forall k | a <= k < l ensures Within(s, a, l, t[k]) {
      assert t[k] == s[if k == p then q else if k == q then p else k];
    }
  }

  lemma {:induction false} Exchange3Rearranges(s: seq<int>, p: nat, q: nat, r: nat, a: nat, l: nat)
    requires a <= p < l <= |s| && a <= q < l && a <= r < l && p != q && p != r
    ensures Rearranged(s, Exchange3(s, p, q, r), a, l)
  {
    Exchange3Permutes(s, p, q, r);
    var t := Exchange3(s, p, q, r);
    forall k | a <= k < l ensures Within(s, a, l, t[k]) {
      assert t[k] == s[if k == p then r else if k == q then p else if k == r then q else k];
    }
  }

  // ---------------------------------------------------------------- the partition

  /** Less up to i, more from j on, equal from lp to hp. */
  ghost predicate Regions(rank: int -> int, s: seq<int>, a: nat, i: nat, lp: nat, hp: nat, j: nat, l: nat, pivot: int) {
    && a <= i <= lp <= hp <= j < l <= |s|
    && (forall k | a <= k < i :: rank(s[k]) < pivot)
    && (forall k | lp <= k <= hp :: rank(s[k]) == pivot)
    && (forall k | j < k < l :: pivot < rank(s[k]))
  }

  /** The loops of `qsort` up to where both sides are done. */
  method Partition(rank: int -> int, s0: seq<int>, a: nat, l: nat)
    returns (s: seq<int>, lp: nat, hp: nat, ghost pivot: int)
    requires a + 1 < l <= |s0|
    ensures Rearranged(s0, s, a, l) && Regions(rank, s, a, lp, lp, hp, hp, l, pivot)
  {
    s := s0;
    var n := (l - a) / 2;
    hp, lp := a + n, a + n;
    var i: nat, j: nat, atLoop := a, l - 1, false;
    pivot := rank(s[lp]);
    RearrangedSelf(s, a, l);
    while !(atLoop && j <= hp && i == lp)
      invariant Rearranged(s0, s, a, l) && Regions(rank, s, a, i, lp, hp, j, l, pivot)
      invariant atLoop ==> LeftStuck(rank, s, i, lp, pivot)
      decreases lp - i + (j - hp), !atLoop
    {
      ghost var was := s;
      if !atLoop {
        s, i, lp, atLoop := LeftStep(rank, s, a, i, lp, hp, j, l, pivot);
      } else if j > hp {
        s, i, lp, hp, j, atLoop := RightStep(rank, s, a, i, lp, hp, j, l, pivot);
      } else {
        s, lp, hp, j := BothStep(rank, s, a, i, lp, hp, j, l, pivot);
        atLoop := false;
      }
      RearrangedTrans(s0, was, s, a, l);
    }
  }

  /** Either all of the left side is done or its next element belongs on the right. */
  ghost predicate LeftStuck(rank: int -> int, s: seq<int>, i: nat, lp: nat, pivot: int) {
    i < lp ==> i < |s| && pivot < rank(s[i])
  }

  /** At the head of the loop. */
  method LeftStep(rank: int -> int, s0: seq<int>, a: nat, i0: nat, lp0: nat, ghost hp: nat, ghost j: nat, ghost l: nat,
                  ghost pivot: int)
    returns (s: seq<int>, i: nat, lp: nat, atLoop: bool)
    requires Regions(rank, s0, a, i0, lp0, hp, j, l, pivot)
    ensures Rearranged(s0, s, a, l) && Regions(rank, s, a, i, lp, hp, j, l, pivot)
    ensures atLoop ==> LeftStuck(rank, s, i, lp, pivot) && i == i0 && lp == lp0
    ensures !atLoop ==> lp - i < lp0 - i0
  {
    s, i, lp, atLoop := s0, i0, lp0, false;
    RearrangedSelf(s, a, l);
    if i < lp {
      var c := Compare(rank, s[i], s[lp]);
      if c == 0 {
        lp := lp - 1;
        ExchangeRearranges(s, i, lp, a, l);
        s := Exchange(s, i, lp);
        return;
      }
      if c < 0 {
        i := i + 1;
        return;
      }
    }
    atLoop := true;
  }

  /** With nothing left on the right but something on the left. */
  method BothStep(rank: int -> int, s0: seq<int>, a: nat, i: nat, lp0: nat, hp0: nat, j0: nat, l: nat, ghost pivot: int)
    returns (s: seq<int>, lp: nat, hp: nat, j: nat)
    requires Regions(rank, s0, a, i, lp0, hp0, j0, l, pivot) && j0 <= hp0 && i < lp0
    requires LeftStuck(rank, s0, i, lp0, pivot)
    ensures Rearranged(s0, s, a, l) && Regions(rank, s, a, i, lp, hp, j, l, pivot)
    ensures lp < lp0 && j == hp
  {
    j, hp, lp := j0, hp0, lp0 - 1;
    Exchange3Rearranges(s0, j, lp, i, a, l);
    s := Exchange3(s0, j, lp, i);
    hp := hp - 1;
    j := hp;
  }

  /** At label loop, with something left on the right. */
  method RightStep(rank: int -> int, s0: seq<int>, a: nat, i0: nat, lp0: nat, hp0: nat, j0: nat, l: nat,
                   ghost pivot: int)
    returns (s: seq<int>, i: nat, lp: nat, hp: nat, j: nat, atLoop: bool)
    requires Regions(rank, s0, a, i0, lp0, hp0, j0, l, pivot) && hp0 < j0 && LeftStuck(rank, s0, i0, lp0, pivot)
    ensures Rearranged(s0, s, a, l) && Regions(rank, s, a, i, lp, hp, j, l, pivot)
    ensures atLoop ==> LeftStuck(rank, s, i, lp, pivot)
    ensures lp - i + (j - hp) < lp0 - i0 + (j0 - hp0)
  {
    s, i, lp, hp, j, atLoop := s0, i0, lp0, hp0, j0, true;
    var c := Compare(rank, s[hp], s[j]);
    if c == 0 {
      hp := hp + 1;
      ExchangeRearranges(s, hp, j, a, l);
      s := Exchange(s, hp, j);
    } else if c > 0 {
      if i == lp {
        hp := hp + 1;
        Exchange3Rearranges(s, i, hp, j, a, l);
        s := Exchange3(s, i, hp, j);
        lp := lp + 1;
        i := lp;
      } else {
        ExchangeRearranges(s, i, j, a, l);
        s := Exchange(s, i, j);
        j := j - 1;
        i := i + 1;
        atLoop := false;
      }
    } else {
      RearrangedSelf(s, a, l);
      j := j - 1;
    }
  }

  // ---------------------------------------------------------------- sorting

  ghost predicate Sorted(rank: int -> int, s: seq<int>, a: nat, l: nat) {
    l <= |s| && forall x, y | a <= x < y < l :: rank(s[x]) <= rank(s[y])
  }

  /** What holds of every element of a stretch holds of every element after it is rearranged. */
  lemma {:induction false} StillBelow(rank: int -> int, s: seq<int>, t: seq<int>, a: nat, l: nat, b: nat, m: nat,
                                      pivot: int)
    requires Rearranged(s, t, b, m) && ((b == a && m == l) || m <= a || l <= b) && a <= l <= |s|
    requires forall k | a <= k < l :: rank(s[k]) < pivot
    ensures forall k | a <= k < l :: rank(t[k]) < pivot
  {
    forall k | a <= k < l ensures rank(t[k]) < pivot {
      if b == a && m == l {
        assert Within(s, b, m, t[k]);
      }
    }
  }

  lemma {:induction false} StillAbove(rank: int -> int, s: seq<int>, t: seq<int>, a: nat, l: nat, b: nat, m: nat,
                                      pivot: int)
    requires Rearranged(s, t, b, m) && ((b == a && m == l) || m <= a || l <= b) && a <= l <= |s|
    requires forall k | a <= k < l :: pivot < rank(s[k])
    ensures forall k | a <= k < l :: pivot < rank(t[k])
  {
    forall k | a <= k < l ensures pivot < rank(t[k]) {
      if b == a && m == l {
        assert Within(s, b, m, t[k]);
      }
    }
  }

  /** Both sides sorted around the equal elements. */
  lemma {:induction false} Assembled(rank: int -> int, s: seq<int>, a: nat, lp: nat, hp: nat, l: nat, pivot: int)
    requires Regions(rank, s, a, lp, lp, hp, hp, l, pivot) && Sorted(rank, s, a, lp) && Sorted(rank, s, hp + 1, l)
    ensures Sorted(rank, s, a, l)
  {
  }

  /** One side rearranged leaves the regions as they are. */
  lemma {:induction false} RegionsKept(rank: int -> int, s: seq<int>, t: seq<int>, a: nat, lp: nat, hp: nat, l: nat,
                                       pivot: int, b: nat, m: nat)
    requires Regions(rank, s, a, lp, lp, hp, hp, l, pivot) && Rearranged(s, t, b, m)
    requires (b == a && m == lp) || (b == hp + 1 && m == l)
    ensures Regions(rank, t, a, lp, lp, hp, hp, l, pivot)
  {
    StillBelow(rank, s, t, a, lp, b, m, pivot);
    StillAbove(rank, s, t, hp + 1, l, b, m, pivot);
  }

  lemma {:induction false} SortedKept(rank: int -> int, s: seq<int>, t: seq<int>, a: nat, l: nat, b: nat, m: nat)
    requires Rearranged(s, t, b, m) && (m <= a || l <= b) && Sorted(rank, s, a, l)
    ensures Sorted(rank, t, a, l)
  {
  }

  /** Sorting one side of the partition and then the other sorts the whole. */
  lemma {:induction false} BothSides(rank: int -> int, s: seq<int>, t: seq<int>, u: seq<int>, a: nat, lp: nat, hp: nat,
                                     l: nat, pivot: int, b: nat, m: nat, c: nat, n: nat)
    requires Regions(rank, s, a, lp, lp, hp, hp, l, pivot)
    requires (b == a && m == lp && c == hp + 1 && n == l) || (b == hp + 1 && m == l && c == a && n == lp)
    requires Rearranged(s, t, b, m) && Sorted(rank, t, b, m) && Rearranged(t, u, c, n) && Sorted(rank, u, c, n)
    ensures Rearranged(s, u, a, l) && Sorted(rank, u, a, l)
  {
    RegionsKept(rank, s, t, a, lp, hp, l, pivot, b, m);
    RegionsKept(rank, t, u, a, lp, hp, l, pivot, c, n);
    SortedKept(rank, t, u, b, m, c, n);
    RearrangedPart(s, t, b, m, a, l);
    RearrangedPart(t, u, c, n, a, l);
    RearrangedTrans(s, t, u, a, l);
    Assembled(rank, u, a, lp, hp, l, pivot);
  }

  /** With calls for the smaller of two stretches only, the depth stays within the logarithm. */
  ghost predicate Shallow(depth: nat, n: nat) {
    Two(depth) <= n || (depth == 0 && n == 0)
  }

  lemma {:induction false} ShallowBoth(inner: nat, small: nat, rest: nat, large: nat, depth: nat, n: nat)
    requires Shallow(inner, small) && Shallow(rest, large) && small <= large + 1 && small + large < n && n > 1
    requires depth == (if inner + 1 > rest then inner + 1 else rest)
    ensures Shallow(depth, n)
  {
    if inner + 1 > rest {
      assert Two(depth) == 2 * Two(inner);
    }
  }

  /** The stretch comes out in order with the same elements; calls are nested at most as deep as the logarithm of
      its length, for only the smaller side is sorted by a call. */
  method QSort(rank: int -> int, s0: seq<int>, a: nat, l: nat) returns (s: seq<int>, ghost depth: nat)
    requires a <= l <= |s0|
    ensures Rearranged(s0, s, a, l) && Sorted(rank, s, a, l)
    ensures Shallow(depth, l - a)
    decreases l - a
  {
    s, depth := s0, 0;
    RearrangedSelf(s, a, l);
    if l - a <= 1 {
      return;
    }
    var lp, hp;
    ghost var pivot;
    s, lp, hp, pivot := Partition(rank, s, a, l);
    ghost var s1 := s;
    ghost var inner, rest;
    ghost var low, high := lp - a, l - (hp + 1);
    if lp - a >= l - hp {
      s, inner := QSort(rank, s, hp + 1, l);
      ghost var s2 := s;
      // goto start with l = lp
      s, rest := QSort(rank, s, a, lp);
      BothSides(rank, s1, s2, s, a, lp, hp, l, pivot, hp + 1, l, a, lp);
      depth := if inner + 1 > rest then inner + 1 else rest;
      ShallowBoth(inner, high, rest, low, depth, l - a);
    } else {
      s, inner := QSort(rank, s, a, lp);
      ghost var s2 := s;
      // goto start with a = hp + 1
      s, rest := QSort(rank, s, hp + 1, l);
      BothSides(rank, s1, s2, s, a, lp, hp, l, pivot, a, lp, hp + 1, l);
      depth := if inner + 1 > rest then inner + 1 else rest;
      ShallowBoth(inner, low, rest, high, depth, l - a);
    }
    RearrangedTrans(s0, s1, s, a, l);
  }
}
