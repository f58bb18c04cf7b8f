/** Longest common subsequences: the reference that `diff`'s match vector is measured against.
    Lines are numbered from 1, as in the program. */
module Lcs {

  /** Line x of the first file is matched with line y of the second. */
  datatype Match = Match(x: nat, y: nat)

  /** `ps` picks a common subsequence of `a` and `b`. */
  ghost predicate Common<T>(a: seq<T>, b: seq<T>, ps: seq<Match>) {
    && (forall t | 0 <= t < |ps| ::
          1 <= ps[t].x <= |a| && 1 <= ps[t].y <= |b| && a[ps[t].x - 1] == b[ps[t].y - 1])
    && (forall t, u | 0 <= t < u < |ps| :: ps[t].x < ps[u].x && ps[t].y < ps[u].y)
  }

  function Max(m: nat, n: nat): nat {
    if m < n then n else m
  }

  /** Length of a longest common subsequence of the first i lines of a and the first j lines of b. */
  ghost function Len<T>(a: seq<T>, b: seq<T>, i: nat, j: nat): nat
    requires i <= |a| && j <= |b|
  {
    if i == 0 || j == 0 then 0
    else if a[i - 1] == b[j - 1] then Len(a, b, i - 1, j - 1) + 1
    else Max(Len(a, b, i - 1, j), Len(a, b, i, j - 1))
  }

  /** One more line on either side adds at most one match and never loses one. */
  lemma {:induction false} Steps<T>(a: seq<T>, b: seq<T>, i: nat, j: nat)
    requires i <= |a| && j <= |b|
    ensures i > 0 ==> Len(a, b, i - 1, j) <= Len(a, b, i, j) <= Len(a, b, i - 1, j) + 1
    ensures j > 0 ==> Len(a, b, i, j - 1) <= Len(a, b, i, j) <= Len(a, b, i, j - 1) + 1
    decreases i + j
  {
    if i > 0 && j > 0 {
      Steps(a, b, i - 1, j);
      Steps(a, b, i, j - 1);
      Steps(a, b, i - 1, j - 1);
    }
  }

  lemma {:induction false} Monotone<T>(a: seq<T>, b: seq<T>, i: nat, j: nat, j': nat)
    requires i <= |a| && j <= j' <= |b|
    ensures Len(a, b, i, j) <= Len(a, b, i, j')
    decreases j'
  {
    if j < j' {
      Monotone(a, b, i, j, j' - 1);
      Steps(a, b, i, j');
    }
  }

  /** No common subsequence is longer than Len. */
  lemma {:induction false} Bounds<T>(a: seq<T>, b: seq<T>, i: nat, j: nat, ps: seq<Match>)
    requires i <= |a| && j <= |b|
    requires Common(a, b, ps)
    requires ps != [] ==> ps[|ps| - 1].x <= i && ps[|ps| - 1].y <= j
    ensures |ps| <= Len(a, b, i, j)
    decreases i + j
  {
    if ps != [] {
      var n := |ps| - 1;
      var last := ps[n];
      if last.x < i {
        Bounds(a, b, i - 1, j, ps);
        Steps(a, b, i, j);
      } else if last.y < j {
        Bounds(a, b, i, j - 1, ps);
        Steps(a, b, i, j);
      } else {
        Bounds(a, b, i - 1, j - 1, ps[..n]);
      }
    }
  }

  /** Some common subsequence is as long as Len. */
  lemma {:induction false} Achieved<T>(a: seq<T>, b: seq<T>, i: nat, j: nat) returns (ps: seq<Match>)
    requires i <= |a| && j <= |b|
    ensures Common(a, b, ps) && |ps| == Len(a, b, i, j)
    ensures forall t | 0 <= t < |ps| :: ps[t].x <= i && ps[t].y <= j
    decreases i + j
  {
    if i == 0 || j == 0 {
      ps := [];
    } else if a[i - 1] == b[j - 1] {
      ps := Achieved(a, b, i - 1, j - 1);
      ps := ps + [Match(i, j)];
    } else if Len(a, b, i - 1, j) >= Len(a, b, i, j - 1) {
      ps := Achieved(a, b, i - 1, j);
    } else {
      ps := Achieved(a, b, i, j - 1);
    }
  }

  /** Len depends only on the lines it covers. */
  lemma {:induction false} Local<T>(a: seq<T>, b: seq<T>, a': seq<T>, b': seq<T>, i: nat, j: nat)
    requires i <= |a| && j <= |b| && i <= |a'| && j <= |b'|
    requires a[..i] == a'[..i] && b[..j] == b'[..j]
    ensures Len(a, b, i, j) == Len(a', b', i, j)
    decreases i + j
  {
    if i > 0 && j > 0 {
      assert a[i - 1] == a[..i][i - 1] == a'[..i][i - 1] == a'[i - 1];
      assert b[j - 1] == b[..j][j - 1] == b'[..j][j - 1] == b'[j - 1];
      assert a[..i - 1] == a[..i][..i - 1] == a'[..i][..i - 1] == a'[..i - 1];
      assert b[..j - 1] == b[..j][..j - 1] == b'[..j][..j - 1] == b'[..j - 1];
      Local(a, b, a', b', i - 1, j - 1);
      Local(a, b, a', b', i - 1, j);
      Local(a, b, a', b', i, j - 1);
    }
  }

  lemma {:induction false} PrefixEdge<T>(v: T, a: seq<T>, b: seq<T>, n: nat)
    ensures n <= |a| ==> Len([v] + a, [v] + b, n + 1, 1) == 1
    ensures n <= |b| ==> Len([v] + a, [v] + b, 1, n + 1) == 1
  {
    var a', b' := [v] + a, [v] + b;
    if n > 0 {
      PrefixEdge(v, a, b, n - 1);
      if n <= |a| {
        Steps(a', b', n + 1, 1);
        assert Len(a', b', n + 1, 0) == 0;
      }
      if n <= |b| {
        Steps(a', b', 1, n + 1);
        assert Len(a', b', 0, n + 1) == 0;
      }
    }
  }

  /** A common first line is always worth matching. */
  lemma {:induction false} PrefixStep<T>(v: T, a: seq<T>, b: seq<T>, i: nat, j: nat)
    requires i <= |a| && j <= |b|
    ensures Len([v] + a, [v] + b, i + 1, j + 1) == 1 + Len(a, b, i, j)
    decreases i + j
  {
    if i == 0 {
      PrefixEdge(v, a, b, j);
    } else if j == 0 {
      PrefixEdge(v, a, b, i);
    } else {
      PrefixStep(v, a, b, i - 1, j);
      PrefixStep(v, a, b, i, j - 1);
      PrefixStep(v, a, b, i - 1, j - 1);
    }
  }

  lemma {:induction false} CommonPrefix<T>(p: seq<T>, a: seq<T>, b: seq<T>)
    ensures Len(p + a, p + b, |p| + |a|, |p| + |b|) == |p| + Len(a, b, |a|, |b|)
  {
    if p == [] {
      assert p + a == a && p + b == b;
    } else {
      var q := p[1..];
      assert [p[0]] + (q + a) == p + a && [p[0]] + (q + b) == p + b;
      CommonPrefix(q, a, b);
      PrefixStep(p[0], q + a, q + b, |q + a|, |q + b|);
    }
  }

  lemma {:induction false} CommonSuffix<T>(a: seq<T>, b: seq<T>, s: seq<T>)
    ensures Len(a + s, b + s, |a| + |s|, |b| + |s|) == |s| + Len(a, b, |a|, |b|)
  {
    if s == [] {
      assert a + s == a && b + s == b;
    } else {
      var n := |s| - 1;
      var t := s[..n];
      CommonSuffix(a, b, t);
      Local(a + s, b + s, a + t, b + t, |a| + n, |b| + n);
    }
  }

  /** Cutting a common prefix and suffix off both files loses no optimality. */
  lemma {:induction false} Pruned<T>(p: seq<T>, a: seq<T>, b: seq<T>, s: seq<T>)
    ensures Len(p + a + s, p + b + s, |p| + |a| + |s|, |p| + |b| + |s|)
         == |p| + Len(a, b, |a|, |b|) + |s|
  {
    CommonPrefix(p, a, b);
    CommonSuffix(p + a, p + b, s);
  }

  /** Matching line i of `a` with line y of `b` completes a common subsequence of length l. */
  ghost predicate Completes<T>(a: seq<T>, b: seq<T>, i: nat, y: nat, l: nat)
    requires 1 <= i <= |a| && 1 <= y <= |b| && 1 <= l
  {
    a[i - 1] == b[y - 1] && Len(a, b, i - 1, y - 1) >= l - 1
  }

  /** How one more line of `a` changes what is reachable: the recurrence that `stone` follows. */
  lemma {:induction false} RowStep<T>(a: seq<T>, b: seq<T>, i: nat, j: nat, l: nat)
    requires 1 <= i <= |a| && j <= |b| && 1 <= l
    ensures Len(a, b, i, j) >= l <==>
            (Len(a, b, i - 1, j) >= l || exists y | 1 <= y <= j :: Completes(a, b, i, y, l))
    decreases j
  {
    if j > 0 {
      RowStep(a, b, i, j - 1, l);
      Steps(a, b, i, j);
      Steps(a, b, i - 1, j);
      if exists y | 1 <= y <= j :: Completes(a, b, i, y, l) {
        var y :| 1 <= y <= j && Completes(a, b, i, y, l);
        Monotone(a, b, i - 1, y - 1, j - 1);
      }
      if a[i - 1] == b[j - 1] && Len(a, b, i, j) >= l {
        assert Completes(a, b, i, j, l);
      }
    }
  }
}
