/** The preparation passes of `diff`: Shell sort of the lines, squeezing of file 1 into `member`,
    and unsorting of file 0 into `class`, in the storage layout the program uses.

    `struct line` is two words, (serial, value).  A file is a word array in which line p occupies words
    2p and 2p+1; `sfile` starts `base` lines into it and is numbered from 1. */
module DiffLines {

  datatype Line = Line(serial: int, value: int)

  function LineAt(w: seq<int>, p: nat): Line
    requires 2 * p + 1 < |w|
  {
    Line(w[2 * p], w[2 * p + 1])
  }

  /** Lines 1..n of the file that starts at line `base` of the words `w`. */
  ghost function View(w: seq<int>, base: nat, n: nat): (v: seq<Line>)
    requires 2 * (base + n) + 1 < |w|
    ensures |v| == n
    ensures forall i | 0 <= i < n :: v[i] == LineAt(w, base + 1 + i)
  {
    seq(n, i requires 0 <= i < n => LineAt(w, base + 1 + i))
  }

  /** The order of the sort: by value, ties by serial number. */
  ghost predicate Le(a: Line, b: Line) {
    a.value < b.value || (a.value == b.value && a.serial <= b.serial)
  }

  ghost predicate Sorted(v: seq<Line>) {
    forall p, q | 0 <= p < q < |v| :: Le(v[p], v[q])
  }

  /** Only lines 1..n of the file at `base` differ between `w` and `w'`. */
  ghost predicate Outside(w: seq<int>, w': seq<int>, base: nat, n: nat) {
    && |w| == |w'|
    && forall k | 0 <= k < |w| && !(2 * (base + 1) <= k < 2 * (base + n + 1)) :: w[k] == w'[k]
  }

  ghost function Swapped(v: seq<Line>, i: nat, j: nat): seq<Line>
    requires i < |v| && j < |v|
  {
    seq(|v|, k requires 0 <= k < |v| => if k == i then v[j] else if k == j then v[i] else v[k])
  }

  /** Exchanging the two words of line i with those of line j exchanges the lines. */
  lemma {:induction false} ViewSwapped(w: seq<int>, w': seq<int>, base: nat, n: nat, i: nat, j: nat)
    requires 2 * (base + n) + 1 < |w| && 1 <= i <= n && 1 <= j <= n
    requires var ai, aj := 2 * (base + i), 2 * (base + j);
             w' == w[ai + 1 := w[aj + 1]][aj + 1 := w[ai + 1]][ai := w[aj]][aj := w[ai]]
    ensures Outside(w, w', base, n)
    ensures View(w', base, n) == Swapped(View(w, base, n), i - 1, j - 1)
  {
    var v, v' := View(w, base, n), View(w', base, n);
    forall k | 0 <= k < n ensures v'[k] == Swapped(v, i - 1, j - 1)[k] {
      assert v'[k] == LineAt(w', base + 1 + k);
    }
  }

  lemma {:induction false} SwappedPermutes(v: seq<Line>, i: nat, j: nat)
    requires i < |v| && j < |v|
    ensures multiset(Swapped(v, i, j)) == multiset(v)
  {
    assert Swapped(v, i, j) == v[i := v[j]][j := v[i]];
  }

  method Exchange(w0: seq<int>, base: nat, n: nat, i: nat, j: nat) returns (w: seq<int>)
    requires 2 * (base + n) + 1 < |w0|
    requires 1 <= i <= n && 1 <= j <= n
    ensures Outside(w0, w, base, n)
    ensures View(w, base, n) == Swapped(View(w0, base, n), i - 1, j - 1)
    ensures multiset(View(w, base, n)) == multiset(View(w0, base, n))
  {
    w := w0;
    var ai, aim := 2 * (base + i), 2 * (base + j);
    var value := w[ai + 1];
    w := w[ai + 1 := w[aim + 1]];
    w := w[aim + 1 := value];
    var serial := w[ai];
    w := w[ai := w[aim]];
    w := w[aim := serial];
    ViewSwapped(w0, w, base, n, i, j);
    SwappedPermutes(View(w0, base, n), i - 1, j - 1);
  }

  /** Shell sort, in place on the words.  With n = 0 the gap m is never initialised; `junk` stands for
      what the register holds, and the wrap-around test keeps passes over a negative gap harmless. */
  method Sort(w0: seq<int>, base: nat, n: nat, junk: int) returns (w: seq<int>)
    requires 2 * (base + n) + 1 < |w0|
    ensures Outside(w0, w, base, n)
    ensures Sorted(View(w, base, n))
    ensures multiset(View(w, base, n)) == multiset(View(w0, base, n))
  {
    w := w0;
    var m, j := junk, 1;
    while j <= n
      invariant j >= 1
      invariant n > 0 ==> j == 1 || m >= 1
      invariant n > 1 ==> j <= 2 || m >= 3
      invariant n == 0 ==> j == 1
      decreases 2 * n + 1 - j
    {
      m := 2 * j - 1;
      j := j * 2;
    }
    m := Halve(m);
    while m != 0
      invariant Outside(w0, w, base, n)
      invariant multiset(View(w, base, n)) == multiset(View(w0, base, n))
      invariant n > 0 ==> m >= 0
      invariant n <= 1 || m > 0 || Sorted(View(w, base, n))
      decreases if m < 0 then -m else m
    {
      w := Pass(w, base, n, m);
      m := Halve(m);
    }
  }

  /** C's division by two: toward zero. */
  function Halve(m: int): int {
    if m >= 0 then m / 2 else -((-m) / 2)
  }

  /** One pass with gap m; with gap 1 it is an insertion sort. */
  method Pass(w0: seq<int>, base: nat, n: nat, m: int) returns (w: seq<int>)
    requires 2 * (base + n) + 1 < |w0|
    requires m != 0
    ensures Outside(w0, w, base, n)
    ensures multiset(View(w, base, n)) == multiset(View(w0, base, n))
    ensures m == 1 ==> Sorted(View(w, base, n))
  {
    w := w0;
    var k := n - m;
    var j := 1;
    while j <= k
      invariant 1 <= j && (j <= k + 1 || j == 1)
      invariant Outside(w0, w, base, n)
      invariant multiset(View(w, base, n)) == multiset(View(w0, base, n))
      invariant m == 1 && n > 0 ==> Sorted(View(w, base, n)[..j])
    {
      w := Sink(w, base, n, m, j);
      j := j + 1;
    }
  }

  /** Moves line j + m down, in steps of m, past the lines that are not below it. */
  method Sink(w0: seq<int>, base: nat, n: nat, m: int, j: nat) returns (w: seq<int>)
    requires 2 * (base + n) + 1 < |w0|
    requires m != 0 && 1 <= j <= n - m
    ensures Outside(w0, w, base, n)
    ensures multiset(View(w, base, n)) == multiset(View(w0, base, n))
    ensures m == 1 && Sorted(View(w0, base, n)[..j]) ==> Sorted(View(w, base, n)[..j + 1])
  {
    w := w0;
    ghost var ms, insertion, k := multiset(View(w0, base, n)), m == 1 && Sorted(View(w0, base, n)[..j]), j + 1;
    if insertion {
      InsertStart(View(w0, base, n), j, k);
    }
    var ai := j;
    while ai > 0
      invariant ai <= j && (insertion ==> 0 <= ai)
      invariant Outside(w0, w, base, n)
      invariant multiset(View(w, base, n)) == ms
      invariant insertion ==> Inserting(View(w, base, n), ai, k)
      decreases if m < 0 then 0 else ai
    {
      var aim := ai + m;
      if aim < ai || Above(w, base, n, aim, ai) {
        break;  // wrap-around, or in order
      }
      if insertion {
        InsertStep(View(w, base, n), ai, aim, k);
      }
      w := Exchange(w, base, n, ai, aim);
      ai := ai - m;
    }
    if insertion {
      InsertDone(View(w, base, n), ai, k);
    }
  }

  /** Line i lies strictly above line j in the order of the sort. */
  predicate Above(w: seq<int>, base: nat, n: nat, i: nat, j: nat)
    requires 2 * (base + n) + 1 < |w| && 1 <= i <= n && 1 <= j <= n
    ensures !Above(w, base, n, i, j) <==> Le(View(w, base, n)[i - 1], View(w, base, n)[j - 1])
  {
    var y, x := LineAt(w, base + i), LineAt(w, base + j);
    assert View(w, base, n)[i - 1] == y && View(w, base, n)[j - 1] == x;
    y.value > x.value || (y.value == x.value && y.serial > x.serial)
  }

  lemma {:induction false} InsertStart(v: seq<Line>, j: nat, k: nat)
    requires k == j + 1 <= |v| && Sorted(v[..j])
    ensures Inserting(v, j, k)
  {
    forall p, q | 0 <= p < q < k && q != j ensures Le(v[p], v[q]) {
      assert Le(v[..j][p], v[..j][q]);
    }
  }

  lemma {:induction false} InsertStep(v: seq<Line>, i: nat, j: nat, k: nat)
    requires 1 <= i < k <= |v| && j == i + 1 && Inserting(v, i, k) && Le(v[j - 1], v[i - 1])
    ensures Inserting(Swapped(v, i - 1, j - 1), i - 1, k)
  {
  }

  lemma {:induction false} InsertDone(v: seq<Line>, i: nat, k: nat)
    requires i < k <= |v| && Inserting(v, i, k) && (i > 0 ==> Le(v[i - 1], v[i]))
    ensures Sorted(v[..k])
  {
    forall p | 0 <= p < i ensures Le(v[p], v[i]) {
      assert p < i - 1 ==> Le(v[p], v[i - 1]);
    }
  }

  /** The first k entries are sorted, except that entry i may still have to move down. */
  ghost predicate Inserting(v: seq<Line>, i: int, k: nat)
    requires k <= |v|
  {
    forall p, q | 0 <= p < q < k && q != i :: Le(v[p], v[q])
  }

  /** The lines of file `f`, numbered in order: what `prune` leaves. */
  ghost predicate Numbered(v: seq<Line>, f: seq<int>) {
    |v| == |f| && forall i | 0 <= i < |f| :: v[i] == Line(i + 1, f[i])
  }

  function LineOf(f: seq<int>, y: int): Line
    requires 1 <= y <= |f|
  {
    Line(y, f[y - 1])
  }

  /** `s` is the lines of `f` in sorted order, each exactly once. */
  ghost predicate SortedFile(s: seq<Line>, f: seq<int>) {
    && |s| == |f|
    && Sorted(s)
    && (forall p | 0 <= p < |s| :: 1 <= s[p].serial <= |f| && s[p].value == f[s[p].serial - 1])
    && (forall p, q | 0 <= p < q < |s| :: s[p].serial != s[q].serial)
    && (forall y | 1 <= y <= |f| :: LineOf(f, y) in s)
  }

  lemma {:induction false} CountsOnce(v: seq<Line>, x: Line)
    requires forall p, q | 0 <= p < q < |v| :: v[p].serial != v[q].serial
    ensures multiset(v)[x] <= 1
  {
    if v != [] {
      var n := |v| - 1;
      CountsOnce(v[..n], x);
      assert v == v[..n] + [v[n]];
      if v[n] == x {
        assert forall p | 0 <= p < n :: v[..n][p] != x;
        assert x !in multiset(v[..n]);
      }
    }
  }

  lemma {:induction false} SortedIsPermuted(v: seq<Line>, s: seq<Line>, f: seq<int>)
    requires Numbered(v, f) && Sorted(s) && multiset(s) == multiset(v)
    ensures SortedFile(s, f)
  {
    assert |s| == |multiset(s)| == |multiset(v)| == |v|;
    forall p | 0 <= p < |s| ensures 1 <= s[p].serial <= |f| && s[p].value == f[s[p].serial - 1] {
      assert s[p] in multiset(s);
      assert s[p] in v;
    }
    forall y | 1 <= y <= |f| ensures LineOf(f, y) in s {
      assert v[y - 1] in multiset(v);
    }
    forall p, q | 0 <= p < q < |s| ensures s[p].serial != s[q].serial {
      if s[p].serial == s[q].serial {
        assert s[p] == s[q];
        assert s == s[..q] + s[q..];
        assert s[..q][p] == s[p] && s[q..][0] == s[q];
        assert s[p] in multiset(s[..q]) && s[p] in multiset(s[q..]);
        CountsOnce(v, s[p]);
      }
    }
  }

  /** Entry j of sorted file `s` (numbered from 1) is the first of its equivalence class. */
  ghost predicate First(s: seq<Line>, j: int)
    requires 1 <= j <= |s|
  {
    j == 1 || s[j - 2].value != s[j - 1].value
  }

  ghost function MemberAt(s: seq<Line>, j: int): int
    requires 1 <= j <= |s|
  {
    if First(s, j) then -s[j - 1].serial else s[j - 1].serial
  }

  /** `member`: the classes of sorted file `s` end to end, first members flagged by sign, -1 at the end. */
  ghost predicate Members(member: seq<int>, s: seq<Line>) {
    && |s| + 1 < |member|
    && (forall j | 1 <= j <= |s| :: member[j] == MemberAt(s, j))
    && member[|s| + 1] == -1
  }

  /** c is the index in `s` of the first line with value `value`, or 0 when there is none. */
  ghost predicate ClassIndex(c: int, value: int, s: seq<Line>) {
    if c == 0 then forall q | 0 <= q < |s| :: s[q].value != value
    else 1 <= c <= |s| && s[c - 1].value == value && First(s, c)
  }

  /** Replaces the value of each line of sorted file 0 by the index of its class in sorted file 1. */
  method Classify(a0: seq<int>, b: seq<int>, base: nat, n: nat, m: nat) returns (a: seq<int>)
    requires 2 * (base + n) + 1 < |a0| && 2 * (base + m) + 1 < |b|
    requires Sorted(View(a0, base, n)) && Sorted(View(b, base, m))
    ensures Classified(a0, a, base, n, n, View(b, base, m))
  {
    a := a0;
    ghost var v := View(a0, base, n);
    ghost var s := View(b, base, m);
    var i, j := 1, 1;
    while i <= n && j <= m
      invariant 1 <= i <= n + 1 && 1 <= j <= m + 1
      invariant Classified(a0, a, base, n, i - 1, s)
      invariant i <= n ==> forall q | 0 <= q < j - 1 :: s[q].value < v[i - 1].value
      decreases n - i + m - j
    {
      assert v[i - 1] == LineAt(a0, base + i) && s[j - 1] == LineAt(b, base + j);
      var ai, bj := 2 * (base + i) + 1, 2 * (base + j) + 1;
      assert a[ai] == a0[ai];
      if a[ai] < b[bj] {
        Store(a0, a, base, n, i, 0, s);
        a := a[ai := 0];
        i := i + 1;
      } else if a[ai] == b[bj] {
        assert j > 1 ==> s[j - 2].value < v[i - 1].value;
        Store(a0, a, base, n, i, j, s);
        a := a[ai := j];
        i := i + 1;
      } else {
        j := j + 1;
      }
    }
    while i <= n
      invariant 1 <= i <= n + 1
      invariant Classified(a0, a, base, n, i - 1, s)
      invariant i <= n ==> forall q | 0 <= q < m :: s[q].value < v[i - 1].value
    {
      Store(a0, a, base, n, i, 0, s);
      a := a[2 * (base + i) + 1 := 0];
      i := i + 1;
    }
  }

  /** The first `i` lines of `w` have been given their class index in `w'`; nothing else has changed. */
  ghost predicate Classified(w: seq<int>, w': seq<int>, base: nat, n: nat, i: nat, s: seq<Line>)
    requires 2 * (base + n) + 1 < |w| && i <= n
  {
    && |w'| == |w|
    && (forall k | 0 <= k < 2 * (base + 1) || 2 * (base + i + 1) <= k < |w| :: w'[k] == w[k])
    && (forall p | 0 <= p < i :: View(w', base, n)[p].serial == View(w, base, n)[p].serial)
    && (forall p | 0 <= p < i :: ClassIndex(View(w', base, n)[p].value, View(w, base, n)[p].value, s))
  }

  lemma {:induction false} Store(w: seq<int>, w': seq<int>, base: nat, n: nat, i: nat, c: int, s: seq<Line>)
    requires 2 * (base + n) + 1 < |w| && 1 <= i <= n
    requires Classified(w, w', base, n, i - 1, s)
    requires ClassIndex(c, View(w, base, n)[i - 1].value, s)
    ensures Classified(w, w'[2 * (base + i) + 1 := c], base, n, i, s)
  {
    var u, u' := View(w', base, n), w'[2 * (base + i) + 1 := c];
    forall p | 0 <= p < n ensures View(u', base, n)[p] == if p == i - 1 then Line(u[p].serial, c) else u[p] {
      assert View(u', base, n)[p] == LineAt(u', base + 1 + p);
    }
    assert View(w, base, n)[i - 1] == LineAt(w, base + i);
  }

  /** `w'` holds the first j members; beyond them the words are still those of `w`. */
  ghost predicate Squeezed(w: seq<int>, w': seq<int>, s: seq<Line>, j: nat)
    requires j <= |s|
  {
    && |w'| == |w|
    && |s| < |w|
    && (forall k | j < k < |w| :: w'[k] == w[k])
    && (forall p | 1 <= p <= j :: w'[p] == MemberAt(s, p))
  }

  /** The words of line p that the squeezing has still to read. */
  ghost predicate StillThere(w: seq<int>, base: nat, s: seq<Line>, p: nat)
    requires 1 <= p && 2 * (base + p) + 1 < |w|
  {
    && (p <= |s| ==> w[2 * (base + p)] == s[p - 1].serial)
    && w[2 * (base + p) + 1] == if p <= |s| then s[p - 1].value else 0
  }

  /** Writing member j leaves all that is read later in place. */
  lemma {:induction false} PutMember(w: seq<int>, w': seq<int>, base: nat, s: seq<Line>, j: nat)
    requires 2 * (base + |s| + 1) + 1 < |w| && s == View(w, base, |s|) && w[2 * (base + |s| + 1) + 1] == 0
    requires 1 <= j <= |s| && Squeezed(w, w', s, j - 1)
    ensures StillThere(w', base, s, j)
    ensures var b := w'[j := MemberAt(s, j)];
            && Squeezed(w, b, s, j)
            && b[2 * (base + j) + 1] == s[j - 1].value
            && StillThere(b, base, s, j + 1)
  {
    assert s[j - 1] == LineAt(w, base + 1 + (j - 1));
    assert j < |s| ==> s[j] == LineAt(w, base + 1 + j);
  }

  /** Squeezes sorted file 1 into `member`, which overlays the very words that still hold the file. */
  method Squeeze(b0: seq<int>, base: nat, m: nat) returns (b: seq<int>)
    requires 2 * (base + m + 1) + 1 < |b0|
    requires forall p | 0 <= p < m :: View(b0, base, m)[p].value != 0
    ensures Members(b, View(b0, base, m))
  {
    ghost var s := View(b0, base, m);
    b := b0[2 * (base + m + 1) + 1 := 0];
    ghost var w := b;
    assert s == View(w, base, m) by {
      assert forall p | 0 <= p < m :: s[p] == LineAt(w, base + 1 + p);
    }
    var j := 1;
    while j <= m
      invariant 1 <= j <= m + 1
      invariant Squeezed(w, b, s, j - 1)
      invariant 1 < j <= m ==> First(s, j)
    {
      b, j := SqueezeClass(b, base, m, j, w, s);
    }
    b := b[j := -1];
  }

  /** One class: its first member flagged, then the rest up to the next value. */
  method SqueezeClass(b0: seq<int>, base: nat, m: nat, j0: nat, ghost w: seq<int>, ghost s: seq<Line>)
    returns (b: seq<int>, j: nat)
    requires 2 * (base + m + 1) + 1 < |w| && s == View(w, base, m) && w[2 * (base + m + 1) + 1] == 0
    requires forall p | 0 <= p < m :: s[p].value != 0
    requires 1 <= j0 <= m && First(s, j0) && Squeezed(w, b0, s, j0 - 1)
    ensures j0 < j <= m + 1 && Squeezed(w, b, s, j - 1) && (j <= m ==> First(s, j))
  {
    j := j0;
    PutMember(w, b0, base, s, j);
    b := b0[j := -b0[2 * (base + j)]];
    while b[2 * (base + j + 1) + 1] == b[2 * (base + j) + 1]
      invariant j0 <= j <= m
      invariant Squeezed(w, b, s, j)
      invariant b[2 * (base + j) + 1] == s[j - 1].value && StillThere(b, base, s, j + 1)
      decreases m - j
    {
      j := j + 1;
      PutMember(w, b, base, s, j);
      b := b[j := b[2 * (base + j)]];
    }
    j := j + 1;
  }

  method Equiv(a0: seq<int>, b0: seq<int>, base: nat, n: nat, m: nat) returns (a: seq<int>, b: seq<int>)
    requires 2 * (base + n) + 1 < |a0| && 2 * (base + m + 1) + 1 < |b0|
    requires Sorted(View(a0, base, n)) && Sorted(View(b0, base, m))
    requires forall p | 0 <= p < m :: View(b0, base, m)[p].value != 0
    ensures Outside(a0, a, base, n)
    ensures var v, v' := View(a0, base, n), View(a, base, n);
            forall p | 0 <= p < n :: v'[p].serial == v[p].serial
                                     && ClassIndex(v'[p].value, v[p].value, View(b0, base, m))
    ensures Members(b, View(b0, base, m))
  {
    a := Classify(a0, b0, base, n, m);
    b := Squeeze(b0, base, m);
  }

  /** Puts the values back into the original line order; `class` overlays the file. */
  method Unsort(w0: seq<int>, base: nat, l: nat, junk: int) returns (w: seq<int>)
    requires 2 * (base + l) + 1 < |w0|
    requires forall p | 0 <= p < l :: 1 <= View(w0, base, l)[p].serial <= l
    requires forall p, q | 0 <= p < q < l ::
      View(w0, base, l)[p].serial != View(w0, base, l)[q].serial
    ensures |w| == |w0|
    ensures forall p | 0 <= p < l :: var x := View(w0, base, l)[p]; w[x.serial] == x.value
  {
    w := w0;
    ghost var v := View(w0, base, l);
    var a := seq(l + 1, _ => junk);
    for i := 1 to l + 1
      invariant |a| == l + 1
      invariant forall p | 0 <= p < i - 1 :: a[v[p].serial] == v[p].value
    {
      assert v[i - 1] == LineAt(w, base + i);
      a := a[w[2 * (base + i)] := w[2 * (base + i) + 1]];
    }
    for i := 1 to l + 1
      invariant |w| == |w0|
      invariant forall k | 1 <= k < i :: w[k] == a[k]
    {
      w := w[i := a[i]];
    }
  }
}
