/** The main line of `diff`: prune, sort, equiv, unsort, stone, unravel, check, output. */
module Diff {
  import opened Wrappers
  import opened Lcs
  import opened DiffLines
  import opened DiffStone
  import opened DiffScript
  import opened DiffCheck
  import opened DiffLeast

  // ---------------------------------------------------------------- prune

  /** The two files agree in their first pref and last suff lines, which do not overlap. */
  ghost predicate Ends(f0: seq<int>, f1: seq<int>, pref: nat, suff: nat) {
    && pref + suff <= |f0| && pref + suff <= |f1|
    && (forall i | 0 <= i < pref :: f0[i] == f1[i])
    && (forall i, j | |f0| - suff <= i < |f0| && j - i == |f1| - |f0| :: f0[i] == f1[j])
  }

  method Prune(f0: seq<int>, f1: seq<int>) returns (pref: nat, suff: nat)
    ensures Ends(f0, f1, pref, suff)
    ensures f0 == f1 ==> pref == |f0|
  {
    pref := 0;
    while pref < |f0| && pref < |f1| && f0[pref] == f1[pref]
      invariant pref <= |f0| && pref <= |f1|
      invariant forall i | 0 <= i < pref :: f0[i] == f1[i]
    {
      pref := pref + 1;
    }
    suff := 0;
    while suff < |f0| - pref && suff < |f1| - pref && f0[|f0| - suff - 1] == f1[|f1| - suff - 1]
      invariant Ends(f0, f1, pref, suff)
    {
      suff := suff + 1;
    }
  }

  ghost function Middle(f: seq<int>, pref: nat, suff: nat): (r: seq<int>)
    requires pref + suff <= |f|
    ensures |r| == |f| - pref - suff
  {
    f[pref..|f| - suff]
  }

  lemma {:induction false} ThreeParts(f: seq<int>, pref: nat, suff: nat)
    requires pref + suff <= |f|
    ensures f == f[..pref] + Middle(f, pref, suff) + f[|f| - suff..]
  {
  }

  lemma {:induction false} SameEnds(f0: seq<int>, f1: seq<int>, pref: nat, suff: nat)
    requires Ends(f0, f1, pref, suff)
    ensures f0[..pref] == f1[..pref] && f0[|f0| - suff..] == f1[|f1| - suff..]
  {
    var s, t := f0[|f0| - suff..], f1[|f1| - suff..];
    forall k | 0 <= k < suff ensures s[k] == t[k] {
      var i, j := |f0| - suff + k, |f1| - suff + k;
      assert f0[i] == f1[j];
    }
  }

  /** Pruning common ends off the files costs no match. */
  lemma {:induction false} PruneOptimal(f0: seq<int>, f1: seq<int>, pref: nat, suff: nat)
    requires Ends(f0, f1, pref, suff)
    ensures Len(f0, f1, |f0|, |f1|)
         == pref + Len(Middle(f0, pref, suff), Middle(f1, pref, suff),
                       |f0| - pref - suff, |f1| - pref - suff) + suff
  {
    SameEnds(f0, f1, pref, suff);
    ThreeParts(f0, pref, suff);
    ThreeParts(f1, pref, suff);
    PruneParts(f0, f1, f0[..pref], Middle(f0, pref, suff), Middle(f1, pref, suff), f0[|f0| - suff..], pref, suff);
  }

  lemma {:induction false} PruneParts(f0: seq<int>, f1: seq<int>, p: seq<int>, a: seq<int>, b: seq<int>, s: seq<int>,
                                      pref: nat, suff: nat)
    requires f0 == p + a + s && f1 == p + b + s && |p| == pref && |s| == suff
    ensures Len(f0, f1, |f0|, |f1|) == pref + Len(a, b, |f0| - pref - suff, |f1| - pref - suff) + suff
  {
    Pruned(p, a, b, s);
    assert |a| == |f0| - pref - suff && |b| == |f1| - pref - suff;
  }

  // ---------------------------------------------------------------- unravel

  /** The match vector: equal values, increasing, and so many matches. */
  ghost predicate Matched(J: seq<int>, f0: seq<int>, f1: seq<int>, count: int) {
    && Increasing(J, |f0|, |f1|)
    && (forall i | 1 <= i <= |f0| && J[i] != 0 :: f0[i - 1] == f1[J[i] - 1])
    && Matches(J, |f0|) == count
  }

  lemma {:induction false} MatchesUpdate(J: seq<int>, x: nat, v: int, i: nat)
    requires 0 < x < |J| && i < |J| && J[x] == 0 && v != 0
    ensures Matches(J[x := v], i) == Matches(J, i) + if x <= i then 1 else 0
  {
    if i > 0 {
      MatchesUpdate(J, x, v, i - 1);
    }
  }

  /** Entries of J outside the unravelled part of the chain: the ends, and what lies beyond (x, y). */
  ghost predicate Beyond(J: seq<int>, pref: nat, m: nat, x: int, y: int) {
    && |J| == m + 2
    && (forall i | 1 <= i <= pref :: i <= m && J[i] == i)
    && (forall i | pref < i <= m && J[i] != 0 :: x < i && y < J[i])
  }

  method FillEnds(f0: seq<int>, f1: seq<int>, m: nat, n: nat, pref: nat, suff: nat) returns (J: seq<int>)
    requires m == |f0| && n == |f1| && Ends(f0, f1, pref, suff)
    ensures Matched(J, f0, f1, pref + suff)
    ensures Beyond(J, pref, m, m - suff, n - suff)
  {
    J := seq(m + 2, _ => 0);
    for i := 0 to m + 1
      invariant |J| == m + 2
      invariant forall k | 0 <= k < i :: J[k] == End(k, m, n, pref, suff)
    {
      J := J[i := if i <= pref then i else if i > m - suff then i + n - m else 0];
    }
    EndsMatched(J, f0, f1, m, n, pref, suff);
    CountEnds(J, m, n, pref, suff, m);
  }

  lemma {:induction false} EndsMatched(J: seq<int>, f0: seq<int>, f1: seq<int>, m: nat, n: nat, pref: nat, suff: nat)
    requires m == |f0| && n == |f1| && Ends(f0, f1, pref, suff) && |J| == m + 2
    requires forall k | 0 <= k <= m :: J[k] == End(k, m, n, pref, suff)
    ensures Increasing(J, m, n) && Beyond(J, pref, m, m - suff, n - suff)
    ensures forall i | 1 <= i <= m && J[i] != 0 :: f0[i - 1] == f1[J[i] - 1]
  {
    forall i, j | 1 <= i < j <= m ensures InOrder(J, i, j) {
      assert J[i] == End(i, m, n, pref, suff) && J[j] == End(j, m, n, pref, suff);
    }
    forall i | 1 <= i <= m && J[i] != 0 ensures 0 <= J[i] <= n && f0[i - 1] == f1[J[i] - 1] {
      assert J[i] == End(i, m, n, pref, suff);
      var x, y := i - 1, J[i] - 1;
      assert f0[x] == f1[y];
    }
  }

  lemma {:induction false} CountEnds(J: seq<int>, m: nat, n: nat, pref: nat, suff: nat, i: nat)
    requires |J| == m + 2 && pref + suff <= m && pref + suff <= n && i <= m
    requires forall k | 0 <= k <= m :: J[k] == End(k, m, n, pref, suff)
    ensures Matches(J, i) == (if i <= pref then i else pref) + (if i > m - suff then i - (m - suff) else 0)
  {
    if i > 0 {
      CountEnds(J, m, n, pref, suff, i - 1);
      assert J[i] == End(i, m, n, pref, suff);
    }
  }

  function End(i: int, m: int, n: int, pref: int, suff: int): int {
    if i <= pref then i else if i > m - suff then i + n - m else 0
  }

  /** One link of the chain. */
  lemma {:induction false} Record(J: seq<int>, f0: seq<int>, f1: seq<int>, count: int, pref: nat, x: nat, y: nat)
    requires Matched(J, f0, f1, count) && Beyond(J, pref, |f0|, x, y)
    requires pref < x <= |f0| && pref < y <= |f1| && f0[x - 1] == f1[y - 1]
    ensures Matched(J[x := y], f0, f1, count + 1) && Beyond(J[x := y], pref, |f0|, x - 1, y - 1)
  {
    var J' := J[x := y];
    assert J[x] == 0;
    MatchesUpdate(J, x, y, |f0|);
    forall i, j | 1 <= i < j <= |f0| ensures InOrder(J', i, j) {
      assert InOrder(J, i, j);
      assert i == x && J'[j] != 0 ==> y < J[j];
      assert j == x && J'[i] != 0 ==> i <= pref && J[i] == i;
    }
  }

  /** Follows the chain of candidates from p and records its pairs in J. */
  method Unravel(clist: seq<Cand>, p: int, pref: nat, suff: nat, f0: seq<int>, f1: seq<int>,
                 ghost rank: seq<nat>)
    returns (J: seq<int>)
    requires Ends(f0, f1, pref, suff)
    requires Forest(clist, rank, Middle(f0, pref, suff), Middle(f1, pref, suff)) && 0 <= p < |clist|
    ensures Matched(J, f0, f1, pref + rank[p] + suff)
  {
    J := FillEnds(f0, f1, |f0|, |f1|, pref, suff);
    ghost var a, b := Middle(f0, pref, suff), Middle(f1, pref, suff);
    var q := p;
    ghost var count := pref + suff;
    assert q != 0 ==> Linked(clist, rank, a, b, q);
    while clist[q].y != 0
      invariant 0 <= q < |clist| && count == pref + suff + rank[p] - rank[q]
      invariant q != 0 ==> Linked(clist, rank, a, b, q)
      invariant Matched(J, f0, f1, count)
      invariant Beyond(J, pref, |f0|, clist[q].x + pref, clist[q].y + pref)
      decreases q
    {
      var c := clist[q];
      var x, y := c.x + pref, c.y + pref;
      assert a[c.x - 1] == f0[x - 1] && b[c.y - 1] == f1[y - 1];
      Record(J, f0, f1, count, pref, x, y);
      J := J[x := y];
      count := count + 1;
      q := c.pred;
      assert q != 0 ==> Linked(clist, rank, a, b, q);
    }
  }

  // ---------------------------------------------------------------- main

  ghost function Values(lines: seq<Text>, hash: Text -> int): (f: seq<int>)
    ensures |f| == |lines| && forall i | 0 <= i < |f| :: f[i] == hash(lines[i])
  {
    seq(|lines|, i requires 0 <= i < |lines| => hash(lines[i]))
  }

  /** `prepare`: the hash values of a file; `readhash` is an arbitrary function here. */
  method Prepare(lines: seq<Text>, hash: Text -> int) returns (f: seq<int>)
    ensures f == Values(lines, hash)
  {
    f := [];
    for i := 0 to |lines|
      invariant |f| == i && forall k | 0 <= k < i :: f[k] == hash(lines[k])
    {
      f := f + [hash(lines[i])];
    }
  }

  /** The words of a file whose lines after the first pref are numbered from 1: what `prune` leaves. */
  method Number(f: seq<int>, pref: nat, suff: nat, junk: int) returns (w: seq<int>)
    requires pref + suff <= |f|
    ensures |w| == 2 * (|f| + 3)
    ensures Numbered(View(w, pref, |f| - pref - suff), Middle(f, pref, suff))
  {
    w := seq(2 * (|f| + 3), _ => junk);
    for i := 1 to |f| + 1
      invariant |w| == 2 * (|f| + 3)
      invariant forall k | 1 <= k < i :: w[2 * k + 1] == f[k - 1]
    {
      w := w[2 * i + 1 := f[i - 1]];
    }
    var n := |f| - pref - suff;
    for i := 0 to n + 1
      invariant |w| == 2 * (|f| + 3)
      invariant forall k | 1 <= k <= |f| :: w[2 * k + 1] == f[k - 1]
      invariant forall k | pref <= k < pref + i :: w[2 * k] == k - pref
    {
      w := w[2 * (pref + i) := i];
    }
    forall k | 0 <= k < n ensures View(w, pref, n)[k] == Line(k + 1, Middle(f, pref, suff)[k]) {
      var l := pref + 1 + k;
      assert w[2 * l] == l - pref && w[2 * l + 1] == f[l - 1];
    }
  }

  /** Sorting, classifying and matching the pruned files. */
  method MatchMiddle(f0: seq<int>, f1: seq<int>, pref: nat, suff: nat, junk: int)
    returns (clist: seq<Cand>, p: int, ghost rank: seq<nat>)
    requires Ends(f0, f1, pref, suff) && forall y | y in f1 :: y != 0
    ensures Forest(clist, rank, Middle(f0, pref, suff), Middle(f1, pref, suff)) && 0 <= p < |clist|
    ensures rank[p] == Len(Middle(f0, pref, suff), Middle(f1, pref, suff),
                           |f0| - pref - suff, |f1| - pref - suff)
  {
    ghost var a, b := Middle(f0, pref, suff), Middle(f1, pref, suff);
    var n, m := |f0| - pref - suff, |f1| - pref - suff;
    var w0 := Number(f0, pref, suff, junk);
    var w1 := Number(f1, pref, suff, junk);
    ghost var v0, v1 := View(w0, pref, n), View(w1, pref, m);
    w0 := Sort(w0, pref, n, junk);
    w1 := Sort(w1, pref, m, junk);
    ghost var s0, s1 := View(w0, pref, n), View(w1, pref, m);
    SortedIsPermuted(v0, s0, a);
    SortedIsPermuted(v1, s1, b);
    forall q | 0 <= q < m ensures s1[q].value != 0 {
      assert b[s1[q].serial - 1] in f1;
    }
    w0, w1 := Equiv(w0, w1, pref, n, m);
    ghost var c0 := View(w0, pref, n);
    w0 := Unsort(w0, pref, n, junk);
    forall i | 1 <= i <= n ensures ClassIndex(w0[i], a[i - 1], s1) {
      assert LineOf(a, i) in s0;
      var q :| 0 <= q < n && s0[q] == LineOf(a, i);
      assert c0[q].serial == i;
    }
    var chooser := new Chooser();
    var k, c := chooser.Stone(w0, n, w1, a, b, s1);
    clist, p, rank := chooser.clist, c[k], chooser.rank;
  }

  /** The match vector before `check`: longest possible for the values of the whole files. */
  method MatchVector(f0: seq<int>, f1: seq<int>, junk: int) returns (J: seq<int>)
    requires forall y | y in f1 :: y != 0
    ensures Matched(J, f0, f1, Len(f0, f1, |f0|, |f1|))
    ensures f0 == f1 ==> Matches(J, |f0|) == |f0|
  {
    var pref, suff := Prune(f0, f1);
    var clist, p;
    ghost var rank;
    clist, p, rank := MatchMiddle(f0, f1, pref, suff, junk);
    J := Unravel(clist, p, pref, suff, f0, f1, rank);
    PruneOptimal(f0, f1, pref, suff);
  }

  /** Hashing confounds no line of one file with a different line of the other. */
  ghost predicate Faithful(hash: Text -> int, old': seq<Text>, new': seq<Text>) {
    forall x, y | x in old' && y in new' :: hash(x) == hash(y) ==> x == y
  }

  /** With a faithful hash, `check` breaks no match. */
  lemma {:induction false} FaithfulMatches(J: seq<int>, J': seq<int>, old': seq<Text>, new': seq<Text>,
                                           hash: Text -> int, i: nat)
    requires Faithful(hash, old', new') && i <= |old'| && |J| == |J'| == |old'| + 2
    requires forall k | 1 <= k <= |old'| :: 0 <= J[k] <= |new'|
    requires forall k | 1 <= k <= |old'| && J[k] != 0 :: hash(old'[k - 1]) == hash(new'[J[k] - 1])
    requires forall k | 1 <= k <= |old'| :: J'[k] == Verified(J, old', new', k)
    ensures Matches(J', i) == Matches(J, i)
  {
    if i > 0 {
      FaithfulMatches(J, J', old', new', hash, i - 1);
      if J[i] != 0 {
        var x, y := old'[i - 1], new'[J[i] - 1];
        assert x in old' && y in new';
      }
    }
  }

  /** Identical files keep all their matches, whatever the hash. */
  lemma {:induction false} IdenticalMatches(J: seq<int>, J': seq<int>, lines: seq<Text>, i: nat)
    requires i <= |lines| && |J| == |J'| == |lines| + 2 && Increasing(J, |lines|, |lines|)
    requires Matches(J, |lines|) == |lines|
    requires forall k | 1 <= k <= |lines| :: J'[k] == Verified(J, lines, lines, k)
    ensures Matches(J', i) == i
  {
    if i > 0 {
      IdenticalMatches(J, J', lines, i - 1);
      AllMatched(J, |lines|, i, |lines|);
    }
  }

  lemma {:induction false} MatchesBound(J: seq<int>, i: nat)
    requires i < |J|
    ensures Matches(J, i) <= i
  {
    if i > 0 {
      MatchesBound(J, i - 1);
    }
  }

  /** When every line is matched, line i is matched with line i. */
  lemma {:induction false} AllMatched(J: seq<int>, m: nat, i: nat, j: nat)
    requires 1 <= i <= j <= m && Increasing(J, m, m) && Matches(J, j) == j && J[j] <= j
    ensures J[i] == i
    decreases j - i
  {
    MatchesBound(J, j - 1);
    LowerBound(J, m, j);
    if i < j {
      assert InOrder(J, j - 1, j);
      MatchesBound(J, j - 2);
      AllMatched(J, m, i, j - 1);
    }
  }

  lemma {:induction false} LowerBound(J: seq<int>, m: nat, j: nat)
    requires 1 <= j <= m && Increasing(J, m, m) && Matches(J, j) == j
    ensures J[j] >= j
  {
    MatchesBound(J, j - 1);
    if j > 1 {
      LowerBound(J, m, j - 1);
      assert InOrder(J, j - 1, j);
    }
  }

  lemma {:induction false} CommonValues(old': seq<Text>, new': seq<Text>, hash: Text -> int, ps: seq<Match>)
    requires Common(old', new', ps)
    ensures |ps| <= Len(Values(old', hash), Values(new', hash), |old'|, |new'|)
  {
    Bounds(Values(old', hash), Values(new', hash), |old'|, |new'|, ps);
  }

  lemma {:induction false} NothingChanged(old': seq<Text>, new': seq<Text>)
    ensures Patch(old', new', Nothing) == Some(old') && Edit(old', new', Nothing) == Some(old')
  {
    LinesAll(old');
    assert [] + old' == old';
  }

  lemma {:induction false} LeastScript(old': seq<Text>, new': seq<Text>, s: Script)
    requires forall ps | Common(old', new', ps) :: s.Removed() + s.Added() <= |old'| + |new'| - 2 * |ps|
    ensures forall t | Makes(old', new', t) :: s.Removed() + s.Added() <= t.Removed() + t.Added()
  {
    var ps := Achieved(old', new', |old'|, |new'|);
    forall t | Makes(old', new', t)
      ensures s.Removed() + s.Added() <= t.Removed() + t.Added()
    {
      NoCheaper(old', new', t);
    }
  }

  /** `diff` without -b: the script, in the order and sense of the option, and the exit status. */
  method DiffFiles(old': seq<Text>, new': seq<Text>, text0: seq<char>, text1: seq<char>, hash: Text -> int,
                   backward: bool, junk: int)
    returns (s: Script, status: int)
    requires IsText(text0, old') && IsText(text1, new')
    requires forall t :: hash(t) != 0
    ensures !backward ==> Patch(old', new', s) == Some(new') && Apart(s)
    ensures backward ==> Edit(old', new', s) == Some(new') && ApartDown(s)
    ensures status == (if s == Nothing then 0 else 1)
    ensures status == 0 <==> old' == new'
    ensures Faithful(hash, old', new') ==>
              && (forall ps | Common(old', new', ps) :: s.Removed() + s.Added() <= |old'| + |new'| - 2 * |ps|)
              && forall t | Makes(old', new', t) :: s.Removed() + s.Added() <= t.Removed() + t.Added()
  {
    var m, n := |old'|, |new'|;
    var f0 := Prepare(old', hash);
    var f1 := Prepare(new', hash);
    var J0 := MatchVector(f0, f1, junk);
    var J, ixold, ixnew := Check(J0, text0, text1, m, n, old', new');
    if backward {
      s := Backward(J, old', new', m, n);
    } else {
      s := Forward(J, old', new', m, n);
    }
    status := if s == Nothing then 0 else 1;
    NothingChanged(old', new');
    if old' == new' {
      assert f0 == f1;
      IdenticalMatches(J0, J, old', m);
      EmptyScript(old', new', s);
    }
    if Faithful(hash, old', new') {
      FaithfulMatches(J0, J, old', new', hash, m);
      forall ps | Common(old', new', ps)
        ensures s.Removed() + s.Added() <= m + n - 2 * |ps|
      {
        CommonValues(old', new', hash, ps);
      }
      LeastScript(old', new', s);
    }
  }
}
