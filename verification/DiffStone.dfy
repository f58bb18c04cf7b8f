/** `stone`: the k-candidate algorithm, proved to find a longest common subsequence. */
module DiffStone {
  import opened Lcs
  import opened DiffLines

  datatype Cand = Cand(x: int, y: int, pred: int)

  ghost predicate Mate(a: seq<int>, b: seq<int>, i: int, y: int)
    requires 1 <= i <= |a|
  {
    1 <= y <= |b| && a[i - 1] == b[y - 1]
  }

  // ---------------------------------------------------------------- thresholds

  ghost predicate Reaches(a: seq<int>, b: seq<int>, i: nat, j: nat, l: nat)
    requires i <= |a| && j <= |b|
  {
    Len(a, b, i, j) >= l
  }

  ghost predicate Rising(z: seq<int>) {
    && |z| > 0 && z[0] == 0
    && forall l, m | 0 <= l < m < |z| :: z[l] < z[m]
  }

  /** z[l] is the smallest j such that the first i lines of a and the first j lines of b have a common
      subsequence of length l; there is none of length |z|. */
  ghost predicate Thresholds(a: seq<int>, b: seq<int>, i: nat, z: seq<int>)
    requires i <= |a|
  {
    && Rising(z)
    && (forall l | 0 <= l < |z| :: z[l] <= |b|)
    && forall j: nat, l: nat | j <= |b| && 1 <= l ::
         Reaches(a, b, i, j, l) <==> l < |z| && z[l] <= j
  }

  /** Entry l of z is that of y, or a mate of line i that lies above entry l - 1 and lowers entry l. */
  ghost predicate Lowered(a: seq<int>, b: seq<int>, i: nat, y: seq<int>, z: seq<int>, l: int)
    requires 1 <= i <= |a| && 1 <= l < |z| && l <= |y|
  {
    || (l < |y| && z[l] == y[l])
    || (Mate(a, b, i, z[l]) && y[l - 1] < z[l] && (l < |y| ==> z[l] < y[l]))
  }

  /** Every mate of line i below t that lies above entry l - 1 of y has been taken into account in z. */
  ghost predicate Floor(a: seq<int>, b: seq<int>, i: nat, y: seq<int>, z: seq<int>, t: int, l: int)
    requires 1 <= i <= |a| && 1 <= l < |z| && l <= |y|
  {
    forall u | Mate(a, b, i, u) && u < t && y[l - 1] < u :: z[l] <= u
  }

  ghost predicate AllFloors(a: seq<int>, b: seq<int>, i: nat, y: seq<int>, z: seq<int>, t: int)
    requires 1 <= i <= |a| && |z| <= |y| + 1
  {
    forall l | 1 <= l < |z| :: Floor(a, b, i, y, z, t, l)
  }

  /** z follows from y by line i: every mate of line i has lowered (or added) the threshold above it. */
  ghost predicate Improves(a: seq<int>, b: seq<int>, i: nat, y: seq<int>, z: seq<int>)
    requires 1 <= i <= |a|
  {
    && Rising(y) && Rising(z) && |y| <= |z| <= |y| + 1
    && (forall l | 0 <= l < |z| :: z[l] <= |b|)
    && (forall l | 1 <= l < |z| :: Lowered(a, b, i, y, z, l))
    && AllFloors(a, b, i, y, z, |b| + 1)
    && (|z| == |y| ==> forall t | Mate(a, b, i, t) :: t <= y[|y| - 1])
  }

  lemma {:induction false} ThresholdOnly(a: seq<int>, b: seq<int>, i: nat, y: seq<int>, z: seq<int>, j: nat, l: nat)
    requires 1 <= i <= |a| && j <= |b| && 1 <= l
    requires Thresholds(a, b, i - 1, y) && Improves(a, b, i, y, z)
    requires Reaches(a, b, i, j, l)
    ensures l < |z| && z[l] <= j
  {
    RowStep(a, b, i, j, l);
    if Reaches(a, b, i - 1, j, l) {
      assert l < |y| <= |z| && y[l] <= j;
      assert Lowered(a, b, i, y, z, l);
    } else {
      var t :| 1 <= t <= j && Completes(a, b, i, t, l);
      assert Mate(a, b, i, t);
      assert l > 1 ==> Reaches(a, b, i - 1, t - 1, l - 1);
      assert y[l - 1] <= t - 1;
      assert l == |y| - 1 + 1 || y[l - 1] <= y[|y| - 1];
      assert l < |z|;
      assert Floor(a, b, i, y, z, |b| + 1, l);
    }
  }

  lemma {:induction false} ThresholdIf(a: seq<int>, b: seq<int>, i: nat, y: seq<int>, z: seq<int>, j: nat, l: nat)
    requires 1 <= i <= |a| && j <= |b| && 1 <= l
    requires Thresholds(a, b, i - 1, y) && Improves(a, b, i, y, z)
    requires l < |z| && z[l] <= j
    ensures Reaches(a, b, i, j, l)
  {
    RowStep(a, b, i, j, l);
    assert Lowered(a, b, i, y, z, l);
    if l < |y| && z[l] == y[l] {
      assert Reaches(a, b, i - 1, j, l);
    } else {
      var t := z[l];
      assert l > 1 ==> Reaches(a, b, i - 1, t - 1, l - 1);
      assert Completes(a, b, i, t, l);
    }
  }

  lemma {:induction false} ThresholdStep(a: seq<int>, b: seq<int>, i: nat, y: seq<int>, z: seq<int>)
    requires 1 <= i <= |a|
    requires Thresholds(a, b, i - 1, y) && Improves(a, b, i, y, z)
    ensures Thresholds(a, b, i, z)
  {
    forall j: nat, l: nat | j <= |b| && 1 <= l
      ensures Reaches(a, b, i, j, l) <==> l < |z| && z[l] <= j
    {
      if Reaches(a, b, i, j, l) {
        ThresholdOnly(a, b, i, y, z, j, l);
      }
      if l < |z| && z[l] <= j {
        ThresholdIf(a, b, i, y, z, j, l);
      }
    }
  }

  lemma {:induction false} NoMates(a: seq<int>, b: seq<int>, i: nat, y: seq<int>)
    requires 1 <= i <= |a| && Thresholds(a, b, i - 1, y)
    requires forall t :: !Mate(a, b, i, t)
    ensures Thresholds(a, b, i, y)
  {
    ThresholdStep(a, b, i, y, y);
  }

  // ---------------------------------------------------------------- one row, part way

  /** As Improves, but only the mates below t have been processed, and none has extended the list. */
  ghost predicate Partial(a: seq<int>, b: seq<int>, i: nat, y: seq<int>, z: seq<int>, t: int)
    requires 1 <= i <= |a|
  {
    && Rising(y) && Rising(z) && |y| == |z|
    && (forall l | 0 <= l < |y| :: y[l] <= |b|)
    && (forall l | 1 <= l < |z| :: Lowered(a, b, i, y, z, l))
    && (forall l | 1 <= l < |z| :: z[l] == y[l] || (z[l] < y[l] && z[l] < t))
    && AllFloors(a, b, i, y, z, t)
    && (forall u | Mate(a, b, i, u) && u < t :: u <= y[|y| - 1])
  }

  lemma {:induction false} PartialDone(a: seq<int>, b: seq<int>, i: nat, y: seq<int>, z: seq<int>, t: int)
    requires 1 <= i <= |a| && Thresholds(a, b, i - 1, y) && Partial(a, b, i, y, z, t)
    requires forall u | Mate(a, b, i, u) :: u < t
    ensures Thresholds(a, b, i, z)
  {
    var m := |b| + 1;
    forall l | 1 <= l < |z| ensures Floor(a, b, i, y, z, m, l) {
      assert Floor(a, b, i, y, z, t, l);
    }
    ThresholdStep(a, b, i, y, z);
  }

  lemma {:induction false} PartialExtended(a: seq<int>, b: seq<int>, i: nat, y: seq<int>, z: seq<int>, t: int)
    requires 1 <= i <= |a| && Thresholds(a, b, i - 1, y) && Partial(a, b, i, y, z, t)
    requires Mate(a, b, i, t) && t > y[|y| - 1]
    ensures Thresholds(a, b, i, z + [t])
  {
    var z' := z + [t];
    forall l, m | 0 <= l < m < |z'| ensures z'[l] < z'[m] {
      assert z[l] <= y[l] <= y[|y| - 1];
    }
    var m := |b| + 1;
    forall l | 1 <= l < |z'| ensures Lowered(a, b, i, y, z', l) && Floor(a, b, i, y, z', m, l) {
      if l < |z| {
        assert Lowered(a, b, i, y, z, l) && Floor(a, b, i, y, z, t, l);
        assert z[l] <= y[l] <= y[|y| - 1];
      }
    }
    ThresholdStep(a, b, i, y, z');
  }

  // ---------------------------------------------------------------- the classes of file 1

  /** The least mate comes first in its class. */
  lemma {:induction false} FirstMate(a: seq<int>, b: seq<int>, i: nat, s: seq<Line>, j: int, t: int)
    requires 1 <= i <= |a| && SortedFile(s, b)
    requires ClassIndex(j, a[i - 1], s) && Mate(a, b, i, t)
    ensures j != 0 && s[j - 1].serial <= t
  {
    assert LineOf(b, t) in s;
    var p :| 0 <= p < |s| && s[p] == LineOf(b, t);
    assert j > 1 ==> Le(s[j - 2], s[j - 1]);
    assert p > j - 1 ==> Le(s[j - 1], s[p]);
  }

  /** Between neighbours of a class lie no other mates, and none above its last member. */
  lemma {:induction false} NextMate(a: seq<int>, b: seq<int>, i: nat, s: seq<Line>, j: int, t: int)
    requires 1 <= i <= |a| && SortedFile(s, b)
    requires 1 <= j <= |s| && s[j - 1].value == a[i - 1] && Mate(a, b, i, t)
    requires s[j - 1].serial < t
    ensures j < |s| && !First(s, j + 1) && s[j].serial <= t
  {
    assert LineOf(b, t) in s;
    var p :| 0 <= p < |s| && s[p] == LineOf(b, t);
    assert p > j ==> Le(s[j], s[p]) && Le(s[j - 1], s[j]);
  }

  // ---------------------------------------------------------------- candidates

  /** Candidate p is a matched pair chained to a candidate of the next lower rank that lies strictly
      before it in both files. */
  ghost predicate Linked(clist: seq<Cand>, rank: seq<nat>, a: seq<int>, b: seq<int>, p: int)
    requires 0 <= p < |clist| == |rank|
  {
    var c := clist[p];
    && 1 <= c.x <= |a| && 1 <= c.y <= |b| && a[c.x - 1] == b[c.y - 1]
    && 0 <= c.pred < p && clist[c.pred].x < c.x && clist[c.pred].y < c.y
    && rank[p] == rank[c.pred] + 1
  }

  /** All candidates are linked, and candidate 0 ends every chain. */
  ghost predicate Forest(clist: seq<Cand>, rank: seq<nat>, a: seq<int>, b: seq<int>) {
    && |rank| == |clist| && |clist| >= 1
    && clist[0] == Cand(0, 0, 0) && rank[0] == 0
    && forall p | 1 <= p < |clist| :: Linked(clist, rank, a, b, p)
  }

  /** ks[l] is a candidate of rank l found in the first i lines. */
  ghost predicate Ranked(clist: seq<Cand>, rank: seq<nat>, ks: seq<int>, i: int) {
    && |rank| == |clist| && |ks| >= 1 && ks[0] == 0
    && forall l | 0 <= l < |ks| :: 0 <= ks[l] < |clist| && rank[ks[l]] == l && clist[ks[l]].x <= i
  }

  ghost function Ys(clist: seq<Cand>, ks: seq<int>): (z: seq<int>)
    requires forall l | 0 <= l < |ks| :: 0 <= ks[l] < |clist|
    ensures |z| == |ks| && forall l | 0 <= l < |ks| :: z[l] == clist[ks[l]].y
  {
    seq(|ks|, l requires 0 <= l < |ks| => clist[ks[l]].y)
  }

  // ---------------------------------------------------------------- the state within a row

  lemma {:induction false} PartialSkip(a: seq<int>, b: seq<int>, i: nat, y: seq<int>, z: seq<int>, t: int, m: nat)
    requires 1 <= i <= |a| && Partial(a, b, i, y, z, t)
    requires 1 <= m < |y| && z[m] <= t <= y[m]
    ensures Partial(a, b, i, y, z, t + 1)
  {
    var t' := t + 1;
    forall l | 1 <= l < |z| ensures Floor(a, b, i, y, z, t', l) {
      assert Floor(a, b, i, y, z, t, l);
      assert l < m ==> z[l] < z[m];
      assert y[m] < y[l - 1] || l - 1 <= m;
    }
    assert m < |y| - 1 ==> y[m] < y[|y| - 1];
  }

  lemma {:induction false} PartialReplace(a: seq<int>, b: seq<int>, i: nat, y: seq<int>, z: seq<int>, t: int, m: nat)
    requires 1 <= i <= |a| && Partial(a, b, i, y, z, t) && Mate(a, b, i, t)
    requires 1 <= m < |y| && z[m - 1] <= y[m - 1] < t < z[m] == y[m]
    ensures Partial(a, b, i, y, z[m := t], t + 1)
  {
    var z' := z[m := t];
    forall l, n | 0 <= l < n < |z'| ensures z'[l] < z'[n] {
      assert z[l] < z[n];
      assert n == m && l < m - 1 ==> z[l] < z[m - 1];
    }
    var t' := t + 1;
    forall l | 1 <= l < |z'| ensures Lowered(a, b, i, y, z', l) && Floor(a, b, i, y, z', t', l) {
      assert Lowered(a, b, i, y, z, l) && Floor(a, b, i, y, z, t, l);
      assert l < m ==> z'[l] < z'[m];
      assert y[m] < y[l - 1] || l - 1 <= m;
    }
    assert m < |y| - 1 ==> y[m] < y[|y| - 1];
  }

  lemma {:induction false} PartialAdvance(a: seq<int>, b: seq<int>, i: nat, y: seq<int>, z: seq<int>, t: int, t': int)
    requires 1 <= i <= |a| && Partial(a, b, i, y, z, t) && t <= t'
    requires forall u | Mate(a, b, i, u) && t <= u :: t' <= u
    ensures Partial(a, b, i, y, z, t')
  {
    forall l | 1 <= l < |z| ensures Floor(a, b, i, y, z, t', l) {
      assert Floor(a, b, i, y, z, t, l);
    }
  }

  lemma {:induction false} ForestGrows(clist: seq<Cand>, rank: seq<nat>, a: seq<int>, b: seq<int>, i: nat, y: int,
                                       pred: int)
    requires Forest(clist, rank, a, b)
    requires 1 <= i <= |a| && Mate(a, b, i, y)
    requires 0 <= pred < |clist| && clist[pred].x < i && clist[pred].y < y
    ensures Forest(clist + [Cand(i, y, pred)], rank + [rank[pred] + 1], a, b)
  {
    var clist', rank' := clist + [Cand(i, y, pred)], rank + [rank[pred] + 1];
    forall p | 1 <= p < |clist'| ensures Linked(clist', rank', a, b, p) {
      assert p < |clist| ==> Linked(clist, rank, a, b, p);
    }
  }

  /** The variables of one row: the candidates, the current list cs, and oldc, which may serve as
      predecessor of a candidate of rank oldl + 1. */
  datatype Vars = Vars(clist: seq<Cand>, rank: seq<nat>, cs: seq<int>, oldl: nat, oldc: int) {

    ghost predicate Sound() {
      && |rank| == |clist| && oldl < |cs| && 0 <= oldc < |clist|
      && forall l | 0 <= l < |cs| :: 0 <= cs[l] < |clist|
    }

    /** What one mate y of line i does to the variables, when `search` has found l. */
    ghost function Mated(i: int, y: int, l: nat): Vars
      requires Sound() && (y > clist[oldc].y ==> Position(Ys(clist, cs), y, l))
    {
      if y <= clist[oldc].y then this
      else
        var pred := if l == oldl + 1 then oldc else cs[l - 1];
        var clist', rank' := clist + [Cand(i, y, pred)], rank + [l];
        if l == |cs| then Vars(clist', rank', cs + [|clist|], oldl, pred)
        else if clist[cs[l]].y <= y then this.(oldc := pred)
        else Vars(clist', rank', cs[l := |clist|], l, cs[l])
    }
  }

  /** What `search` finds: the first entry not below y. */
  ghost predicate Position(z: seq<int>, y: int, l: nat) {
    && 1 <= l <= |z|
    && z[l - 1] < y
    && (l < |z| ==> y <= z[l])
  }

  /** Row i after its mates below t, when ks were the candidates before the row. */
  ghost predicate RowState(v: Vars, ks: seq<int>, a: seq<int>, b: seq<int>, i: nat, t: int)
    requires 1 <= i <= |a|
  {
    && v.Sound()
    && Forest(v.clist, v.rank, a, b)
    && Ranked(v.clist, v.rank, ks, i - 1) && Ranked(v.clist, v.rank, v.cs, i)
    && Partial(a, b, i, Ys(v.clist, ks), Ys(v.clist, v.cs), t)
    && v.clist[v.cs[v.oldl]].y < t
    && (forall l | v.oldl < l < |v.cs| :: v.cs[l] == ks[l])
    && (v.oldc == ks[v.oldl]
        || (v.oldl + 1 < |v.cs| && v.clist[v.cs[v.oldl + 1]].y < t && v.clist[v.oldc].y < t))
  }

  lemma {:induction false} SkipMate(v: Vars, ks: seq<int>, a: seq<int>, b: seq<int>, i: nat, y: int)
    requires 1 <= i <= |a| && RowState(v, ks, a, b, i, y)
    requires 0 < y <= v.clist[v.oldc].y
    ensures RowState(v, ks, a, b, i, y + 1)
  {
    PartialSkip(a, b, i, Ys(v.clist, ks), Ys(v.clist, v.cs), y, v.oldl);
  }

  /** The predecessor chosen is the candidate of rank l - 1 from before this row. */
  lemma {:induction false} Predecessor(v: Vars, ks: seq<int>, a: seq<int>, b: seq<int>, i: nat, y: int, l: nat)
    requires 1 <= i <= |a| && RowState(v, ks, a, b, i, y)
    requires y > v.clist[v.oldc].y && Position(Ys(v.clist, v.cs), y, l)
    ensures v.oldl < l
    ensures (if l == v.oldl + 1 then v.oldc else v.cs[l - 1]) == ks[l - 1]
    ensures v.clist[ks[l - 1]].y < y
  {
    var ys, zs := Ys(v.clist, ks), Ys(v.clist, v.cs);
    assert v.oldl + 1 < |zs| ==> ys[v.oldl] < ys[v.oldl + 1] == zs[v.oldl + 1];
    assert v.oldl + 1 < l - 1 ==> zs[v.oldl + 1] < zs[l - 1];
  }

  lemma {:induction false} KeepMate(v: Vars, ks: seq<int>, a: seq<int>, b: seq<int>, i: nat, y: int, l: nat)
    requires 1 <= i <= |a| && RowState(v, ks, a, b, i, y)
    requires y > v.clist[v.oldc].y && Position(Ys(v.clist, v.cs), y, l)
    requires l < |v.cs| && v.clist[v.cs[l]].y <= y
    ensures RowState(v.(oldc := ks[l - 1]), ks, a, b, i, y + 1)
  {
    Predecessor(v, ks, a, b, i, y, l);
    var zs := Ys(v.clist, v.cs);
    PartialSkip(a, b, i, Ys(v.clist, ks), zs, y, l);
    assert l > v.oldl + 1 ==> zs[v.oldl + 1] < zs[l];
  }

  /** Appending a candidate changes no entry of the list, and y only where it is installed. */
  lemma {:induction false} YsGrow(clist: seq<Cand>, rank: seq<nat>, ks: seq<int>, i: int, c: Cand, l: nat)
    requires Ranked(clist, rank, ks, i) && 1 <= l
    ensures Ranked(clist + [c], rank + [l], ks, i) && Ys(clist + [c], ks) == Ys(clist, ks)
    ensures l < |ks| && c.x <= i ==> Ranked(clist + [c], rank + [l], ks[l := |clist|], i)
                                     && Ys(clist + [c], ks[l := |clist|]) == Ys(clist, ks)[l := c.y]
    ensures l == |ks| && c.x <= i ==> Ranked(clist + [c], rank + [l], ks + [|clist|], i)
                                      && Ys(clist + [c], ks + [|clist|]) == Ys(clist, ks) + [c.y]
  {
  }

  lemma {:induction false} ReplaceMate(v: Vars, ks: seq<int>, a: seq<int>, b: seq<int>, i: nat, y: int, l: nat)
    requires 1 <= i <= |a| && RowState(v, ks, a, b, i, y)
    requires y > v.clist[v.oldc].y && Position(Ys(v.clist, v.cs), y, l) && Mate(a, b, i, y)
    requires l < |v.cs| && v.clist[v.cs[l]].y > y
    ensures RowState(Vars(v.clist + [Cand(i, y, ks[l - 1])], v.rank + [l],
                          v.cs[l := |v.clist|], l, v.cs[l]), ks, a, b, i, y + 1)
  {
    Predecessor(v, ks, a, b, i, y, l);
    var ys, zs, c := Ys(v.clist, ks), Ys(v.clist, v.cs), Cand(i, y, ks[l - 1]);
    var w := Vars(v.clist + [c], v.rank + [l], v.cs[l := |v.clist|], l, v.cs[l]);
    assert zs[l] == ys[l];
    assert Forest(w.clist, w.rank, a, b) by {
      ForestGrows(v.clist, v.rank, a, b, i, y, ks[l - 1]);
    }
    assert Ranked(w.clist, w.rank, w.cs, i) && Ranked(w.clist, w.rank, ks, i - 1) && Ys(w.clist, w.cs) == zs[l := y]
           && Ys(w.clist, ks) == ys by {
      YsGrow(v.clist, v.rank, v.cs, i, c, l);
      YsGrow(v.clist, v.rank, ks, i - 1, c, l);
    }
    PartialReplace(a, b, i, ys, zs, y, l);
  }

  lemma {:induction false} ExtendMate(v: Vars, ks: seq<int>, a: seq<int>, b: seq<int>, i: nat, y: int, l: nat)
    requires 1 <= i <= |a| && RowState(v, ks, a, b, i, y)
    requires y > v.clist[v.oldc].y && Position(Ys(v.clist, v.cs), y, l) && Mate(a, b, i, y)
    requires l == |v.cs| && Thresholds(a, b, i - 1, Ys(v.clist, ks))
    ensures Candidates(v.clist + [Cand(i, y, ks[l - 1])], v.rank + [l], v.cs + [|v.clist|], a, b, i)
  {
    Predecessor(v, ks, a, b, i, y, l);
    ForestGrows(v.clist, v.rank, a, b, i, y, ks[l - 1]);
    YsGrow(v.clist, v.rank, v.cs, i, Cand(i, y, ks[l - 1]), l);
    PartialExtended(a, b, i, Ys(v.clist, ks), Ys(v.clist, v.cs), y);
  }

  /** One mate keeps the row's invariant, or completes the row by extending the list. */
  lemma {:induction false} MatedKeeps(v: Vars, ks: seq<int>, a: seq<int>, b: seq<int>, i: nat, y: int, l: nat)
    requires 1 <= i <= |a| && RowState(v, ks, a, b, i, y) && Mate(a, b, i, y)
    requires y > v.clist[v.oldc].y ==> Position(Ys(v.clist, v.cs), y, l)
    requires Thresholds(a, b, i - 1, Ys(v.clist, ks))
    ensures var v' := v.Mated(i, y, l);
            if |v'.cs| == |v.cs| then RowState(v', ks, a, b, i, y + 1) && Ys(v'.clist, ks) == Ys(v.clist, ks)
            else Candidates(v'.clist, v'.rank, v'.cs, a, b, i)
  {
    if y <= v.clist[v.oldc].y {
      SkipMate(v, ks, a, b, i, y);
    } else {
      Predecessor(v, ks, a, b, i, y, l);
      if l == |v.cs| {
        ExtendMate(v, ks, a, b, i, y, l);
      } else if v.clist[v.cs[l]].y <= y {
        KeepMate(v, ks, a, b, i, y, l);
      } else {
        ReplaceMate(v, ks, a, b, i, y, l);
        YsGrow(v.clist, v.rank, ks, i - 1, Cand(i, y, ks[l - 1]), l);
      }
    }
  }

  /** The k-candidates ks of the first i lines. */
  ghost predicate Candidates(clist: seq<Cand>, rank: seq<nat>, ks: seq<int>,
                             a: seq<int>, b: seq<int>, i: nat)
    requires i <= |a|
  {
    && Forest(clist, rank, a, b)
    && Ranked(clist, rank, ks, i)
    && Thresholds(a, b, i, Ys(clist, ks))
  }

  lemma {:induction false} StartRow(v: Vars, a: seq<int>, b: seq<int>, i: nat, s: seq<Line>, j: int)
    requires 1 <= i <= |a| && Candidates(v.clist, v.rank, v.cs, a, b, i - 1)
    requires v.oldl == 0 && v.oldc == v.cs[0]
    requires SortedFile(s, b) && j != 0 && ClassIndex(j, a[i - 1], s)
    ensures RowState(v, v.cs, a, b, i, s[j - 1].serial)
  {
    forall t | Mate(a, b, i, t) ensures s[j - 1].serial <= t {
      FirstMate(a, b, i, s, j, t);
    }
  }

  /** `member` walks through a class and marks its end by sign. */
  lemma {:induction false} MemberSign(member: seq<int>, s: seq<Line>, f: seq<int>, j: int)
    requires Members(member, s) && SortedFile(s, f) && 1 <= j <= |s|
    ensures First(s, j) ==> -member[j] == s[j - 1].serial
    ensures member[j + 1] > 0 ==> j < |s| && !First(s, j + 1) && member[j + 1] == s[j].serial
    ensures member[j + 1] <= 0 ==> j == |s| || First(s, j + 1)
  {
    assert member[j] == MemberAt(s, j);
    assert j < |s| ==> member[j + 1] == MemberAt(s, j + 1);
  }

  lemma {:induction false} AdvanceRow(v: Vars, ks: seq<int>, a: seq<int>, b: seq<int>, i: nat, s: seq<Line>, j: int,
                   y: int, y': int)
    requires 1 <= i <= |a| && SortedFile(s, b)
    requires 1 <= j < |s| && s[j - 1].value == a[i - 1] && !First(s, j + 1)
    requires s[j - 1].serial == y && s[j].serial == y'
    requires RowState(v, ks, a, b, i, y + 1)
    ensures RowState(v, ks, a, b, i, y')
  {
    assert Le(s[j - 1], s[j]);
    forall t | Mate(a, b, i, t) && y < t ensures y' <= t {
      NextMate(a, b, i, s, j, t);
    }
    PartialAdvance(a, b, i, Ys(v.clist, ks), Ys(v.clist, v.cs), y + 1, y');
  }

  lemma {:induction false} FinishRow(v: Vars, ks: seq<int>, a: seq<int>, b: seq<int>, i: nat, s: seq<Line>, j: int,
                                     y: int)
    requires 1 <= i <= |a| && SortedFile(s, b)
    requires 1 <= j <= |s| && s[j - 1].value == a[i - 1] && (j == |s| || First(s, j + 1))
    requires s[j - 1].serial == y && RowState(v, ks, a, b, i, y + 1)
    requires Thresholds(a, b, i - 1, Ys(v.clist, ks))
    ensures Candidates(v.clist, v.rank, v.cs, a, b, i)
  {
    forall t | Mate(a, b, i, t) ensures t < y + 1 {
      if y < t {
        NextMate(a, b, i, s, j, t);
      }
    }
    PartialDone(a, b, i, Ys(v.clist, ks), Ys(v.clist, v.cs), y + 1);
  }

  /** What the sign of the next member decides. */
  lemma {:induction false} NextMember(v: Vars, ks: seq<int>, a: seq<int>, b: seq<int>, i: nat,
                   member: seq<int>, s: seq<Line>, j: int, y: int, j': int, y': int)
    requires 1 <= i <= |a| && SortedFile(s, b) && Members(member, s)
    requires 1 <= j <= |s| && s[j - 1].value == a[i - 1] && s[j - 1].serial == y
    requires j' == j + 1 && y' == member[j']
    requires RowState(v, ks, a, b, i, y + 1)
    requires Thresholds(a, b, i - 1, Ys(v.clist, ks))
    ensures y' > 0 ==> j' <= |s| && s[j' - 1].value == a[i - 1] && s[j' - 1].serial == y'
                       && Mate(a, b, i, y') && RowState(v, ks, a, b, i, y')
    ensures y' <= 0 ==> Candidates(v.clist, v.rank, v.cs, a, b, i)
  {
    MemberSign(member, s, b, j);
    if member[j + 1] > 0 {
      AdvanceRow(v, ks, a, b, i, s, j, y, member[j + 1]);
    } else {
      FinishRow(v, ks, a, b, i, s, j, y);
    }
  }

  class Chooser {
    var clist: seq<Cand>
    ghost var rank: seq<nat>

    constructor ()
      ensures clist == [] && rank == []
    {
      clist, rank := [], [];
    }

    method NewCand(x: int, y: int, pred: int, ghost r: nat) returns (p: int)
      modifies this
      ensures p == |old(clist)|
      ensures clist == old(clist) + [Cand(x, y, pred)] && rank == old(rank) + [r]
    {
      clist := clist + [Cand(x, y, pred)];
      rank := rank + [r];
      p := |clist| - 1;
    }

    /** The first l whose candidate is not below y; k + 1 when all are below. */
    method Search(c: seq<int>, k: nat, y: int) returns (l: nat)
      requires |c| == k + 1
      requires forall l | 0 <= l <= k :: 0 <= c[l] < |clist|
      requires Rising(Ys(clist, c)) && 0 < y
      ensures Position(Ys(clist, c), y, l)
    {
      ghost var z := Ys(clist, c);
      if clist[c[k]].y < y {
        return k + 1;
      }
      var i, j := 0, k + 1;
      l := (i + j) / 2;
      while l > i
        invariant 0 <= i < j <= k + 1
        invariant l == (i + j) / 2
        invariant z[i] < y
        invariant j <= k ==> z[j] > y
        decreases j - i
      {
        var t := clist[c[l]].y;
        if t > y {
          j := l;
        } else if t < y {
          i := l;
        } else {
          assert z[l - 1] < z[l];
          return;
        }
        l := (i + j) / 2;
      }
      l := l + 1;
    }

    /** The k-candidates of the first i lines are those of klist c. */
    ghost predicate Holds(c: seq<int>, a: seq<int>, b: seq<int>, i: nat)
      requires i <= |a|
      reads this
    {
      Candidates(clist, rank, c, a, b, i)
    }

    /** The marching loop.  a and b are the line values of the two files; `classes` and `member` are what
        `equiv` and `unsort` have made of them, by way of s, file 1 in sorted order.  Returns the length
        of a longest common subsequence, and klist. */
    method Stone(classes: seq<int>, n: nat, member: seq<int>,
                 ghost a: seq<int>, ghost b: seq<int>, ghost s: seq<Line>)
      returns (k: nat, c: seq<int>)
      requires n == |a| && n < |classes|
      requires SortedFile(s, b) && Members(member, s)
      requires forall i | 1 <= i <= n :: ClassIndex(classes[i], a[i - 1], s)
      requires clist == [] && rank == []
      modifies this
      ensures |c| == k + 1 && Holds(c, a, b, n)
      ensures k == Len(a, b, n, |b|)
    {
      k := 0;
      var zero := NewCand(0, 0, 0, 0);
      c := [zero];
      assert Ys(clist, c) == [0];
      for i := 1 to n + 1
        invariant |c| == k + 1
        invariant Holds(c, a, b, i - 1)
      {
        var j := classes[i];
        if j == 0 {
          forall t ensures !Mate(a, b, i, t) {
            if Mate(a, b, i, t) {
              FirstMate(a, b, i, s, j, t);
            }
          }
          NoMates(a, b, i, Ys(clist, c));
        } else {
          k, c := Row(i, j, member, c, k, a, b, s);
        }
      }
      ghost var z := Ys(clist, c);
      assert Reaches(a, b, n, |b|, k) by {
        assert k > 0 ==> z[k] <= |b|;
      }
      assert !Reaches(a, b, n, |b|, k + 1);
    }

    /** One line of file 0 with all its mates, in ascending order. */
    method Row(i: nat, first: int, member: seq<int>, c0: seq<int>, k0: nat,
               ghost a: seq<int>, ghost b: seq<int>, ghost s: seq<Line>)
      returns (k: nat, c: seq<int>)
      requires 1 <= i <= |a| && |c0| == k0 + 1
      requires SortedFile(s, b) && Members(member, s)
      requires first != 0 && ClassIndex(first, a[i - 1], s)
      requires Holds(c0, a, b, i - 1)
      modifies this
      ensures |c| == k + 1 && Holds(c, a, b, i)
    {
      k, c := k0, c0;
      var j := first;
      var y := -member[j];
      var oldl, oldc := 0, c[0];
      MemberSign(member, s, b, j);
      ghost var v := Vars(clist, rank, c0, 0, c0[0]);
      StartRow(v, a, b, i, s, j);
      while true
        invariant 1 <= j <= |s| && s[j - 1].value == a[i - 1] && s[j - 1].serial == y
        invariant v == Vars(clist, rank, c, oldl, oldc)
        invariant |c| == k + 1 && Mate(a, b, i, y)
        invariant RowState(v, c0, a, b, i, y)
        invariant Thresholds(a, b, i - 1, Ys(v.clist, c0))
        decreases |s| - j
      {
        var extended;
        k, oldl, oldc, c, extended, v := Mates(i, y, c, k, oldl, oldc, v, c0, a, b);
        if extended {
          return;
        }
        ghost var j0, y0 := j, y;
        j := j + 1;
        y := member[j];
        NextMember(v, c0, a, b, i, member, s, j0, y0, j, y);
        if y <= 0 {
          return;
        }
      }
    }

    /** The body of the row's loop: one mate y of line i.  oldc is the candidate that c[oldl] held before
        this row replaced it, so that a mate is never chained to a candidate of its own row. */
    method Mated(i: nat, y: int, c0: seq<int>, k0: nat, oldl0: nat, oldc0: int)
      returns (k: nat, oldl: nat, oldc: int, c: seq<int>, extended: bool, ghost l': nat)
      requires |c0| == k0 + 1 && 0 < y
      requires Vars(clist, rank, c0, oldl0, oldc0).Sound() && Rising(Ys(clist, c0))
      modifies this
      ensures var v := Vars(old(clist), old(rank), c0, oldl0, oldc0);
              && (y > v.clist[oldc0].y ==> Position(Ys(v.clist, c0), y, l'))
              && v.Mated(i, y, l') == Vars(clist, rank, c, oldl, oldc)
      ensures |c| == k + 1 && (extended <==> k != k0)
    {
      k, oldl, oldc, c, l', extended := k0, oldl0, oldc0, c0, 0, false;
      if y <= clist[oldc].y {
        return;
      }
      var l := Search(c, k, y);
      l' := l;
      if l != oldl + 1 {
        oldc := c[l - 1];
      }
      if l <= k {
        if clist[c[l]].y <= y {
          return;
        }
        var tc := c[l];
        var p := NewCand(i, y, oldc, l);
        c := c[l := p];
        oldc := tc;
        oldl := l;
      } else {
        var p := NewCand(i, y, oldc, l);
        c := c + [p];
        k := k + 1;
        extended := true;
      }
    }

    /** The same, seen from the row's invariant. */
    method Mates(i: nat, y: int, c0: seq<int>, k0: nat, oldl0: nat, oldc0: int,
                 ghost v0: Vars, ghost ks: seq<int>, ghost a: seq<int>, ghost b: seq<int>)
      returns (k: nat, oldl: nat, oldc: int, c: seq<int>, extended: bool, ghost v: Vars)
      requires 1 <= i <= |a| && |c0| == k0 + 1
      requires v0 == Vars(clist, rank, c0, oldl0, oldc0) && RowState(v0, ks, a, b, i, y)
      requires Thresholds(a, b, i - 1, Ys(v0.clist, ks)) && Mate(a, b, i, y)
      modifies this
      ensures |c| == k + 1 && v == Vars(clist, rank, c, oldl, oldc)
      ensures !extended ==> RowState(v, ks, a, b, i, y + 1)
                            && Thresholds(a, b, i - 1, Ys(v.clist, ks))
      ensures extended ==> Candidates(v.clist, v.rank, v.cs, a, b, i)
    {
      ghost var l;
      k, oldl, oldc, c, extended, l := Mated(i, y, c0, k0, oldl0, oldc0);
      v := v0.Mated(i, y, l);
      MatedKeeps(v0, ks, a, b, i, y, l);
    }
  }
}
