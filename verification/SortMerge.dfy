/** `merge` of sort (sort.c): the runs are kept in the order of their first lines, so the next line of the output is
    always the first line of the last run. Lines are numbers; `rank` tells the order of `compare`. */
module SortMerge {
  import opened SortQuick

  /** What is left of each run, its current line first. */
  type Runs = seq<seq<int>>

  /** Each run is written by `sort` from its largest line down. */
  ghost predicate Falling(rank: int -> int, run: seq<int>) {
    forall x, y | 0 <= x < y < |run| :: rank(run[y]) <= rank(run[x])
  }

  ghost predicate AllFalling(rank: int -> int, runs: Runs) {
    forall m | 0 <= m < |runs| :: Falling(rank, runs[m])
  }

  ghost function Everything(runs: Runs): multiset<int> {
    if runs == [] then multiset{} else Everything(runs[..|runs| - 1]) + multiset(runs[|runs| - 1])
  }

  /** The rank of a run is that of its current line. */
  function RunRank(rank: int -> int, runs: Runs): int -> int {
    (m: int) => if 0 <= m < |runs| && runs[m] != [] then rank(runs[m][0]) else 0
  }

  /** `ibuf[0]` to `ibuf[i - 1]` are the runs not yet used up, each once. */
  ghost predicate Active(runs: Runs, ibuf: seq<int>, i: nat) {
    && i <= |ibuf|
    && (forall k | 0 <= k < i :: Current(runs, ibuf[k]))
    && (forall k, l | 0 <= k < l < i :: ibuf[k] != ibuf[l])
    && (forall m | 0 <= m < |runs| && runs[m] != [] :: Listed(ibuf, i, m))
  }

  ghost predicate Current(runs: Runs, m: int) {
    0 <= m < |runs| && runs[m] != []
  }

  ghost predicate Listed(ibuf: seq<int>, i: nat, m: int) {
    exists k :: 0 <= k < i <= |ibuf| && ibuf[k] == m
  }

  /** Nothing that is still to come ranks above x. */
  ghost predicate NoneAbove(rank: int -> int, runs: Runs, x: int) {
    forall m, k | 0 <= m < |runs| && 0 <= k < |runs[m]| :: rank(runs[m][k]) <= rank(x)
  }

  // ---------------------------------------------------------------- laws

  lemma {:induction false} EverythingEmpty(runs: Runs)
    requires forall m | 0 <= m < |runs| :: runs[m] == []
    ensures Everything(runs) == multiset{}
  {
    if runs != [] {
      EverythingEmpty(runs[..|runs| - 1]);
    }
  }

  lemma {:induction false} EverythingTail(runs: Runs, m: nat)
    requires m < |runs| && runs[m] != []
    ensures Everything(runs) == Everything(runs[m := runs[m][1..]]) + multiset{runs[m][0]}
  {
    var last := |runs| - 1;
    var after := runs[m := runs[m][1..]];
    if m == last {
      assert after[..last] == runs[..last];
      assert runs[m] == [runs[m][0]] + runs[m][1..];
    } else {
      EverythingTail(runs[..last], m);
      assert after[..last] == runs[..last][m := runs[m][1..]];
      assert after[last] == runs[last];
    }
  }

  lemma {:induction false} FallingTail(rank: int -> int, runs: Runs, m: nat)
    requires AllFalling(rank, runs) && m < |runs| && runs[m] != []
    ensures AllFalling(rank, runs[m := runs[m][1..]])
  {
    var after := runs[m := runs[m][1..]];
    forall p | 0 <= p < |after| ensures Falling(rank, after[p]) {
      assert Falling(rank, runs[p]);
    }
  }

  /** The current line of the last run ranks highest of all lines. */
  lemma {:induction false} LastIsHighest(rank: int -> int, runs: Runs, ibuf: seq<int>, i: nat)
    requires Active(runs, ibuf, i) && i > 0 && AllFalling(rank, runs) && Sorted(RunRank(rank, runs), ibuf, 0, i)
    ensures Current(runs, ibuf[i - 1]) && NoneAbove(rank, runs, runs[ibuf[i - 1]][0])
  {
    assert Current(runs, ibuf[i - 1]);
    var top := runs[ibuf[i - 1]][0];
    forall m, k | 0 <= m < |runs| && 0 <= k < |runs[m]| ensures rank(runs[m][k]) <= rank(top) {
      assert Listed(ibuf, i, m);
      var p :| 0 <= p < i && ibuf[p] == m;
      assert Falling(rank, runs[m]);
      assert rank(runs[m][k]) <= rank(runs[m][0]);
      assert RunRank(rank, runs)(ibuf[p]) <= RunRank(rank, runs)(ibuf[i - 1]);
    }
  }

  // ---------------------------------------------------------------- the first lines

  /** Runs without a line are left out from the start; `qsort` orders the others. */
  method FirstLines(rank: int -> int, runs: Runs) returns (ibuf: seq<int>)
    ensures Active(runs, ibuf, |ibuf|) && Sorted(RunRank(rank, runs), ibuf, 0, |ibuf|)
  {
    ibuf := [];
    var m := 0;
    while m < |runs|
      invariant 0 <= m <= |runs|
      invariant forall k | 0 <= k < |ibuf| :: Current(runs, ibuf[k]) && ibuf[k] < m
      invariant forall k, l | 0 <= k < l < |ibuf| :: ibuf[k] < ibuf[l]
      invariant forall p | 0 <= p < m && runs[p] != [] :: Listed(ibuf, |ibuf|, p)
    {
      if runs[m] != [] {
        ghost var was := ibuf;
        ibuf := ibuf + [m];
        forall p | 0 <= p < m + 1 && runs[p] != [] ensures Listed(ibuf, |ibuf|, p) {
          if p < m {
            assert Listed(was, |was|, p);
            var k :| 0 <= k < |was| && was[k] == p;
            assert ibuf[k] == p;
          } else {
            assert ibuf[|was|] == p;
          }
        }
      }
      m := m + 1;
    }
    ghost var before := ibuf;
    ghost var depth;
    ibuf, depth := QSort(RunRank(rank, runs), ibuf, 0, |ibuf|);
    ActivePermuted(runs, before, ibuf);
  }

  lemma {:induction false} ActivePermuted(runs: Runs, s: seq<int>, t: seq<int>)
    requires Active(runs, s, |s|) && Rearranged(s, t, 0, |s|)
    ensures Active(runs, t, |t|)
  {
    forall k | 0 <= k < |t| ensures Current(runs, t[k]) {
      assert Within(s, 0, |s|, t[k]);
    }
    Distinct(s);
    DistinctBack(t);
    forall m | 0 <= m < |runs| && runs[m] != [] ensures Listed(t, |t|, m) {
      assert Listed(s, |s|, m);
      assert m in multiset(s);
      assert m in t;
    }
  }

  lemma {:induction false} Distinct(s: seq<int>)
    requires forall k, l | 0 <= k < l < |s| :: s[k] != s[l]
    ensures forall x :: multiset(s)[x] <= 1
  {
    if s != [] {
      var n := |s| - 1;
      Distinct(s[..n]);
      assert s == s[..n] + [s[n]];
      assert s[n] !in s[..n];
    }
  }

  lemma {:induction false} DistinctBack(s: seq<int>)
    requires forall x :: multiset(s)[x] <= 1
    ensures forall k, l | 0 <= k < l < |s| :: s[k] != s[l]
  {
    forall k, l | 0 <= k < l < |s| ensures s[k] != s[l] {
      assert s == s[..l] + [s[l]] + s[l + 1..];
      assert s[..l][k] == s[k];
      assert multiset(s)[s[l]] >= 1 + multiset(s[..l])[s[l]];
    }
  }

  // ---------------------------------------------------------------- keeping the order

  /** The last run has a new line: it moves down until the one before it does not rank above it. */
  method SiftDown(rank: int -> int, runs: Runs, ibuf0: seq<int>, i: nat) returns (ibuf: seq<int>)
    requires Active(runs, ibuf0, i) && i > 0 && Sorted(RunRank(rank, runs), ibuf0, 0, i - 1)
    ensures Active(runs, ibuf, i) && Sorted(RunRank(rank, runs), ibuf, 0, i)
  {
    ibuf := ibuf0;
    var ip := i - 1;
    ghost var r := RunRank(rank, runs);
    while ip > 0 && OutOfOrder(rank, runs, ibuf, ip, i)
      invariant 0 <= ip < i && Active(runs, ibuf, i)
      invariant SortedBut(r, ibuf, ip, i)
    {
      ibuf := Swapped(rank, runs, ibuf, ip, i);
      ip := ip - 1;
    }
    InPlace(r, ibuf, ip, i);
  }

  predicate OutOfOrder(rank: int -> int, runs: Runs, ibuf: seq<int>, ip: nat, ghost i: nat): (b: bool)
    requires Active(runs, ibuf, i) && 0 < ip < i
    ensures b <==> RunRank(rank, runs)(ibuf[ip]) < RunRank(rank, runs)(ibuf[ip - 1])
  {
    assert Current(runs, ibuf[ip]) && Current(runs, ibuf[ip - 1]);
    Compare(rank, runs[ibuf[ip]][0], runs[ibuf[ip - 1]][0]) < 0
  }

  lemma {:induction false} InPlace(r: int -> int, s: seq<int>, ip: nat, i: nat)
    requires SortedBut(r, s, ip, i) && (ip > 0 ==> r(s[ip - 1]) <= r(s[ip]))
    ensures Sorted(r, s, 0, i)
  {
  }

  /** In order when ip is left out, and what is above ip does not rank below it. */
  ghost predicate SortedBut(r: int -> int, s: seq<int>, ip: nat, i: nat) {
    && ip < i <= |s|
    && (forall x, y | 0 <= x < y < i && x != ip && y != ip :: r(s[x]) <= r(s[y]))
    && (forall y | ip < y < i :: r(s[ip]) <= r(s[y]))
  }

  method Swapped(rank: int -> int, runs: Runs, s: seq<int>, ip: nat, i: nat) returns (t: seq<int>)
    requires Active(runs, s, i) && SortedBut(RunRank(rank, runs), s, ip, i) && ip > 0
    requires RunRank(rank, runs)(s[ip]) < RunRank(rank, runs)(s[ip - 1])
    ensures Active(runs, t, i) && SortedBut(RunRank(rank, runs), t, ip - 1, i)
  {
    var q := ip - 1;
    t := Exchange(s, ip, q);
    SwappedActive(runs, s, ip, q, i);
  }

  lemma {:induction false} SwappedActive(runs: Runs, s: seq<int>, ip: nat, q: nat, i: nat)
    requires Active(runs, s, i) && q < ip < i
    ensures Active(runs, Exchange(s, ip, q), i)
  {
    var t := Exchange(s, ip, q);
    forall k | 0 <= k < i ensures Current(runs, t[k]) {
      assert Current(runs, s[if k == ip then q else if k == q then ip else k]);
    }
    forall m | 0 <= m < |runs| && runs[m] != [] ensures Listed(t, i, m) {
      assert Listed(s, i, m);
      var k :| 0 <= k < i && s[k] == m;
      assert t[if k == ip then q else if k == q then ip else k] == m;
    }
  }

  // ---------------------------------------------------------------- merging

  /** One line is read from the run at the end; a run that has no more is dropped. */
  method Refill(rank: int -> int, runs0: Runs, ibuf0: seq<int>, i0: nat) returns (runs: Runs, ibuf: seq<int>, i: nat)
    requires Active(runs0, ibuf0, i0) && i0 > 0 && Sorted(RunRank(rank, runs0), ibuf0, 0, i0)
    ensures var m := ibuf0[i0 - 1]; Current(runs0, m) && runs == runs0[m := runs0[m][1..]]
    ensures Active(runs, ibuf, i) && Sorted(RunRank(rank, runs), ibuf, 0, i)
  {
    i, ibuf := i0, ibuf0;
    var m := ibuf[i - 1];
    assert Current(runs0, m);
    runs := runs0[m := runs0[m][1..]];
    forall k | 0 <= k < i - 1 ensures Current(runs, ibuf[k])
        && RunRank(rank, runs)(ibuf[k]) == RunRank(rank, runs0)(ibuf[k]) {
      assert Current(runs0, ibuf[k]);
    }
    forall p | 0 <= p < |runs| && runs[p] != [] ensures Listed(ibuf, i, p) && (p != m ==> Listed(ibuf, i - 1, p)) {
      assert Listed(ibuf, i, p);
    }
    if runs[m] == [] {
      i := i - 1;
      if i == 0 {
        return;
      }
    }
    assert Sorted(RunRank(rank, runs), ibuf, 0, i - 1);
    ibuf := SiftDown(rank, runs, ibuf, i);
  }

  ghost predicate Merged(rank: int -> int, runs0: Runs, runs: Runs, ibuf: seq<int>, i: nat, out: seq<int>) {
    && AllFalling(rank, runs) && Active(runs, ibuf, i) && Sorted(RunRank(rank, runs), ibuf, 0, i)
    && Falling(rank, out) && multiset(out) + Everything(runs) == Everything(runs0)
    && (out != [] ==> NoneAbove(rank, runs, out[|out| - 1]))
  }

  /** All lines of all runs come out, from the highest rank down. */
  method Merge(rank: int -> int, runs0: Runs) returns (out: seq<int>)
    requires AllFalling(rank, runs0)
    ensures Falling(rank, out) && multiset(out) == Everything(runs0)
  {
    var runs := runs0;
    var ibuf := FirstLines(rank, runs);
    var i: nat := |ibuf|;
    out := [];
    while i > 0
      invariant Merged(rank, runs0, runs, ibuf, i, out)
      decreases |Everything(runs)|
    {
      runs, ibuf, i, out := MergeStep(rank, runs0, runs, ibuf, i, out);
    }
    AllUsed(runs, ibuf);
  }

  lemma {:induction false} AllUsed(runs: Runs, ibuf: seq<int>)
    requires Active(runs, ibuf, 0)
    ensures Everything(runs) == multiset{}
  {
    forall m | 0 <= m < |runs| ensures runs[m] == [] {
      assert !Listed(ibuf, 0, m);
    }
    EverythingEmpty(runs);
  }

  method MergeStep(rank: int -> int, ghost runs0: Runs, runs1: Runs, ibuf1: seq<int>, i1: nat, out1: seq<int>)
    returns (runs: Runs, ibuf: seq<int>, i: nat, out: seq<int>)
    requires Merged(rank, runs0, runs1, ibuf1, i1, out1) && i1 > 0
    ensures Merged(rank, runs0, runs, ibuf, i, out) && |Everything(runs)| < |Everything(runs1)|
  {
    LastIsHighest(rank, runs1, ibuf1, i1);
    var m := ibuf1[i1 - 1];
    EverythingTail(runs1, m);
    FallingTail(rank, runs1, m);
    NoneAboveTail(rank, runs1, m);
    FallingMore(rank, out1, runs1, m);
    out := out1 + [runs1[m][0]];
    runs, ibuf, i := Refill(rank, runs1, ibuf1, i1);
  }

  lemma {:induction false} FallingMore(rank: int -> int, out: seq<int>, runs: Runs, m: nat)
    requires Falling(rank, out) && (out != [] ==> NoneAbove(rank, runs, out[|out| - 1])) && m < |runs| && runs[m] != []
    ensures Falling(rank, out + [runs[m][0]])
  {
    if out != [] {
      assert rank(runs[m][0]) <= rank(out[|out| - 1]);
    }
  }

  lemma {:induction false} NoneAboveTail(rank: int -> int, runs: Runs, m: nat)
    requires m < |runs| && runs[m] != [] && NoneAbove(rank, runs, runs[m][0])
    ensures NoneAbove(rank, runs[m := runs[m][1..]], runs[m][0])
  {
    var after := runs[m := runs[m][1..]];
    forall p, k | 0 <= p < |after| && 0 <= k < |after[p]| ensures rank(after[p][k]) <= rank(runs[m][0]) {
      assert after[p][k] == runs[p][if p == m then k + 1 else k];
    }
  }
}
