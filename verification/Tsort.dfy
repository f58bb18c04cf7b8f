/** The ordering loop of tsort (tsort.c). Nodes are numbered in the order in which they were first read; each has the
    list of its direct predecessors. */
module Tsort {

  datatype Mark = DEAD | LIVE | ONCE | TWICE

  type Graph = seq<seq<nat>>

  ghost predicate Closed(g: Graph) {
    forall j, k | 0 <= j < |g| && 0 <= k < |g[j]| :: g[j][k] < |g|
  }

  ghost predicate Edge(g: Graph, p: nat, j: nat) {
    j < |g| && p in g[j]
  }

  /** A walk from each node to a predecessor of it that comes back to i, over none of the nodes in dead. */
  ghost predicate Loop(g: Graph, dead: set<nat>, i: nat, c: seq<nat>) {
    && |c| >= 2 && c[0] == i && c[|c| - 1] == i
    && (forall k | 0 <= k < |c| :: c[k] < |g| && c[k] !in dead)
    && (forall k, l | 0 <= k && l == k + 1 && l < |c| :: Edge(g, c[l], c[k]))
  }

  ghost predicate OnLoop(g: Graph, dead: set<nat>, i: nat) {
    exists c :: Loop(g, dead, i, c)
  }

  ghost predicate Cyclic(g: Graph) {
    exists i :: OnLoop(g, {}, i)
  }

  /** Not printed, and all its predecessors are. */
  ghost predicate Ready(g: Graph, dead: set<nat>, i: nat) {
    i < |g| && i !in dead && forall p | Edge(g, p, i) :: p in dead
  }

  /** What may be printed next: the first node that is ready, or when none is, one on a cycle of what is left. */
  ghost predicate Choice(g: Graph, dead: set<nat>, i: nat) {
    || (Ready(g, dead, i) && forall j | 0 <= j < i :: !Ready(g, dead, j))
    || (OnLoop(g, dead, i) && forall j | 0 <= j < |g| :: !Ready(g, dead, j))
  }

  ghost function Printed(out: seq<nat>): set<nat> {
    set x | x in out
  }

  /** Each node printed was a right choice at its time. */
  ghost predicate Chosen(g: Graph, out: seq<nat>) {
    forall k | 0 <= k < |out| :: out[k] < |g| && out[k] !in out[..k] && Choice(g, Printed(out[..k]), out[k])
  }

  ghost predicate Marked(g: Graph, live: seq<Mark>, dead: set<nat>) {
    |live| == |g| && forall i | 0 <= i < |g| :: live[i] == if i in dead then DEAD else LIVE
  }

  // ---------------------------------------------------------------- sweeping

  /** `anypred` */
  method AnyPred(g: Graph, live: seq<Mark>, ghost dead: set<nat>, i: nat) returns (any: bool)
    requires Closed(g) && Marked(g, live, dead) && i < |g| && i !in dead
    ensures any <==> !Ready(g, dead, i)
  {
    var t := 0;
    while t < |g[i]|
      invariant 0 <= t <= |g[i]| && forall k | 0 <= k < t :: g[i][k] in dead
    {
      if live[g[i][t]] == LIVE {
        assert Edge(g, g[i][t], i);
        return true;
      }
      t := t + 1;
    }
    return false;
  }

  /** One sweep: x tells if anything is left; i is the first ready node or the end of the list. */
  method Sweep(g: Graph, live: seq<Mark>, ghost dead: set<nat>) returns (x: bool, i: nat)
    requires Closed(g) && Marked(g, live, dead)
    ensures x <==> exists j :: 0 <= j < |g| && live[j] == LIVE
    ensures i <= |g| && (i < |g| ==> Ready(g, dead, i)) && forall j | 0 <= j < i :: !Ready(g, dead, j)
  {
    x, i := false, 0;
    while i < |g|
      invariant i <= |g| && (x <==> exists j :: 0 <= j < i && live[j] == LIVE)
      invariant forall j | 0 <= j < i :: !Ready(g, dead, j)
    {
      if live[i] == LIVE {
        x := true;
        var any := AnyPred(g, live, dead, i);
        if !any {
          return;
        }
      }
      i := i + 1;
    }
  }

  // ---------------------------------------------------------------- findloop

  /** The first predecessor that is not dead. */
  ghost function Follow(ps: seq<nat>, dead: set<nat>, k: nat): nat
    requires k <= |ps|
    decreases |ps| - k
  {
    if k == |ps| then 0 else if ps[k] in dead then Follow(ps, dead, k + 1) else ps[k]
  }

  ghost predicate Stuck(g: Graph, dead: set<nat>) {
    forall i | 0 <= i < |g| :: !Ready(g, dead, i)
  }

  lemma {:induction false} FollowIsPred(g: Graph, dead: set<nat>, i: nat, k: nat)
    requires Closed(g) && i < |g| && k <= |g[i]| && exists m :: k <= m < |g[i]| && g[i][m] !in dead
    ensures var p := Follow(g[i], dead, k); p < |g| && p !in dead && Edge(g, p, i)
    decreases |g[i]| - k
  {
    if g[i][k] in dead {
      FollowIsPred(g, dead, i, k + 1);
    }
  }

  lemma {:induction false} FollowStuck(g: Graph, dead: set<nat>, i: nat)
    requires Closed(g) && Stuck(g, dead) && i < |g| && i !in dead
    ensures var p := Follow(g[i], dead, 0); p < |g| && p !in dead && Edge(g, p, i)
  {
    assert !Ready(g, dead, i);
    var p :| Edge(g, p, i) && p !in dead;
    var m :| 0 <= m < |g[i]| && g[i][m] == p;
    FollowIsPred(g, dead, i, 0);
  }

  ghost predicate SameDead(g: Graph, live: seq<Mark>, dead: set<nat>) {
    |live| == |g| && forall i | 0 <= i < |g| :: live[i] == DEAD <==> i in dead
  }

  /** The inner `for`; the message for running off the list is never given. */
  method Step(g: Graph, live: seq<Mark>, ghost dead: set<nat>, i: nat) returns (p: nat)
    requires Closed(g) && Stuck(g, dead) && SameDead(g, live, dead) && i < |g| && i !in dead
    ensures p == Follow(g[i], dead, 0) && p < |g| && p !in dead && Edge(g, p, i)
  {
    FollowStuck(g, dead, i);
    var k := 0;
    while live[g[i][k]] == DEAD
      invariant 0 <= k < |g[i]| && Follow(g[i], dead, k) == Follow(g[i], dead, 0)
      invariant exists m :: k <= m < |g[i]| && g[i][m] !in dead
      decreases |g[i]| - k
    {
      k := k + 1;
    }
    p := g[i][k];
  }

  /** Nodes each followed by its first predecessor that is left. */
  ghost predicate Trail(g: Graph, dead: set<nat>, path: seq<nat>) {
    && (forall k | 0 <= k < |path| :: path[k] < |g| && path[k] !in dead)
    && (forall k, l | 0 <= k < l < |path| :: path[k] != path[l])
    && (forall k, l | 0 <= k && l == k + 1 && l < |path| :: path[l] == Follow(g[path[k]], dead, 0)
                                                            && Edge(g, path[l], path[k]))
  }

  /** From the node at m on the trail closes. */
  lemma {:induction false} TrailLoops(g: Graph, dead: set<nat>, path: seq<nat>, m: nat)
    requires Trail(g, dead, path) && m < |path| && Edge(g, path[m], path[|path| - 1])
    ensures OnLoop(g, dead, path[m])
  {
    var c := path[m..] + [path[m]];
    forall k, l | 0 <= k && l == k + 1 && l < |c| ensures Edge(g, c[l], c[k]) {
      var k', l' := m + k, m + l;
      assert c[k] == path[k'];
      if l' < |path| {
        assert c[l] == path[l'];
      }
    }
    assert Loop(g, dead, path[m], c);
  }

  ghost predicate MarkedTrail(g: Graph, live: seq<Mark>, dead: set<nat>, path: seq<nat>, m: nat, t: nat) {
    && |live| == |g| && m <= t <= |path|
    && (forall i | 0 <= i < |g| :: live[i] == DEAD <==> i in dead)
    && (forall i | 0 <= i < |g| :: live[i] == LIVE <==> i !in dead && i !in path)
    && (forall k | 0 <= k < |path| :: path[k] < |g| && live[path[k]] == if m <= k < t then TWICE else ONCE)
  }

  /** The walk that marks nodes once, up to a node met before. */
  method MarkOnce(g: Graph, live0: seq<Mark>, ghost dead: set<nat>, i0: nat)
    returns (live: seq<Mark>, i: nat, ghost path: seq<nat>, ghost m: nat)
    requires Closed(g) && Stuck(g, dead) && Marked(g, live0, dead) && i0 < |g| && i0 !in dead
    ensures Trail(g, dead, path) && m < |path| && path[m] == i && Follow(g[path[|path| - 1]], dead, 0) == i
    ensures MarkedTrail(g, live, dead, path, m, m) && OnLoop(g, dead, i)
  {
    live, i, path := live0, i0, [];
    while live[i] == LIVE
      invariant i < |g| && i !in dead && Trail(g, dead, path) && MarkedTrail(g, live, dead, path, 0, 0)
      invariant path != [] ==> i == Follow(g[path[|path| - 1]], dead, 0) && Edge(g, i, path[|path| - 1])
      invariant path == [] ==> live[i] == LIVE
      decreases |Unmarked(g, path)|
    {
      ghost var was := path;
      path := path + [i];
      TrailMore(g, live, dead, was, i);
      live := live[i := ONCE];
      UnmarkedLess(g, was, i);
      i := Step(g, live, dead, i);
    }
    m :| 0 <= m < |path| && path[m] == i;
    TrailLoops(g, dead, path, m);
  }

  lemma {:induction false} TrailMore(g: Graph, live: seq<Mark>, dead: set<nat>, path: seq<nat>, i: nat)
    requires Trail(g, dead, path) && MarkedTrail(g, live, dead, path, 0, 0) && i < |g| && live[i] == LIVE
    requires path != [] ==> i == Follow(g[path[|path| - 1]], dead, 0) && Edge(g, i, path[|path| - 1])
    ensures Trail(g, dead, path + [i]) && MarkedTrail(g, live[i := ONCE], dead, path + [i], 0, 0)
  {
    var more, marks := path + [i], live[i := ONCE];
    forall k, l | 0 <= k && l == k + 1 && l < |more| ensures more[l] == Follow(g[more[k]], dead, 0)
        && Edge(g, more[l], more[k]) {
      if l < |path| {
        assert more[k] == path[k] && more[l] == path[l];
      }
    }
    MarkedMore(g, live, dead, path, i);
  }

  lemma {:induction false} MarkedMore(g: Graph, live: seq<Mark>, dead: set<nat>, path: seq<nat>, i: nat)
    requires MarkedTrail(g, live, dead, path, 0, 0) && i < |g| && live[i] == LIVE
    ensures MarkedTrail(g, live[i := ONCE], dead, path + [i], 0, 0)
  {
  }

  ghost function Unmarked(g: Graph, path: seq<nat>): set<nat> {
    set i: nat | i < |g| && i !in path
  }

  lemma {:induction false} UnmarkedLess(g: Graph, path: seq<nat>, i: nat)
    requires i < |g| && i !in path
    ensures |Unmarked(g, path + [i])| < |Unmarked(g, path)|
  {
    assert Unmarked(g, path) == Unmarked(g, path + [i]) + {i};
  }

  /** The walk that marks the cycle's nodes twice comes back to where it began. */
  method MarkTwice(g: Graph, live0: seq<Mark>, ghost dead: set<nat>, i0: nat, ghost path: seq<nat>, ghost m: nat)
    returns (live: seq<Mark>, i: nat)
    requires Closed(g) && Stuck(g, dead) && Trail(g, dead, path) && m < |path| && path[m] == i0
    requires Follow(g[path[|path| - 1]], dead, 0) == i0 && MarkedTrail(g, live0, dead, path, m, m)
    ensures SameDead(g, live, dead) && i == i0
  {
    live, i := live0, i0;
    ghost var t: nat := m;
    while live[i] == ONCE
      invariant m <= t <= |path| && MarkedTrail(g, live, dead, path, m, t)
      invariant i == if t < |path| then path[t] else path[m]
      invariant t == m ==> t < |path|
      decreases |path| - t
    {
      assert t < |path|;
      live := live[i := TWICE];
      i := Step(g, live, dead, i);
      t := t + 1;
    }
  }

  /** A node on a cycle of the nodes that are left. */
  method FindLoop(g: Graph, live0: seq<Mark>, ghost dead: set<nat>) returns (live: seq<Mark>, i: nat)
    requires Closed(g) && Stuck(g, dead) && Marked(g, live0, dead) && exists j :: 0 <= j < |g| && live0[j] == LIVE
    ensures Marked(g, live, dead) && i < |g| && i !in dead && OnLoop(g, dead, i)
  {
    i := FirstLive(live0);
    ghost var path, m;
    live, i, path, m := MarkOnce(g, live0, dead, i);
    live, i := MarkTwice(g, live, dead, i, path, m);
    live := Unmark(g, live, dead);
  }

  method FirstLive(live: seq<Mark>) returns (i: nat)
    requires exists j :: 0 <= j < |live| && live[j] == LIVE
    ensures i < |live| && live[i] == LIVE
  {
    i := 0;
    while live[i] != LIVE
      invariant i < |live| && exists j :: i <= j < |live| && live[j] == LIVE
      decreases |live| - i
    {
      i := i + 1;
    }
  }

  /** All that is not dead is live again. */
  method Unmark(g: Graph, live0: seq<Mark>, ghost dead: set<nat>) returns (live: seq<Mark>)
    requires SameDead(g, live0, dead)
    ensures Marked(g, live, dead)
  {
    live := live0;
    var j: nat := 0;
    while j < |g|
      invariant j <= |g| && SameDead(g, live, dead)
      invariant forall k | 0 <= k < j :: live[k] == DEAD || live[k] == LIVE
    {
      if live[j] != DEAD {
        live := live[j := LIVE];
      }
      j := j + 1;
    }
  }

  // ---------------------------------------------------------------- the ordering

  /** Every node is printed once, each a right choice; a cycle is reported exactly when there is one, and without one
      every edge is respected. */
  method Order(g: Graph) returns (out: seq<nat>, noted: bool)
    requires Closed(g)
    ensures Chosen(g, out) && (forall i: nat | i < |g| :: i in out)
    ensures noted <==> Cyclic(g)
    ensures !Cyclic(g) ==> Respects(g, out)
  {
    var live := seq(|g|, _ => LIVE);
    out, noted := [], false;
    var more := true;
    while more
      invariant Ordered(g, live, out, noted)
      invariant !more ==> forall i: nat | i < |g| :: i in out
      decreases more, |Unmarked(g, out)|
    {
      live, out, noted, more := OrderStep(g, live, out, noted);
    }
    if !noted {
      NoCycle(g, out);
    }
  }

  /** What holds after every sweep. */
  ghost predicate Ordered(g: Graph, live: seq<Mark>, out: seq<nat>, noted: bool) {
    Chosen(g, out) && Marked(g, live, Printed(out)) && (if noted then Cyclic(g) else Respects(g, out))
  }

  method OrderStep(g: Graph, live0: seq<Mark>, out0: seq<nat>, noted0: bool)
    returns (live: seq<Mark>, out: seq<nat>, noted: bool, more: bool)
    requires Closed(g) && Ordered(g, live0, out0, noted0)
    ensures Ordered(g, live, out, noted)
    ensures if more then |Unmarked(g, out)| < |Unmarked(g, out0)| else out == out0
                                                                       && forall i: nat | i < |g| :: i in out
  {
    live, out, noted := live0, out0, noted0;
    ghost var dead := Printed(out0);
    var i: nat;
    more, i := Sweep(g, live, dead);
    if !more {
      forall i: nat | i < |g| ensures i in out {
        assert live[i] != LIVE;
      }
      return;
    }
    if i == |g| {
      live, i := FindLoop(g, live, dead);
      LoopIsCycle(g, dead, i);
      noted := true;
    }
    PrintedMore(g, out0, i);
    UnmarkedLess(g, out0, i);
    if !noted {
      RespectsMore(g, out0, i);
    }
    out := out + [i];
    live := live[i := DEAD];
  }

  /** Everything printed stands after all its predecessors. */
  ghost predicate Respects(g: Graph, out: seq<nat>) {
    forall k, p | 0 <= k < |out| && Edge(g, p, out[k]) :: p in out[..k]
  }

  lemma {:induction false} LoopIsCycle(g: Graph, dead: set<nat>, i: nat)
    requires OnLoop(g, dead, i)
    ensures Cyclic(g)
  {
    var c :| Loop(g, dead, i, c);
    assert Loop(g, {}, i, c);
    assert OnLoop(g, {}, i);
  }

  lemma {:induction false} PrintedMore(g: Graph, out: seq<nat>, i: nat)
    requires Chosen(g, out) && i < |g| && i !in out && Choice(g, Printed(out), i)
    ensures Chosen(g, out + [i]) && Printed(out + [i]) == Printed(out) + {i}
  {
    var more := out + [i];
    forall k | 0 <= k < |more|
      ensures more[k] < |g| && more[k] !in more[..k] && Choice(g, Printed(more[..k]), more[k])
    {
      if k < |out| {
        assert more[..k] == out[..k];
      } else {
        assert more[..k] == out;
      }
    }
  }

  lemma {:induction false} RespectsMore(g: Graph, out: seq<nat>, i: nat)
    requires Respects(g, out) && Ready(g, Printed(out), i)
    ensures Respects(g, out + [i])
  {
    var more := out + [i];
    forall k, p | 0 <= k < |more| && Edge(g, p, more[k]) ensures p in more[..k] {
      if k < |out| {
        assert more[..k] == out[..k];
      } else {
        assert more[..k] == out;
      }
    }
  }

  /** An order that respects every edge leaves no room for a cycle. */
  lemma {:induction false} NoCycle(g: Graph, out: seq<nat>)
    requires Chosen(g, out) && Respects(g, out) && forall i: nat | i < |g| :: i in out
    ensures !Cyclic(g)
  {
    if Cyclic(g) {
      var i :| OnLoop(g, {}, i);
      var c :| Loop(g, {}, i, c);
      assert c[0] in out;
      var n :| 0 <= n < |out| && out[n] == c[0];
      Descend(g, out, c, i, n, |c| - 1);
    }
  }

  /** Each step of the walk goes to a node printed earlier. */
  lemma {:induction false} Descend(g: Graph, out: seq<nat>, c: seq<nat>, i: nat, n: nat, k: nat)
    requires Respects(g, out) && Loop(g, {}, i, c) && n < |out| && out[n] == i && k < |c|
    ensures k <= n && c[k] in out[..n + 1 - k]
  {
    if k == 0 {
      assert out[..n + 1][n] == i;
    } else {
      var l: nat := k - 1;
      Descend(g, out, c, i, n, l);
      var q :| 0 <= q < n + 1 - l && out[q] == c[l];
      assert Edge(g, c[k], c[l]);
      assert c[k] in out[..q];
    }
  }
}
