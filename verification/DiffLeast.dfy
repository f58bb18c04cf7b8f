/** No script that makes one file from another takes out and brings in fewer lines than a longest common subsequence of
    the two leaves over. */
module DiffLeast {
  import opened Wrappers
  import opened Lcs
  import opened DiffScript

  /** Two sequences have so many elements in common, in order. */
  ghost predicate Share(x: seq<Text>, y: seq<Text>, n: int) {
    exists ps :: Common(x, y, ps) && |ps| >= n
  }

  lemma {:induction false} Shares(x: seq<Text>, y: seq<Text>, ps: seq<Match>, n: int)
    requires Common(x, y, ps) && |ps| >= n
    ensures Share(x, y, n)
  {
  }

  lemma {:induction false} ShareSelf(x: seq<Text>, y: seq<Text>, n: int, z: seq<Text>)
    requires Share(x, y, n)
    ensures Share(x + z, y + z, n + |z|)
    decreases |z|
  {
    var ps :| Common(x, y, ps) && |ps| >= n;
    if z == [] {
      assert x + z == x && y + z == y;
    } else {
      var c, rest := [z[0]], z[1..];
      var more := ps + [Match(|x| + 1, |y| + 1)];
      assert Common(x + c, y + c, more);
      Shares(x + c, y + c, more, n + 1);
      ShareSelf(x + c, y + c, n + 1, rest);
      assert c + rest == z;
      assert x + c + rest == x + z && y + c + rest == y + z;
    }
  }

  lemma {:induction false} ShareLonger(x: seq<Text>, y: seq<Text>, n: int, w: seq<Text>, z: seq<Text>)
    requires Share(x, y, n)
    ensures Share(x + w, y + z, n)
  {
    var ps :| Common(x, y, ps) && |ps| >= n;
    assert Common(x + w, y + z, ps);
  }

  // ---------------------------------------------------------------- ascending scripts

  /** What an ascending script has made of the lines up to its last hunk shares with them what it has not taken out. */
  lemma {:induction false} ProducedShares(old': seq<Text>, new': seq<Text>, s: Script)
    requires Produced(old', new', s).Some? && s.EndOld() <= |old'|
    ensures var out := Produced(old', new', s).value;
            && Share(Lines(old', 1, s.EndOld()), out, s.EndOld() - s.Removed())
            && |out| == s.EndOld() - s.Removed() + s.Added()
  {
    match s
    case Nothing =>
      Shares([], [], [], 0);
    case Then(before, h) =>
      var e, out := before.EndOld(), Produced(old', new', before).value;
      ProducedShares(old', new', before);
      var n, z := e - before.Removed(), Lines(new', h.c, h.d);
      HunkShares(old', e, out, n, h.a, h.b, z);
      assert h.b - s.Removed() == n + (h.a - 1 - e);
      assert Produced(old', new', s) == Some(out + Lines(old', e + 1, h.a - 1) + z);
  }

  lemma {:induction false} HunkShares(old': seq<Text>, e: nat, out: seq<Text>, n: int, a: nat, b: nat, z: seq<Text>)
    requires e < a <= b + 1 <= |old'| + 1 && Share(Lines(old', 1, e), out, n)
    ensures Share(Lines(old', 1, b), out + Lines(old', e + 1, a - 1) + z, n + (a - 1 - e))
  {
    var m: nat := a - 1;
    LinesJoin(old', 1, e, m);
    LinesJoin(old', 1, m, b);
    var k: nat := m - e;
    var kept := Lines(old', e + 1, m);
    KeptShares(Lines(old', 1, e), kept, Lines(old', 1, m), Lines(old', m + 1, b), Lines(old', 1, b), out, z, n, k);
  }

  lemma {:induction false} KeptShares(first: seq<Text>, kept: seq<Text>, upTo: seq<Text>, x: seq<Text>, all: seq<Text>,
                                      out: seq<Text>, z: seq<Text>, n: int, k: nat)
    requires Share(first, out, n) && |kept| == k && first + kept == upTo && upTo + x == all
    ensures Share(all, out + kept + z, n + k)
  {
    ShareSelf(first, out, n, kept);
    ShareLonger(upTo, out + kept, n + k, x, z);
  }

  lemma {:induction false} PatchShares(old': seq<Text>, new': seq<Text>, s: Script)
    requires Patch(old', new', s) == Some(new')
    ensures Share(old', new', |old'| - s.Removed()) && |new'| == |old'| - s.Removed() + s.Added()
  {
    ProducedShares(old', new', s);
    var e, out, m := s.EndOld(), Produced(old', new', s).value, |old'|;
    HunkShares(old', e, out, e - s.Removed(), m + 1, m, []);
    LinesAll(old');
    assert out + Lines(old', e + 1, m) + [] == new';
  }

  // ---------------------------------------------------------------- editor scripts

  /** The elements matched are there and are the same. */
  ghost predicate Pairs(x: seq<Text>, y: seq<Text>, m: Match) {
    1 <= m.x <= |x| && 1 <= m.y <= |y| && x[m.x - 1] == y[m.y - 1]
  }

  ghost predicate Beyond(ps: seq<Match>, m: Match) {
    ps != [] ==> ps[|ps| - 1].x < m.x && ps[|ps| - 1].y < m.y
  }

  lemma {:induction false} OneLess(x: seq<Text>, y: seq<Text>, ps: seq<Match>)
    requires Common(x, y, ps) && ps != []
    ensures Common(x, y, ps[..|ps| - 1]) && Pairs(x, y, ps[|ps| - 1]) && Beyond(ps[..|ps| - 1], ps[|ps| - 1])
  {
  }

  lemma {:induction false} OneMore(x: seq<Text>, y: seq<Text>, ps: seq<Match>, m: Match)
    requires Common(x, y, ps) && Pairs(x, y, m) && Beyond(ps, m)
    ensures Common(x, y, ps + [m])
  {
  }

  /** Where position y is when the q elements put in place of those from lo + 1 to hi have taken their places; lo for
      one of those replaced. */
  function Place(y: nat, lo: nat, hi: nat, q: nat): nat
    requires lo <= hi
  {
    if y <= lo then y else if y <= hi then lo else y - hi + lo + q
  }

  ghost predicate SameAt(y: seq<Text>, k: nat, y': seq<Text>, l: nat) {
    1 <= k <= |y| && 1 <= l <= |y'| && y[k - 1] == y'[l - 1]
  }

  /** An element outside of the stretch replaced is found at its new place. */
  ghost predicate Replaced(y: seq<Text>, y': seq<Text>, lo: nat, hi: nat, q: nat)
    requires lo <= hi
  {
    forall k: nat | 1 <= k <= |y| && !(lo < k <= hi) :: SameAt(y, k, y', Place(k, lo, hi, q))
  }

  lemma {:induction false} Replace(p: seq<Text>, c: seq<Text>, q: seq<Text>, r: seq<Text>)
    ensures Replaced(p + c + r, p + q + r, |p|, |p| + |c|, |q|)
  {
  }

  /** So many positions of the stretch from lo + 1 to hi lie up to position y. */
  function Within(y: nat, lo: nat, hi: nat): nat
    requires lo <= hi
  {
    if y <= lo then 0 else if y <= hi then y - lo else hi - lo
  }

  /** No more of the last matches than their positions allow are lost when a stretch is replaced. */
  ghost predicate Carried(ps: seq<Match>, more: seq<Match>, lo: nat, hi: nat, q: nat)
    requires lo <= hi
  {
    if ps == [] then more == []
    else
      var m := ps[|ps| - 1];
      && |ps| <= |more| + Within(m.y, lo, hi)
      && (more != [] ==> more[|more| - 1].x <= m.x && more[|more| - 1].y <= Place(m.y, lo, hi, q))
  }

  lemma {:induction false} CarryOne(front: seq<Match>, some: seq<Match>, m: Match, lo: nat, hi: nat, q: nat)
    requires lo <= hi && Carried(front, some, lo, hi, q) && Beyond(front, m) && m.y > 0
    ensures lo < m.y <= hi ==> Carried(front + [m], some, lo, hi, q)
    ensures !(lo < m.y <= hi) ==>
              var m' := Match(m.x, Place(m.y, lo, hi, q));
              Beyond(some, m') && Carried(front + [m], some + [m'], lo, hi, q)
  {
  }

  lemma {:induction false} PairMoves(x: seq<Text>, y: seq<Text>, y': seq<Text>, lo: nat, hi: nat, q: nat, m: Match)
    requires lo <= hi && Replaced(y, y', lo, hi, q) && Pairs(x, y, m) && !(lo < m.y <= hi)
    ensures Pairs(x, y', Match(m.x, Place(m.y, lo, hi, q)))
  {
    assert SameAt(y, m.y, y', Place(m.y, lo, hi, q));
  }

  lemma {:induction false} CarryStep(x: seq<Text>, y: seq<Text>, y': seq<Text>, lo: nat, hi: nat, q: nat,
                                     front: seq<Match>, some: seq<Match>, m: Match)
    returns (more: seq<Match>)
    requires lo <= hi && Replaced(y, y', lo, hi, q) && Pairs(x, y, m) && Beyond(front, m)
    requires Common(x, y', some) && Carried(front, some, lo, hi, q)
    ensures Common(x, y', more) && Carried(front + [m], more, lo, hi, q)
  {
    CarryOne(front, some, m, lo, hi, q);
    if lo < m.y <= hi {
      more := some;
    } else {
      var m' := Match(m.x, Place(m.y, lo, hi, q));
      PairMoves(x, y, y', lo, hi, q, m);
      OneMore(x, y', some, m');
      more := some + [m'];
    }
  }

  lemma {:induction false} Carry(x: seq<Text>, y: seq<Text>, y': seq<Text>, lo: nat, hi: nat, q: nat, ps: seq<Match>)
    returns (more: seq<Match>)
    requires lo <= hi && Replaced(y, y', lo, hi, q) && Common(x, y, ps)
    ensures Common(x, y', more) && Carried(ps, more, lo, hi, q)
    decreases |ps|
  {
    if ps == [] {
      more := [];
    } else {
      var front, m := ps[..|ps| - 1], ps[|ps| - 1];
      OneLess(x, y, ps);
      var some := Carry(x, y, y', lo, hi, q, front);
      more := CarryStep(x, y, y', lo, hi, q, front, some, m);
      assert front + [m] == ps;
    }
  }

  /** Elements taken out of the second sequence and others put in their place. */
  lemma {:induction false} ShareSpliced(x: seq<Text>, p: seq<Text>, c: seq<Text>, q: seq<Text>, r: seq<Text>, n: int)
    requires Share(x, p + c + r, n)
    ensures Share(x, p + q + r, n - |c|)
  {
    var ps :| Common(x, p + c + r, ps) && |ps| >= n;
    Replace(p, c, q, r);
    var more := Carry(x, p + c + r, p + q + r, |p|, |p| + |c|, |q|, ps);
    Shares(x, p + q + r, more, n - |c|);
  }

  lemma {:induction false} EditShares(old': seq<Text>, new': seq<Text>, s: Script)
    requires Edit(old', new', s).Some?
    ensures var buf := Edit(old', new', s).value;
            Share(old', buf, |old'| - s.Removed()) && |buf| == |old'| - s.Removed() + s.Added()
  {
    match s
    case Nothing =>
      Shares([], [], [], 0);
      ShareSelf([], [], 0, old');
      assert [] + old' == old';
    case Then(before, h) =>
      EditShares(old', new', before);
      CommandShares(old', Edit(old', new', before).value, |old'| - before.Removed(), h.a, h.b, Lines(new', h.c, h.d));
  }

  lemma {:induction false} CommandShares(old': seq<Text>, buf: seq<Text>, n: int, a: nat, b: nat, q: seq<Text>)
    requires 1 <= a <= b + 1 <= |buf| + 1 && Share(old', buf, n)
    ensures Share(old', Lines(buf, 1, a - 1) + q + Lines(buf, b + 1, |buf|), n - (b + 1 - a))
  {
    var p, c, r := Lines(buf, 1, a - 1), Lines(buf, a, b), Lines(buf, b + 1, |buf|);
    LinesJoin(buf, 1, a - 1, b);
    LinesJoin(buf, 1, b, |buf|);
    LinesAll(buf);
    ShareSpliced(old', p, c, q, r, n);
  }

  /** The script takes file 0 to file 1, as a patch or in the editor. */
  ghost predicate Makes(old': seq<Text>, new': seq<Text>, s: Script) {
    Patch(old', new', s) == Some(new') || Edit(old', new', s) == Some(new')
  }

  /** The least that any script takes out and brings in. */
  lemma {:induction false} NoCheaper(old': seq<Text>, new': seq<Text>, s: Script)
    requires Makes(old', new', s)
    ensures s.Removed() + s.Added() >= |old'| + |new'| - 2 * Len(old', new', |old'|, |new'|)
  {
    if Patch(old', new', s) == Some(new') {
      PatchShares(old', new', s);
    } else {
      EditShares(old', new', s);
    }
    var ps :| Common(old', new', ps) && |ps| >= |old'| - s.Removed();
    Bounds(old', new', |old'|, |new'|, ps);
  }
}
