/** `check`: compares matched lines byte by byte, breaks the matches that hashing has made up, and collects
    the offsets of all lines. */
module DiffCheck {
  import opened DiffScript

  /** Where line i + 1 of the file starts; line i ends just before. */
  ghost function Offset(lines: seq<Text>, i: nat): nat
    requires i <= |lines|
  {
    if i == 0 then 0 else Offset(lines, i - 1) + |lines[i - 1]| + 1
  }

  /** Byte k of line i in `text`, the newline being the last. */
  ghost predicate ByteAt(text: seq<char>, lines: seq<Text>, i: nat, k: nat)
    requires 1 <= i <= |lines| && k <= |lines[i - 1]|
  {
    var p := Offset(lines, i - 1) + k;
    p < |text| && text[p] == if k < |lines[i - 1]| then lines[i - 1][k] else '\n'
  }

  /** `text` is the bytes of the lines, each ended by a newline. */
  ghost predicate IsText(text: seq<char>, lines: seq<Text>) {
    && |text| == Offset(lines, |lines|)
    && (forall line | line in lines :: '\n' !in line)
    && forall i, k | 1 <= i <= |lines| && 0 <= k <= |lines[i - 1]| :: ByteAt(text, lines, i, k)
  }

  /** At p, with k bytes of line i already read. */
  ghost predicate Within(text: seq<char>, lines: seq<Text>, i: nat, k: nat, p: nat) {
    && IsText(text, lines) && 1 <= i <= |lines| && k <= |lines[i - 1]|
    && p == Offset(lines, i - 1) + k
  }

  /** What `getc` reads there. */
  lemma {:induction false} Getc(text: seq<char>, lines: seq<Text>, i: nat, k: nat, p: nat)
    requires Within(text, lines, i, k, p)
    ensures p < |text|
    ensures k < |lines[i - 1]| ==> text[p] == lines[i - 1][k] != '\n'
    ensures k == |lines[i - 1]| ==> text[p] == '\n' && p + 1 == Offset(lines, i)
  {
    assert ByteAt(text, lines, i, k);
    if k < |lines[i - 1]| {
      assert lines[i - 1] in lines && lines[i - 1][k] in lines[i - 1];
    }
  }

  /** `skipline`, from anywhere in a line. */
  method SkipLine(text: seq<char>, p: nat, ghost lines: seq<Text>, ghost i: nat, ghost k: nat) returns (n: nat)
    requires Within(text, lines, i, k, p)
    ensures p + n == Offset(lines, i)
  {
    ghost var l := k;
    Getc(text, lines, i, l, p);
    n := 1;
    while text[p + n - 1] != '\n'
      invariant n >= 1 && p + n <= |text| && Within(text, lines, i, l, p + n - 1)
      decreases |lines[i - 1]| - l
    {
      Getc(text, lines, i, l, p + n - 1);
      l := l + 1;
      n := n + 1;
      Getc(text, lines, i, l, p + n - 1);
    }
    Getc(text, lines, i, l, p + n - 1);
  }

  /** The inner loop: line i of one file against line j of the other; both positions end up behind their
      line, whether or not the lines agree. */
  method CompareLine(text0: seq<char>, p0: nat, text1: seq<char>, p1: nat,
                     ghost old': seq<Text>, ghost new': seq<Text>, ghost i: nat, ghost j: nat)
    returns (same: bool, q0: nat, q1: nat)
    requires Within(text0, old', i, 0, p0) && Within(text1, new', j, 0, p1)
    ensures same <==> Same(old', new', i, j)
    ensures q0 == Offset(old', i) && q1 == Offset(new', j)
  {
    q0, q1 := p0, p1;
    ghost var k, x, y := 0, old'[i - 1], new'[j - 1];
    while true
      invariant Within(text0, old', i, k, q0) && Within(text1, new', j, k, q1)
      invariant forall l | 0 <= l < k :: x[l] == y[l]
      decreases |x| - k
    {
      Getc(text0, old', i, k, q0);
      Getc(text1, new', j, k, q1);
      var c, d := text0[q0], text1[q1];
      q0, q1 := q0 + 1, q1 + 1;
      if c != d {
        assert x != y by {
          assert k < |x| && k < |y| ==> x[k] != y[k];
        }
        if c != '\n' {
          var n := SkipLine(text0, q0, old', i, k + 1);
          q0 := q0 + n;
        }
        if d != '\n' {
          var n := SkipLine(text1, q1, new', j, k + 1);
          q1 := q1 + n;
        }
        return false, q0, q1;
      }
      if c == '\n' {
        assert x == y;
        return true, q0, q1;
      }
      k := k + 1;
    }
  }

  /** A match survives exactly if its lines agree. */
  ghost function Verified(J: seq<int>, old': seq<Text>, new': seq<Text>, i: nat): int
    requires 1 <= i <= |old'| && |J| > i && 0 <= J[i] <= |new'|
  {
    if J[i] != 0 && Same(old', new', i, J[i]) then J[i] else 0
  }

  /** The match vector in range and increasing, as `unravel` leaves it. */
  ghost predicate Increasing(J: seq<int>, m: nat, n: nat) {
    && |J| == m + 2
    && (forall i | 1 <= i <= m :: 0 <= J[i] <= n)
    && (forall i, j | 1 <= i < j <= m :: InOrder(J, i, j))
  }

  /** ix holds the offsets of the first n lines. */
  ghost predicate Offsets(ix: seq<int>, lines: seq<Text>, n: nat) {
    n < |ix| && n <= |lines| && forall i | 0 <= i <= n :: ix[i] == Offset(lines, i)
  }

  method Check(J0: seq<int>, text0: seq<char>, text1: seq<char>, m: nat, n: nat,
               ghost old': seq<Text>, ghost new': seq<Text>)
    returns (J: seq<int>, ixold: seq<int>, ixnew: seq<int>)
    requires m == |old'| && n == |new'| && IsText(text0, old') && IsText(text1, new')
    requires Increasing(J0, m, n)
    ensures |J| == |J0| && forall i | 1 <= i <= m :: J[i] == Verified(J0, old', new', i)
    ensures Matching(J, old', new')
    ensures Offsets(ixold, old', m) && Offsets(ixnew, new', n)
  {
    J := J0;
    ixold, ixnew := seq(m + 2, _ => 0), seq(n + 2, _ => 0);
    var ctold, ctnew, i, j := 0, 0, 1, 1;
    while i <= m
      invariant 1 <= i <= m + 1 && 1 <= j <= n + 1
      invariant |J| == |J0| && (forall k | i <= k <= m :: J[k] == J0[k])
      invariant forall k | 1 <= k < i :: J[k] == Verified(J0, old', new', k)
      invariant forall k | i <= k <= m && J0[k] != 0 :: j <= J0[k]
      invariant |ixold| == m + 2 && Offsets(ixold, old', i - 1) && ctold == Offset(old', i - 1)
      invariant |ixnew| == n + 2 && Offsets(ixnew, new', j - 1) && ctnew == Offset(new', j - 1)
    {
      if J[i] == 0 {
        var l := SkipLine(text0, ctold, old', i, 0);
        ctold := ctold + l;
        ixold := ixold[i := ctold];
      } else {
        ixnew, ctnew := SkipTo(text1, new', ixnew, j, ctnew, J[i], n);
        j := J[i];
        var same;
        same, ctold, ctnew := CompareLine(text0, ctold, text1, ctnew, old', new', i, j);
        if !same {
          J := J[i := 0];
        }
        ixold := ixold[i := ctold];
        ixnew := ixnew[j := ctnew];
        forall k | i < k <= m && J0[k] != 0 ensures j + 1 <= J0[k] {
          assert InOrder(J0, i, k);
        }
        j := j + 1;
      }
      i := i + 1;
    }
    ixnew, ctnew := SkipTo(text1, new', ixnew, j, ctnew, n + 1, n);
    forall k, l | 1 <= k < l <= m ensures InOrder(J, k, l) {
      assert InOrder(J0, k, l);
    }
  }

  /** Lines j up to but not including j' of file 1, which are matched with nothing. */
  method SkipTo(text1: seq<char>, ghost new': seq<Text>, ix0: seq<int>, j: nat, ct0: nat, j': nat, n: nat)
    returns (ix: seq<int>, ct: nat)
    requires n == |new'| && IsText(text1, new') && 1 <= j <= j' <= n + 1
    requires |ix0| == n + 2 && Offsets(ix0, new', j - 1) && ct0 == Offset(new', j - 1)
    ensures |ix| == n + 2 && Offsets(ix, new', j' - 1) && ct == Offset(new', j' - 1)
  {
    ix, ct := ix0, ct0;
    for l := j to j'
      invariant |ix| == n + 2 && Offsets(ix, new', l - 1) && ct == Offset(new', l - 1)
    {
      var k := SkipLine(text1, ct, new', l, 0);
      ct := ct + k;
      ix := ix[l := ct];
    }
  }
}
