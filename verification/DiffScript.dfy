/** `output` and `change`: from the match vector J to an edit script, forwards and backwards. */
module DiffScript {
  import opened Wrappers

  /** One line of a file, without its newline. */
  type Text = string

  /** Lines a..b of file 0 give way to lines c..d of file 1; a == b + 1 or c == d + 1 for none. */
  datatype Hunk = Hunk(a: nat, b: nat, c: nat, d: nat) {
    predicate Fits(m: nat, n: nat) {
      1 <= a <= b + 1 <= m + 1 && 1 <= c <= d + 1 <= n + 1
    }
  }

  /** The hunks in the order in which they are printed. */
  datatype Script = Nothing | Then(before: Script, hunk: Hunk) {

    /** Lines taken out of file 0. */
    function Removed(): int {
      match this
      case Nothing => 0
      case Then(s, h) => s.Removed() + h.b - h.a + 1
    }

    /** Lines brought in from file 1. */
    function Added(): int {
      match this
      case Nothing => 0
      case Then(s, h) => s.Added() + h.d - h.c + 1
    }

    /** The last line of either file that an ascending script has dealt with. */
    function EndOld(): nat {
      if Nothing? then 0 else hunk.b
    }

    function EndNew(): nat {
      if Nothing? then 0 else hunk.d
    }

    /** The first line of either file that a descending script has dealt with. */
    function StartOld(m: nat): nat {
      if Nothing? then m + 1 else hunk.a
    }

    function StartNew(n: nat): nat {
      if Nothing? then n + 1 else hunk.c
    }
  }

  // ---------------------------------------------------------------- what scripts mean

  /** Lines a..b of a file, numbered from 1. */
  function Lines(s: seq<Text>, a: nat, b: nat): (r: seq<Text>)
    requires 1 <= a <= b + 1 <= |s| + 1
    ensures |r| == b + 1 - a
  {
    if b < a then [] else Lines(s, a, b - 1) + [s[b - 1]]
  }

  /** The result of a pass over file 0 that applies hunks in ascending order; None when a hunk does not
      fit or overlaps the one before it. */
  function Produced(old': seq<Text>, new': seq<Text>, s: Script): Option<seq<Text>> {
    match s
    case Nothing => Some([])
    case Then(before, h) =>
      var out := Produced(old', new', before);
      if out.None? || !h.Fits(|old'|, |new'|) || before.EndOld() >= h.a then None
      else Some(out.value + Lines(old', before.EndOld() + 1, h.a - 1) + Lines(new', h.c, h.d))
  }

  /** `patch`: an ascending script applied to file 0. */
  function Patch(old': seq<Text>, new': seq<Text>, s: Script): Option<seq<Text>> {
    var out := Produced(old', new', s);
    if out.None? || s.EndOld() > |old'| then None
    else Some(out.value + Lines(old', s.EndOld() + 1, |old'|))
  }

  /** The editor's buffer after executing the hunks one by one as commands; None when a command addresses
      lines that are not there. */
  function Edit(old': seq<Text>, new': seq<Text>, s: Script): Option<seq<Text>> {
    match s
    case Nothing => Some(old')
    case Then(before, h) =>
      var buf := Edit(old', new', before);
      if buf.None? || !h.Fits(|buf.value|, |new'|) then None
      else Some(Lines(buf.value, 1, h.a - 1) + Lines(new', h.c, h.d) + Lines(buf.value, h.b + 1, |buf.value|))
  }

  // ---------------------------------------------------------------- scripts that cover the differences

  ghost predicate Same(old': seq<Text>, new': seq<Text>, i: int, j: int)
    requires 1 <= i <= |old'| && 1 <= j <= |new'|
  {
    old'[i - 1] == new'[j - 1]
  }

  /** The lines after i up to i' of file 0 are those after j up to j' of file 1. */
  ghost predicate Stretch(old': seq<Text>, new': seq<Text>, i: int, j: int, i': int, j': int) {
    && 0 <= i <= i' <= |old'| && 0 <= j <= j' <= |new'| && i' - i == j' - j
    && forall k, l | i < k <= i' && l - k == j - i :: Same(old', new', k, l)
  }

  /** Ascending hunks between which the files agree. */
  ghost predicate Ascending(old': seq<Text>, new': seq<Text>, s: Script) {
    match s
    case Nothing => true
    case Then(before, h) =>
      && Ascending(old', new', before) && h.Fits(|old'|, |new'|) && (h.a <= h.b || h.c <= h.d)
      && Stretch(old', new', before.EndOld(), before.EndNew(), h.a - 1, h.c - 1)
  }

  /** Descending hunks between which the files agree. */
  ghost predicate Descending(old': seq<Text>, new': seq<Text>, s: Script) {
    match s
    case Nothing => true
    case Then(before, h) =>
      && Descending(old', new', before) && h.Fits(|old'|, |new'|) && (h.a <= h.b || h.c <= h.d)
      && Stretch(old', new', h.b, h.d, before.StartOld(|old'|) - 1, before.StartNew(|new'|) - 1)
  }

  /** Between two hunks of an ascending script at least one line of either file is left alone. */
  ghost predicate Apart(s: Script) {
    match s
    case Nothing => true
    case Then(before, h) =>
      Apart(before) && (before.Then? ==> before.hunk.b + 1 < h.a && before.hunk.d + 1 < h.c)
  }

  /** So for a descending one. */
  ghost predicate ApartDown(s: Script) {
    match s
    case Nothing => true
    case Then(before, h) =>
      ApartDown(before) && (before.Then? ==> h.b + 1 < before.hunk.a && h.d + 1 < before.hunk.c)
  }

  /** No hunk is empty: a script that takes nothing out and brings nothing in has no hunks. */
  lemma {:induction false} EmptyScript(old': seq<Text>, new': seq<Text>, s: Script)
    requires Ascending(old', new', s) || Descending(old', new', s)
    ensures s.Removed() >= 0 && s.Added() >= 0
    ensures s.Removed() + s.Added() == 0 ==> s == Nothing
  {
    match s
    case Nothing =>
    case Then(before, h) =>
      EmptyScript(old', new', before);
  }

  lemma {:induction false} StretchLines(old': seq<Text>, new': seq<Text>, i: int, j: int, i': int, j': int)
    requires Stretch(old', new', i, j, i', j')
    ensures Lines(old', i + 1, i') == Lines(new', j + 1, j')
    decreases i' - i
  {
    if i < i' {
      StretchLines(old', new', i, j, i' - 1, j' - 1);
      assert Same(old', new', i', j');
    }
  }

  lemma {:induction false} LinesJoin(s: seq<Text>, a: nat, b: nat, c: nat)
    requires 1 <= a <= b + 1 && b <= c <= |s|
    ensures Lines(s, a, b) + Lines(s, b + 1, c) == Lines(s, a, c)
  {
    if b < c {
      LinesJoin(s, a, b, c - 1);
    }
  }

  lemma {:induction false} LinesPrefix(s: seq<Text>, b: nat)
    requires b <= |s|
    ensures Lines(s, 1, b) == s[..b]
  {
    if b > 0 {
      LinesPrefix(s, b - 1);
    }
  }

  lemma {:induction false} LinesAll(s: seq<Text>)
    ensures Lines(s, 1, |s|) == s
  {
    LinesPrefix(s, |s|);
  }

  lemma {:induction false} LinesHead(p: seq<Text>, q: seq<Text>, b: nat)
    requires b <= |p|
    ensures Lines(p + q, 1, b) == Lines(p, 1, b)
  {
    if b > 0 {
      LinesHead(p, q, b - 1);
    }
  }

  lemma {:induction false} LinesTail(p: seq<Text>, q: seq<Text>, b: nat)
    requires b <= |q|
    ensures Lines(p + q, |p| + 1, |p| + b) == Lines(q, 1, b)
  {
    if b > 0 {
      LinesTail(p, q, b - 1);
    }
  }

  /** The lines up to i and after j of a buffer p + x + r. */
  lemma {:induction false} Cut(p: seq<Text>, x: seq<Text>, r: seq<Text>, buf: seq<Text>, i: nat, j: nat)
    requires buf == p + x + r && i == |p| && j == i + |x|
    ensures Lines(buf, 1, i) == p && Lines(buf, j + 1, |buf|) == r
  {
    assert buf == p + (x + r);
    LinesHead(p, x + r, |p|);
    LinesAll(p);
    LinesTail(p + x, r, |r|);
    LinesAll(r);
  }

  lemma {:induction false} ProducedPrefix(old': seq<Text>, new': seq<Text>, s: Script)
    requires Ascending(old', new', s)
    ensures s.EndNew() <= |new'| && Produced(old', new', s) == Some(Lines(new', 1, s.EndNew()))
  {
    match s
    case Nothing =>
    case Then(before, h) =>
      ProducedPrefix(old', new', before);
      var i, j := before.EndOld(), before.EndNew();
      StretchLines(old', new', i, j, h.a - 1, h.c - 1);
      LinesJoin(new', 1, j, h.c - 1);
      LinesJoin(new', 1, h.c - 1, h.d);
  }

  /** An ascending script that leaves the same lines outside its hunks patches file 0 into file 1. */
  lemma {:induction false} PatchCorrect(old': seq<Text>, new': seq<Text>, s: Script)
    requires Ascending(old', new', s)
    requires Stretch(old', new', s.EndOld(), s.EndNew(), |old'|, |new'|)
    ensures Patch(old', new', s) == Some(new')
  {
    ProducedPrefix(old', new', s);
    StretchLines(old', new', s.EndOld(), s.EndNew(), |old'|, |new'|);
    LinesJoin(new', 1, s.EndNew(), |new'|);
    LinesAll(new');
  }

  lemma {:induction false} Splice(old': seq<Text>, new': seq<Text>, h: Hunk, buf: seq<Text>)
    requires h.Fits(|old'|, |new'|) && buf == Lines(old', 1, h.b) + Lines(new', h.d + 1, |new'|)
    ensures Lines(buf, 1, h.a - 1) + Lines(new', h.c, h.d) + Lines(buf, h.b + 1, |buf|)
         == Lines(old', 1, h.a - 1) + Lines(new', h.c, |new'|)
  {
    var i, j, n := h.a - 1, h.b, |new'|;
    var p, x, q, r := Lines(old', 1, i), Lines(old', h.a, j), Lines(new', h.c, h.d), Lines(new', h.d + 1, n);
    LinesJoin(old', 1, i, j);
    LinesJoin(new', h.c, h.d, n);
    Cut(p, x, r, buf, i, j);
    Assoc(p, q, r);
  }

  lemma {:induction false} Assoc(p: seq<Text>, q: seq<Text>, r: seq<Text>)
    ensures p + q + r == p + (q + r)
  {
  }

  lemma {:induction false} EditSuffix(old': seq<Text>, new': seq<Text>, s: Script)
    requires Descending(old', new', s)
    ensures var i, j := s.StartOld(|old'|), s.StartNew(|new'|);
            && 1 <= i <= |old'| + 1 && 1 <= j <= |new'| + 1
            && Edit(old', new', s) == Some(Lines(old', 1, i - 1) + Lines(new', j, |new'|))
  {
    if s.Nothing? {
      EditNothing(old', new');
    } else {
      EditSuffix(old', new', s.before);
      var i, j := s.before.StartOld(|old'|) - 1, s.before.StartNew(|new'|) - 1;
      var buf := Edit(old', new', s.before).value;
      EditStretch(old', new', s.hunk.b, s.hunk.d, i, j, buf);
      EditThen(old', new', s, buf);
    }
  }

  lemma {:induction false} EditNothing(old': seq<Text>, new': seq<Text>)
    ensures old' == Lines(old', 1, |old'|) + Lines(new', |new'| + 1, |new'|)
  {
    LinesAll(old');
    assert |Lines(new', |new'| + 1, |new'|)| == 0;
  }

  lemma {:induction false} EditThen(old': seq<Text>, new': seq<Text>, s: Script, buf: seq<Text>)
    requires s.Then? && s.hunk.Fits(|old'|, |new'|)
    requires Edit(old', new', s.before) == Some(buf)
    requires buf == Lines(old', 1, s.hunk.b) + Lines(new', s.hunk.d + 1, |new'|)
    ensures Edit(old', new', s) == Some(Lines(old', 1, s.hunk.a - 1) + Lines(new', s.hunk.c, |new'|))
  {
    Splice(old', new', s.hunk, buf);
  }

  lemma {:induction false} EditStretch(old': seq<Text>, new': seq<Text>, i: nat, j: nat, i': nat, j': nat,
                                       buf: seq<Text>)
    requires Stretch(old', new', i, j, i', j')
    requires buf == Lines(old', 1, i') + Lines(new', j' + 1, |new'|)
    ensures buf == Lines(old', 1, i) + Lines(new', j + 1, |new'|)
  {
    StretchLines(old', new', i, j, i', j');
    LinesJoin(old', 1, i, i');
    LinesJoin(new', j + 1, j', |new'|);
    Assoc(Lines(old', 1, i), Lines(new', j + 1, j'), Lines(new', j' + 1, |new'|));
  }

  /** A descending script, executed command by command, edits file 0 into file 1. */
  lemma {:induction false} EditCorrect(old': seq<Text>, new': seq<Text>, s: Script)
    requires Descending(old', new', s)
    requires Stretch(old', new', 0, 0, s.StartOld(|old'|) - 1, s.StartNew(|new'|) - 1)
    ensures Edit(old', new', s) == Some(new')
  {
    EditSuffix(old', new', s);
    var i, j := s.StartOld(|old'|), s.StartNew(|new'|);
    StretchLines(old', new', 0, 0, i - 1, j - 1);
    LinesJoin(new', 1, j - 1, |new'|);
    LinesAll(new');
  }

  // ---------------------------------------------------------------- the match vector

  ghost predicate InOrder(J: seq<int>, i: nat, j: nat)
    requires i < |J| && j < |J|
  {
    J[i] != 0 && J[j] != 0 ==> J[i] < J[j]
  }

  /** J matches equal lines, in the same order in both files; 0 is for no match. */
  ghost predicate Matching(J: seq<int>, old': seq<Text>, new': seq<Text>) {
    && |J| == |old'| + 2
    && (forall i | 1 <= i <= |old'| :: 0 <= J[i] <= |new'|)
    && (forall i | 1 <= i <= |old'| && J[i] != 0 :: Same(old', new', i, J[i]))
    && (forall i, j | 1 <= i < j <= |old'| :: InOrder(J, i, j))
  }

  /** The number of matched lines among the first i. */
  function Matches(J: seq<int>, i: nat): nat
    requires i < |J|
  {
    if i == 0 then 0 else Matches(J, i - 1) + if J[i] != 0 then 1 else 0
  }

  lemma {:induction false} NoMatches(J: seq<int>, i: nat, j: nat)
    requires i <= j < |J| && forall t | i < t <= j :: J[t] == 0
    ensures Matches(J, j) == Matches(J, i)
  {
    if i < j {
      NoMatches(J, i, j - 1);
    }
  }

  /** The lines after i up to i' are matched with those after j one by one. */
  ghost predicate Kept(J: seq<int>, i: int, j: int, i': int) {
    forall t | i < t <= i' && 0 <= t < |J| :: J[t] == t - i + j
  }

  ghost predicate Unmatched(J: seq<int>, h: Hunk) {
    forall t: nat | h.a <= t <= h.b && t < |J| :: J[t] == 0
  }

  /** An ascending script takes out the lines that are not matched, and those between its hunks are. */
  ghost predicate Along(J: seq<int>, s: Script) {
    match s
    case Nothing => true
    case Then(before, h) =>
      Along(J, before) && Kept(J, before.EndOld(), before.EndNew(), h.a - 1) && Unmatched(J, h)
  }

  /** So a descending one for files of m and n lines. */
  ghost predicate AlongDown(J: seq<int>, s: Script, m: nat, n: nat) {
    match s
    case Nothing => true
    case Then(before, h) =>
      AlongDown(J, before, m, n) && Kept(J, h.b, h.d, before.StartOld(m) - 1) && Unmatched(J, h)
  }

  /** `change`: an empty hunk is not printed. */
  method Change(s0: Script, a: nat, b: nat, c: nat, d: nat) returns (s: Script)
    ensures s == if a > b && c > d then s0 else Then(s0, Hunk(a, b, c, d))
  {
    s := s0;
    if a > b && c > d {
      return;
    }
    s := Then(s, Hunk(a, b, c, d));
  }

  // ---------------------------------------------------------------- forwards

  /** Lines up to i of file 0 and up to q of file 1 are dealt with. */
  ghost predicate Front(old': seq<Text>, new': seq<Text>, J: seq<int>, s: Script, i: nat, q: int)
    requires |J| == |old'| + 2
  {
    && i <= |old'|
    && (forall t | i < t <= |old'| && J[t] != 0 :: q < J[t])
    && Ascending(old', new', s) && Stretch(old', new', s.EndOld(), s.EndNew(), i, q)
    && s.Removed() + Matches(J, i) == i
    && s.Added() + Matches(J, i) == q
  }

  lemma {:induction false} FrontSkip(old': seq<Text>, new': seq<Text>, J: seq<int>, s: Script, i: nat, q: int,
                                     i': nat, q': int)
    requires Matching(J, old', new') && i < |old'| && Front(old', new', J, s, i, q)
    requires i' == i + 1 && q' == q + 1 && J[i'] == q'
    ensures Front(old', new', J, s, i', q')
  {
    assert Same(old', new', i', q');
    forall t | i' < t <= |old'| && J[t] != 0 ensures q' < J[t] {
      assert InOrder(J, i', t);
    }
  }

  lemma {:induction false} FrontHunk(old': seq<Text>, new': seq<Text>, J: seq<int>, s: Script, i: nat, q: int,
                                     h: Hunk, next: nat, s': Script)
    requires Matching(J, old', new') && Front(old', new', J, s, i, q)
    requires h.a == i + 1 <= h.b + 1 && h.b <= |old'| && next == h.b + 1
    requires forall t | h.a <= t <= h.b :: J[t] == 0
    requires h.c == q + 1 && h.d == (if next <= |old'| then J[next] else |new'| + 1) - 1
    requires next <= |old'| ==> J[next] != 0
    requires s' == if h.a > h.b && h.c > h.d then s else Then(s, h)
    ensures Front(old', new', J, s', h.b, h.d)
  {
    forall t | h.b < t <= |old'| && J[t] != 0 ensures h.d < J[t] {
      assert next < t ==> InOrder(J, next, t);
    }
    NoMatches(J, i, h.b);
  }

  /** Lines up to i are taken out or matched, and at least one has been matched since the last hunk but at the start. */
  ghost predicate FrontAlong(J: seq<int>, s: Script, i: int) {
    Apart(s) && Along(J, s) && Kept(J, s.EndOld(), s.EndNew(), i)
  }

  lemma {:induction false} AlongHunk(J: seq<int>, s: Script, i: int, h: Hunk, s': Script)
    requires FrontAlong(J, s, i) && h.a == i + 1 && Unmatched(J, h)
    requires s.Then? ==> s.EndOld() < i && s.EndNew() + 1 < h.c
    requires h.a <= h.b + 1 && s' == if h.a > h.b && h.c > h.d then s else Then(s, h)
    ensures FrontAlong(J, s', h.b)
  {
  }

  /** Lines start to i0 - 1 of file 0 have matches that follow one another. */
  ghost predicate Consecutive(J: seq<int>, start: nat, i0: nat) {
    1 <= start <= i0 <= |J| && forall t | start <= t < i0 :: GoesOn(J, t)
  }

  ghost predicate GoesOn(J: seq<int>, t: int) {
    0 < t < |J| && J[t] == J[t - 1] + 1
  }

  lemma {:induction false} FrontRun(old': seq<Text>, new': seq<Text>, J0: seq<int>, s: Script, J: seq<int>, start: nat,
                                    i0: nat)
    requires |J| == |J0| == |old'| + 2 && Matching(J0, old', new') && Consecutive(J, start, i0) && i0 <= |old'| + 1
    requires forall t | start <= t < i0 :: J[t] == J0[t]
    requires Front(old', new', J0, s, start - 1, J[start - 1])
    ensures Front(old', new', J0, s, i0 - 1, J[i0 - 1])
    decreases i0
  {
    if start < i0 {
      var last: nat := i0 - 1;
      assert GoesOn(J, last);
      FrontRun(old', new', J0, s, J, start, last);
      FrontSkip(old', new', J0, s, last - 1, J[last - 1], last, J[last]);
    }
  }

  lemma {:induction false} AlongRun(J0: seq<int>, s: Script, J: seq<int>, start: nat, i0: nat)
    requires |J| == |J0| && Consecutive(J, start, i0) && forall t | start <= t < i0 :: J[t] == J0[t]
    requires FrontAlong(J0, s, start - 1) && s.EndOld() < start && J[start - 1] - s.EndNew() == start - 1 - s.EndOld()
    ensures FrontAlong(J0, s, i0 - 1) && J[i0 - 1] - s.EndNew() == i0 - 1 - s.EndOld()
    decreases i0
  {
    if start < i0 {
      assert GoesOn(J, i0 - 1);
      AlongRun(J0, s, J, start, i0 - 1);
    }
  }

  /** Passes over matched lines that follow one another in both files. */
  method SkipForward(J: seq<int>, start: nat, m: nat) returns (i0: nat)
    requires |J| == m + 2 && 1 <= start <= m
    ensures start <= i0 <= m + 1 && Consecutive(J, start, i0)
    ensures J[start] == J[start - 1] + 1 ==> start < i0
    ensures i0 <= m ==> J[i0] != J[i0 - 1] + 1
  {
    i0 := start;
    while i0 <= m && J[i0] == J[i0 - 1] + 1
      invariant start <= i0 <= m + 1 && Consecutive(J, start, i0)
      invariant i0 == start || J[start] == J[start - 1] + 1
    {
      assert GoesOn(J, i0);
      i0 := i0 + 1;
    }
  }

  /** The last of the unmatched lines from i0 on. */
  method LastUnmatched(J: seq<int>, i0: nat, m: nat) returns (i1: nat)
    requires 1 <= i0 <= m + 1 && |J| == m + 2
    ensures i0 - 1 <= i1 <= m
    ensures forall t | i0 <= t <= i1 :: J[t] == 0
    ensures i1 < m ==> J[i1 + 1] != 0
  {
    i1 := i0 - 1;
    while i1 < m && J[i1 + 1] == 0
      invariant i0 - 1 <= i1 <= m
      invariant forall t | i0 <= t <= i1 :: J[t] == 0
    {
      i1 := i1 + 1;
    }
  }

  /** Matches that go on from start up to i0, and then unmatched lines up to i1. */
  ghost predicate Span(J: seq<int>, start: nat, i0: nat, i1: nat, m: nat) {
    && |J| == m + 2 && start <= i0 <= i1 + 1 <= m + 1 && Consecutive(J, start, i0)
    && (forall t | i0 <= t <= i1 :: J[t] == 0) && (i1 < m ==> J[i1 + 1] != 0)
  }

  /** What a round of the forward loop may rely on. */
  ghost predicate Fresh(J: seq<int>, start: nat, s: Script, J0: seq<int>, old': seq<Text>, new': seq<Text>) {
    && Matching(J0, old', new') && |J| == |J0| && 1 <= start <= |old'| && J[|old'| + 1] == |new'| + 1
    && (forall t | start <= t <= |old'| :: J[t] == J0[t])
    && Front(old', new', J0, s, start - 1, J[start - 1]) && FrontAlong(J0, s, start - 1)
  }

  /** The hunk lies between lines i and next of file 0, where the matches go on after line q of file 1. */
  ghost predicate Between(J: seq<int>, n: nat, i: nat, q: int, h: Hunk, next: nat) {
    && h.a == i + 1 <= h.b + 1 && next == h.b + 1 && next < |J| && h.c == q + 1 <= h.d + 1
    && Unmatched(J, h)
    && if next < |J| - 1 then J[next] == h.d + 1 else h.d == n
  }

  lemma {:induction false} RoundFits(J: seq<int>, start: nat, s: Script, J0: seq<int>, old': seq<Text>, new': seq<Text>,
                                     i0: nat, i1: nat)
    returns (i: nat, next: nat, h: Hunk)
    requires Fresh(J, start, s, J0, old', new') && Span(J, start, i0, i1, |old'|)
    ensures i == i0 - 1 && next == i1 + 1 && h.a == i0 && h.b == i1 && h.c == J[i0 - 1] + 1 && h.d == J[i1 + 1] - 1
    ensures Between(J0, |new'|, i, h.c - 1, h, next)
    ensures Front(old', new', J0, s, i, h.c - 1) && FrontAlong(J0, s, i) && (start < i0 ==> s.EndOld() < i)
  {
    FrontRun(old', new', J0, s, J, start, i0);
    AlongRun(J0, s, J, start, i0);
    i, next := i0 - 1, i1 + 1;
    assert i1 < |old'| ==> J[next] == J0[next];
    h := Hunk(i0, i1, J[i] + 1, J[next] - 1);
  }

  lemma {:induction false} RoundKeeps(old': seq<Text>, new': seq<Text>, J: seq<int>, s: Script, i: nat,
                                      h: Hunk, next: nat, s': Script)
    requires Matching(J, old', new') && Front(old', new', J, s, i, h.c - 1) && FrontAlong(J, s, i)
    requires (s.Then? ==> s.EndOld() < i) && Between(J, |new'|, i, h.c - 1, h, next)
    requires s' == if h.a > h.b && h.c > h.d then s else Then(s, h)
    ensures Front(old', new', J, s', h.b, h.d) && FrontAlong(J, s', h.b)
  {
    AlongHunk(J, s, i, h, s');
    FrontHunk(old', new', J, s, i, h.c - 1, h, next, s');
  }

  /** The lines of the next hunk. */
  method NextSpan(J: seq<int>, start: nat, m: nat) returns (i0: nat, i1: nat)
    requires |J| == m + 2 && 1 <= start <= m
    ensures Span(J, start, i0, i1, m) && (J[start] == J[start - 1] + 1 ==> start < i0)
  {
    i0 := SkipForward(J, start, m);
    i1 := LastUnmatched(J, i0, m);
  }

  /** One round of the forward loop; the second round at the same place passes over a match. */
  method HunkForward(J: seq<int>, start: nat, s0: Script, m: nat,
                     ghost J0: seq<int>, ghost old': seq<Text>, ghost new': seq<Text>)
    returns (i1: nat, j1: int, s: Script)
    requires m == |old'| && Fresh(J, start, s0, J0, old', new')
    requires s0.Then? ==> J[start] == J[start - 1] + 1
    ensures start - 1 <= i1 <= m && j1 == J[i1 + 1] - 1
    ensures Front(old', new', J0, s, i1, j1) && FrontAlong(J0, s, i1)
    ensures J[start] == J[start - 1] + 1 ==> start <= i1
  {
    var i0;
    i0, i1 := NextSpan(J, start, m);
    ghost var i, next, h := RoundFits(J, start, s0, J0, old', new', i0, i1);
    var j0 := J[i0 - 1] + 1;
    j1 := J[i1 + 1] - 1;
    s := Change(s0, i0, i1, j0, j1);
    RoundKeeps(old', new', J0, s0, i, h, next, s);
  }

  /** The loop of the forward pass. */
  method ForwardHunks(J0: seq<int>, ghost old': seq<Text>, ghost new': seq<Text>, m: nat, n: nat) returns (s: Script)
    requires m == |old'| && n == |new'| && Matching(J0, old', new')
    ensures if m == 0 then s == Nothing else Front(old', new', J0, s, m, n) && FrontAlong(J0, s, m)
  {
    s := Nothing;
    var J := J0[0 := 0][m + 1 := n + 1];
    var i0: nat := 1;
    OnwardStart(J, J0, old', new');
    while i0 <= m
      invariant Onward(J, J0, old', new', s, i0) && (i0 > m > 0 ==> J[i0 - 1] == n)
      invariant m == 0 ==> s == Nothing
      decreases m + 1 - i0, if i0 <= m && J[i0] == J[i0 - 1] + 1 then 0 else 1
    {
      J, i0, s := ForwardStep(J, i0, s, m, J0, old', new');
    }
  }

  /** The forward pass: an ascending script, as for the listing and for -f. */
  method Forward(J0: seq<int>, ghost old': seq<Text>, ghost new': seq<Text>, m: nat, n: nat)
    returns (s: Script)
    requires m == |old'| && n == |new'| && Matching(J0, old', new')
    ensures Ascending(old', new', s) && Patch(old', new', s) == Some(new')
    ensures Apart(s) && Along(J0, s) && Kept(J0, s.EndOld(), s.EndNew(), m)
    ensures s.Removed() == m - Matches(J0, m) && s.Added() == n - Matches(J0, m)
  {
    s := ForwardHunks(J0, old', new', m, n);
    if m == 0 {
      s := Change(s, 1, 0, 1, n);
      OneHunk(old', new', J0, s);
    }
    ForwardEnds(old', new', J0, s);
  }

  lemma {:induction false} OneHunk(old': seq<Text>, new': seq<Text>, J: seq<int>, s: Script)
    requires |old'| == 0 && |J| == 2 && s == if new' == [] then Nothing else Then(Nothing, Hunk(1, 0, 1, |new'|))
    ensures Front(old', new', J, s, 0, |new'|) && FrontAlong(J, s, 0)
  {
  }

  lemma {:induction false} OnwardStart(J: seq<int>, J0: seq<int>, old': seq<Text>, new': seq<Text>)
    requires Matching(J0, old', new') && J == J0[0 := 0][|old'| + 1 := |new'| + 1]
    ensures Onward(J, J0, old', new', Nothing, 1)
  {
  }

  lemma {:induction false} ForwardEnds(old': seq<Text>, new': seq<Text>, J: seq<int>, s: Script)
    requires |J| == |old'| + 2 && Front(old', new', J, s, |old'|, |new'|)
    ensures Ascending(old', new', s)
    ensures Patch(old', new', s) == Some(new')
    ensures s.Removed() == |old'| - Matches(J, |old'|) && s.Added() == |new'| - Matches(J, |old'|)
  {
    PatchCorrect(old', new', s);
  }

  /** All before line i0 is dealt with; from there on nothing has been touched. */
  ghost predicate Onward(J: seq<int>, J0: seq<int>, old': seq<Text>, new': seq<Text>, s: Script, i0: nat) {
    && |J| == |J0| == |old'| + 2 && 1 <= i0 <= |old'| + 1 && J[|old'| + 1] == |new'| + 1
    && (forall t | i0 <= t <= |old'| :: J[t] == J0[t])
    && Front(old', new', J0, s, i0 - 1, J[i0 - 1])
    && FrontAlong(J0, s, i0 - 1) && (s.Then? && i0 <= |old'| ==> J[i0] == J[i0 - 1] + 1)
  }

  method ForwardStep(J0: seq<int>, start: nat, s0: Script, m: nat,
                     ghost M: seq<int>, ghost old': seq<Text>, ghost new': seq<Text>)
    returns (J: seq<int>, i0: nat, s: Script)
    requires m == |old'| && Matching(M, old', new') && Onward(J0, M, old', new', s0, start) && start <= m
    ensures Onward(J, M, old', new', s, i0) && (i0 > m ==> J[i0 - 1] == |new'|)
    ensures start <= i0 && (i0 == start && i0 <= m ==> J0[i0] != J0[i0 - 1] + 1 && J[i0] == J[i0 - 1] + 1)
  {
    var i1, j1;
    i1, j1, s := HunkForward(J0, start, s0, m, M, old', new');
    J := J0[i1 := j1];
    i0 := i1 + 1;
  }

  // ---------------------------------------------------------------- backwards

  /** Lines after i of file 0 and from p on of file 1 are dealt with. */
  ghost predicate Back(old': seq<Text>, new': seq<Text>, J: seq<int>, s: Script, i: nat, p: int)
    requires |J| == |old'| + 2
  {
    && i <= |old'| && 1 <= p
    && (forall t | 1 <= t <= i :: J[t] < p)
    && Descending(old', new', s)
    && Stretch(old', new', i, p - 1, s.StartOld(|old'|) - 1, s.StartNew(|new'|) - 1)
    && s.Removed() + Matches(J, |old'|) - Matches(J, i) == |old'| - i
    && s.Added() + Matches(J, |old'|) - Matches(J, i) == |new'| + 1 - p
  }

  lemma {:induction false} BackSkip(old': seq<Text>, new': seq<Text>, J: seq<int>, s: Script, i: nat, p: int)
    requires Matching(J, old', new') && 1 <= i && Back(old', new', J, s, i, p) && J[i] == p - 1 && p != 1
    ensures Back(old', new', J, s, i - 1, p - 1)
  {
    assert Same(old', new', i, p - 1);
    forall t | 1 <= t <= i - 1 ensures J[t] < p - 1 {
      assert InOrder(J, t, i);
    }
  }

  lemma {:induction false} BackHunk(old': seq<Text>, new': seq<Text>, J: seq<int>, s: Script, p: int,
                                    h: Hunk, next: nat, s': Script)
    requires Matching(J, old', new') && Back(old', new', J, s, h.b, p)
    requires 1 <= h.a <= h.b + 1 && next == h.a - 1
    requires next > 0 ==> J[next] != 0
    requires forall t | h.a <= t <= h.b :: J[t] == 0
    requires h.d == p - 1 && h.c == (if next > 0 then J[next] else 0) + 1
    requires s' == if h.a > h.b && h.c > h.d then s else Then(s, h)
    ensures Back(old', new', J, s', next, h.c)
  {
    forall t | 1 <= t <= next ensures J[t] < h.c {
      assert t < next ==> InOrder(J, t, next);
    }
    assert next > 0 ==> J[next] < p;
    NoMatches(J, next, h.b);
  }

  /** Lines after i are taken out or matched, and at least one has been matched since the last hunk but at the start. */
  ghost predicate BackAlong(J: seq<int>, s: Script, i: nat, p: int, m: nat, n: nat) {
    ApartDown(s) && AlongDown(J, s, m, n) && Kept(J, i, p - 1, s.StartOld(m) - 1)
  }

  lemma {:induction false} AlongHunkDown(J: seq<int>, s: Script, p: int, h: Hunk, s': Script, m: nat, n: nat)
    requires BackAlong(J, s, h.b, p, m, n) && h.d == p - 1 && Unmatched(J, h)
    requires s.Then? ==> h.b + 1 < s.hunk.a && h.d + 1 < s.hunk.c
    requires 1 <= h.a <= h.b + 1 && s' == if h.a > h.b && h.c > h.d then s else Then(s, h)
    requires h.a > h.b && h.c > h.d ==> h.c == p
    ensures BackAlong(J, s', h.a - 1, h.c, m, n)
  {
  }

  /** Lines i0 + 1 to start of file 0 have matches that follow one another. */
  ghost predicate ConsecutiveDown(J: seq<int>, start: nat, i0: nat) {
    i0 <= start && start + 1 < |J| && forall t: nat | i0 < t <= start :: Follows(J, t)
  }

  lemma {:induction false} BackRun(old': seq<Text>, new': seq<Text>, J0: seq<int>, s: Script, J: seq<int>, start: nat,
                                   i0: nat)
    requires |J| == |J0| == |old'| + 2 && Matching(J0, old', new') && ConsecutiveDown(J, start, i0)
    requires forall t | 1 <= t <= start :: J[t] == J0[t]
    requires Back(old', new', J0, s, start, J[start + 1])
    ensures Back(old', new', J0, s, i0, J[i0 + 1])
    decreases start - i0
  {
    if i0 < start {
      var next: nat := i0 + 1;
      assert Follows(J, next);
      BackRun(old', new', J0, s, J, start, next);
      BackSkip(old', new', J0, s, next, J[next + 1]);
    }
  }

  lemma {:induction false} AlongRunDown(J0: seq<int>, s: Script, J: seq<int>, start: nat, i0: nat, m: nat, n: nat)
    requires |J| == |J0| == m + 2 && ConsecutiveDown(J, start, i0) && forall t | 1 <= t <= start :: J[t] == J0[t]
    requires BackAlong(J0, s, start, J[start + 1], m, n)
    ensures BackAlong(J0, s, i0, J[i0 + 1], m, n)
    decreases start - i0
  {
    if i0 < start {
      var next: nat := i0 + 1;
      assert Follows(J, next);
      AlongRunDown(J0, s, J, start, next, m, n);
    }
  }

  method SkipBackward(J: seq<int>, start: nat) returns (i0: nat)
    requires 1 <= start && start + 1 < |J|
    ensures ConsecutiveDown(J, start, i0)
    ensures Follows(J, start) ==> i0 < start
    ensures i0 >= 1 ==> !Follows(J, i0)
  {
    i0 := start;
    while i0 >= 1 && J[i0] == J[i0 + 1] - 1 && J[i0] != 0
      invariant ConsecutiveDown(J, start, i0)
      invariant i0 == start || Follows(J, start)
    {
      assert Follows(J, i0);
      i0 := i0 - 1;
    }
  }

  ghost predicate Follows(J: seq<int>, i: nat)
    requires i + 1 < |J|
  {
    J[i] == J[i + 1] - 1 && J[i] != 0
  }

  method FirstUnmatched(J: seq<int>, i0: nat) returns (i1: nat)
    requires i0 + 1 < |J|
    ensures 1 <= i1 <= i0 + 1
    ensures i1 > 1 ==> J[i1 - 1] != 0
    ensures forall t | i1 <= t <= i0 :: J[t] == 0
  {
    i1 := i0 + 1;
    while i1 > 1 && J[i1 - 1] == 0
      invariant 1 <= i1 <= i0 + 1
      invariant forall t | i1 <= t <= i0 :: J[t] == 0
    {
      i1 := i1 - 1;
    }
  }

  lemma {:induction false} DownKeeps(old': seq<Text>, new': seq<Text>, J: seq<int>, s: Script, p: int, h: Hunk,
                                     next: nat, s': Script)
    requires Matching(J, old', new') && Back(old', new', J, s, h.b, p) && BackAlong(J, s, h.b, p, |old'|, |new'|)
    requires s.Then? ==> h.b + 1 < s.hunk.a
    requires 1 <= h.a <= h.b + 1 && next == h.a - 1 && h.d == p - 1 && Unmatched(J, h)
    requires (next > 0 ==> J[next] != 0) && h.c == (if next > 0 then J[next] else 0) + 1
    requires s' == if h.a > h.b && h.c > h.d then s else Then(s, h)
    ensures Back(old', new', J, s', next, h.c) && BackAlong(J, s', next, h.c, |old'|, |new'|)
  {
    BackHunk(old', new', J, s, p, h, next, s');
    AlongHunkDown(J, s, p, h, s', |old'|, |new'|);
  }

  method HunkBackward(J: seq<int>, start: nat, s0: Script, m: nat,
                      ghost J0: seq<int>, ghost old': seq<Text>, ghost new': seq<Text>)
    returns (i1: nat, j1: int, s: Script)
    requires m == |old'| && Matching(J0, old', new') && |J| == |J0| && 1 <= start <= m
    requires J[0] == 0 && forall t | 1 <= t <= start :: J[t] == J0[t]
    requires Back(old', new', J0, s0, start, J[start + 1])
    requires BackAlong(J0, s0, start, J[start + 1], m, |new'|) && (s0.Then? ==> Follows(J, start))
    ensures 1 <= i1 <= start + 1 && Back(old', new', J0, s, i1 - 1, j1) && BackAlong(J0, s, i1 - 1, j1, m, |new'|)
    ensures j1 == J[i1 - 1] + 1 && (i1 > 1 ==> J[i1 - 1] != 0)
    ensures Follows(J, start) ==> i1 <= start
  {
    var i0 := SkipBackward(J, start);
    ghost var p := J[i0 + 1];
    BackRun(old', new', J0, s0, J, start, i0);
    AlongRunDown(J0, s0, J, start, i0, m, |new'|);
    var j0 := J[i0 + 1] - 1;
    i1 := FirstUnmatched(J, i0);
    var next := i1 - 1;
    j1 := J[next] + 1;
    s := Change(s0, i1, i0, j1, j0);
    assert next > 0 ==> J[next] == J0[next];
    ghost var h := Hunk(i1, i0, j1, j0);
    DownKeeps(old', new', J0, s0, p, h, next, s);
  }

  /** The backward pass for -e: each command leaves the line numbers of the later ones alone. */
  method Backward(J0: seq<int>, ghost old': seq<Text>, ghost new': seq<Text>, m: nat, n: nat)
    returns (s: Script)
    requires m == |old'| && n == |new'| && Matching(J0, old', new')
    ensures Descending(old', new', s) && Edit(old', new', s) == Some(new')
    ensures ApartDown(s) && AlongDown(J0, s, m, n) && Kept(J0, 0, 0, s.StartOld(m) - 1)
    ensures s.Removed() == m - Matches(J0, m) && s.Added() == n - Matches(J0, m)
  {
    s := Nothing;
    var J := J0[0 := 0][m + 1 := n + 1];
    var i0: nat := m;
    while i0 >= 1
      invariant Downward(J, J0, old', new', s, i0) && (i0 == 0 < m ==> J[1] == 1)
      invariant m == 0 ==> s == Nothing
      decreases i0, if i0 >= 1 && Follows(J, i0) then 0 else 1
    {
      J, i0, s := BackwardStep(J, i0, s, m, J0, old', new');
    }
    if m == 0 {
      s := Change(s, 1, 0, 1, n);
    }
    EditCorrect(old', new', s);
  }

  /** All behind line i0 is dealt with; up to there nothing has been touched. */
  ghost predicate Downward(J: seq<int>, J0: seq<int>, old': seq<Text>, new': seq<Text>, s: Script, i0: nat) {
    && |J| == |J0| == |old'| + 2 && i0 <= |old'| && J[0] == 0
    && (forall t | 1 <= t <= i0 :: J[t] == J0[t])
    && Back(old', new', J0, s, i0, J[i0 + 1]) && BackAlong(J0, s, i0, J[i0 + 1], |old'|, |new'|)
    && (s.Then? && i0 >= 1 ==> Follows(J, i0))
  }

  method BackwardStep(J0: seq<int>, start: nat, s0: Script, m: nat,
                      ghost M: seq<int>, ghost old': seq<Text>, ghost new': seq<Text>)
    returns (J: seq<int>, i0: nat, s: Script)
    requires m == |old'| && Matching(M, old', new') && Downward(J0, M, old', new', s0, start) && start >= 1
    ensures Downward(J, M, old', new', s, i0) && (i0 == 0 ==> J[1] == 1)
    ensures i0 <= start && (i0 == start ==> !Follows(J0, start) && Follows(J, start))
  {
    var i1, j1;
    i1, j1, s := HunkBackward(J0, start, s0, m, M, old', new');
    J := J0[i1 := j1];
    i0 := i1 - 1;
  }
}
