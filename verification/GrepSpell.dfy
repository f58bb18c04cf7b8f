/** `compile` reads every pattern as it is spelled. */
module GrepSpell {
  import opened GrepMatch
  import opened GrepSyntax
  import opened GrepParse

  /** The text t stands at position i of s. */
  ghost predicate At(s: seq<int>, i: nat, t: seq<int>) {
    i + |t| <= |s| && forall j | 0 <= j < |t| :: s[i + j] == t[j]
  }

  lemma {:induction false} AtSplit(s: seq<int>, i: nat, w: seq<int>, t: seq<int>, u: seq<int>, m: nat)
    requires At(s, i, w) && w == t + u && m == i + |t|
    ensures At(s, i, t) && At(s, m, u)
  {
    forall j | 0 <= j < |t| ensures s[i + j] == t[j] {
      assert w[j] == t[j];
    }
    forall j | 0 <= j < |u| ensures s[m + j] == u[j] {
      var k := |t| + j;
      assert w[k] == u[j] && s[i + k] == w[k];
    }
  }

  lemma {:induction false} AtJoin(s: seq<int>, i: nat, t: seq<int>, u: seq<int>, m: nat)
    requires At(s, i, t) && At(s, m, u) && m == i + |t|
    ensures At(s, i, t + u)
  {
    forall j | 0 <= j < |t + u| ensures s[i + j] == (t + u)[j] {
      if j >= |t| {
        var k := j - |t|;
        assert s[m + k] == u[k];
      }
    }
  }

  // ---------------------------------------------------------------- reading a class

  ghost function Have(parts: seq<Part>, n: nat): set<int> {
    set x | 0 <= x < 128 && PartsHave(parts, n, x)
  }

  lemma {:induction false} HaveNext(parts: seq<Part>, n: nat, next: nat)
    requires next == n + 1 <= |parts| && PartFine(parts, n, true)
    requires n > 0 ==> 0 < LastChar(parts[n - 1]) < 128
    ensures parts[n].One? ==> Have(parts, next) == Have(parts, n) + {parts[n].c}
    ensures parts[n].To? ==> n > 0 && var lo := LastChar(parts[n - 1]);
              Have(parts, next) == Have(parts, n) + Range(lo, parts[n].hi) + {lo}
  {
    forall x ensures PartsHave(parts, next, x) <==> PartsHave(parts, n, x) || PartHas(parts, n, x) {
      if j: nat :| j < next && PartHas(parts, j, x) {
        assert j == n || PartsHave(parts, n, x);
      }
      if j: nat :| j < n && PartHas(parts, j, x) {
        assert j < next;
      }
    }
  }

  /** One part, with more to come or the bracket behind it. */
  lemma {:induction false} ReadPart(s: seq<int>, first: nat, parts: seq<Part>, j: nat, k: nat, i: nat, next: nat)
    requires IsPattern(s) && k == j + 1 <= |parts| && PartFine(parts, j, true) && At(s, i, PartText(parts[j]))
    requires next == i + |PartText(parts[j])| && first <= i && (i == first <==> j == 0)
    requires j > 0 ==> i > 0 && s[i - 1] == LastChar(parts[j - 1])
    requires parts[j] == One('-' as int) && j > 0 ==> next < |s| && s[next] == ']' as int
    ensures next <= |s| && s[next - 1] == LastChar(parts[j])
    ensures ClassFrom(s, i, first, Have(parts, j)) ==
            if next < |s| && s[next] == ']' as int then ClassEnd(Have(parts, k), next + 1)
            else ClassFrom(s, next, first, Have(parts, k))
  {
    HaveNext(parts, j, k);
    assert s[i] == PartText(parts[j])[0];
    if parts[j].To? {
      assert s[i + 1] == PartText(parts[j])[1];
      assert IsRange(s, i, first);
    } else {
      assert !IsRange(s, i, first);
    }
  }

  lemma {:induction false} LastPartAt(s: seq<int>, first: nat, parts: seq<Part>, k: nat, m: nat, i: nat)
    requires m == k + 1 <= |parts| && At(s, first, PartsText(parts, m))
    requires i == first + |PartsText(parts, k)|
    ensures At(s, first, PartsText(parts, k)) && At(s, i, PartText(parts[k]))
    ensures |PartsText(parts, m)| == |PartsText(parts, k)| + |PartText(parts[k])|
  {
    AtSplit(s, first, PartsText(parts, m), PartsText(parts, k), PartText(parts[k]), i);
  }

  lemma {:induction false} FrontPartsAt(s: seq<int>, first: nat, parts: seq<Part>, n: nat, m: nat)
    requires n <= m <= |parts| && At(s, first, PartsText(parts, m))
    ensures At(s, first, PartsText(parts, n))
    decreases m
  {
    if n < m {
      var k: nat := m - 1;
      LastPartAt(s, first, parts, k, m, first + |PartsText(parts, k)|);
      FrontPartsAt(s, first, parts, n, k);
    }
  }

  lemma {:induction false} PartsAt(s: seq<int>, first: nat, parts: seq<Part>, n: nat, m: nat, i: nat)
    requires n < m <= |parts| && At(s, first, PartsText(parts, m)) && i == first + |PartsText(parts, n)|
    ensures At(s, i, PartText(parts[n]))
    ensures |PartsText(parts, n + 1)| == |PartsText(parts, n)| + |PartText(parts[n])|
  {
    var next: nat := n + 1;
    FrontPartsAt(s, first, parts, next, m);
    LastPartAt(s, first, parts, n, next, i);
  }

  lemma {:induction false} PartsLength(parts: seq<Part>, n: nat)
    requires n <= |parts|
    ensures n > 0 ==> |PartsText(parts, n)| > 0
  {
  }

  /** Part j, with another one behind it. */
  lemma {:induction false} ReadOne(s: seq<int>, first: nat, parts: seq<Part>, closed: bool, j: nat, k: nat, h: nat,
                                   i: nat)
    requires IsPattern(s) && k == j + 1 < |parts| && At(s, first, PartsText(parts, |parts|))
    requires PartFine(parts, j, closed) && PartFine(parts, k, closed)
    requires h == first + |PartsText(parts, j)| && i == first + |PartsText(parts, k)| && (h == first <==> j == 0)
    requires j > 0 ==> 0 < h <= |s| && s[h - 1] == LastChar(parts[j - 1])
    ensures first < i <= |s| && s[i - 1] == LastChar(parts[j])
    ensures ClassFrom(s, h, first, Have(parts, j)) == ClassFrom(s, i, first, Have(parts, k))
  {
    PartsAt(s, first, parts, j, |parts|, h);
    PartsAt(s, first, parts, k, |parts|, i);
    assert s[i] == PartText(parts[k])[0];
    ReadPart(s, first, parts, j, k, h, i);
  }

  /** The first n parts, with another one behind them. */
  lemma {:induction false} ReadParts(s: seq<int>, first: nat, parts: seq<Part>, closed: bool, n: nat, i: nat)
    requires IsPattern(s) && n < |parts| && At(s, first, PartsText(parts, |parts|))
    requires (forall j: nat | j < |parts| :: PartFine(parts, j, closed)) && i == first + |PartsText(parts, n)|
    ensures ClassFrom(s, first, first, {}) == ClassFrom(s, i, first, Have(parts, n))
    ensures (i == first <==> n == 0) && (n > 0 ==> 0 < i <= |s| && s[i - 1] == LastChar(parts[n - 1]))
    decreases n
  {
    if n == 0 {
      assert Have(parts, 0) == {};
    } else {
      var m: nat := n - 1;
      var h: nat := first + |PartsText(parts, m)|;
      ReadParts(s, first, parts, closed, m, h);
      ReadOne(s, first, parts, closed, m, n, h, i);
    }
  }

  /** All parts of a class that is closed. */
  lemma {:induction false} ReadClosed(s: seq<int>, first: nat, parts: seq<Part>, end: nat)
    requires IsPattern(s) && parts != [] && At(s, first, PartsText(parts, |parts|))
    requires forall j: nat | j < |parts| :: PartFine(parts, j, true)
    requires end == first + |PartsText(parts, |parts|)| && end < |s| && s[end] == ']' as int
    ensures ClassFrom(s, first, first, {}) == ClassEnd(Have(parts, |parts|), end + 1)
  {
    var m: nat := |parts| - 1;
    var h: nat := first + |PartsText(parts, m)|;
    ReadParts(s, first, parts, true, m, h);
    PartsAt(s, first, parts, m, |parts|, h);
    assert PartFine(parts, m, true);
    ReadPart(s, first, parts, m, |parts|, h, end);
  }

  /** A class at the end of the pattern that is not closed: refused, or read on past the end after a hyphen. */
  lemma {:induction false} ReadUnclosed(s: seq<int>, first: nat, parts: seq<Part>, end: nat)
    requires IsPattern(s) && At(s, first, PartsText(parts, |parts|)) && end == first + |PartsText(parts, |parts|)|
    requires forall j: nat | j < |parts| :: PartFine(parts, j, false)
    ensures end == |s| ==> ClassFrom(s, first, first, {}) == ClassBad
    ensures parts != [] && end + 1 == |s| && s[end] == '-' as int ==> ClassFrom(s, first, first, {}) == ClassOver
  {
    if parts != [] {
      var m: nat := |parts| - 1;
      var h: nat := first + |PartsText(parts, m)|;
      ReadParts(s, first, parts, false, m, h);
      PartsAt(s, first, parts, m, |parts|, h);
      assert PartFine(parts, m, false);
      if end == |s| || (end + 1 == |s| && s[end] == '-' as int) {
        ReadPart(s, first, parts, m, |parts|, h, end);
      }
    }
  }

  // ---------------------------------------------------------------- reading an element

  ghost function StateAt(es: seq<Elem>, k: nat): State
    requires k <= |es|
  {
    State(ItemsOf(es, k), Unclosed(es, k), Opens(es, k), Closes(es, k))
  }

  lemma {:induction false} StarsAt(s: seq<int>, i: nat, n: nat, m: nat)
    requires i <= m <= |s| && m == i + n && forall j | i <= j < m :: s[j] == '*' as int
    requires !(m < |s| && s[m] == '*' as int)
    ensures Stars(s, i) == m
    decreases n
  {
    if n > 0 {
      StarsAt(s, i + 1, n - 1, m);
    }
  }

  /** The element can be repeated. */
  predicate Stretches(e: Elem) {
    e.Any? || e.Esc? || e.Bracket? || (e.Lit? && e.c != '*' as int)
  }

  /** An element and its stars. */
  lemma {:induction false} ReadStars(s: seq<int>, es: seq<Elem>, k: nat, i: nat, m: nat, item: Item)
    requires k < |es| && Stretches(es[k]) && At(s, i, StarText(StarsOf(es[k]))) && m == i + StarsOf(es[k])
    requires !(m < |s| && s[m] == '*' as int)
    requires ItemOf(es, k) == if StarsOf(es[k]) > 0 then Repeat(item) else item
    ensures AfterElement(s, i, Add(StateAt(es, k), item)) == Elements(s, m, StateAt(es, k + 1))
  {
    var n, next: nat := StarsOf(es[k]), k + 1;
    forall j | i <= j < m ensures s[j] == '*' as int {
      var d := j - i;
      assert s[i + d] == StarText(n)[d];
    }
    StarsAt(s, i, n, m);
    var st := Add(StateAt(es, k), item);
    assert st.items == ItemsOf(es, k) + [item];
    if n > 0 {
      assert RepeatLast(st).items == ItemsOf(es, k) + [Repeat(item)];
    }
  }

  /** What is read at an element that can be repeated. */
  ghost function Plain(e: Elem): Item {
    match e
    case Any(_) => Dot(false)
    case Lit(c, _) => Chr(c, false)
    case Esc(c, _) => Chr(c, false)
    case Bracket(neg, parts, _) => Class(Chars(neg, parts), false)
    case _ => Dol
  }

  lemma {:induction false} NotNegated(s: seq<int>, first: nat, parts: seq<Part>)
    requires parts != [] && parts[0] != One('^' as int) && At(s, first, PartsText(parts, |parts|))
    ensures s[first] != '^' as int
  {
    PartsAt(s, first, parts, 0, |parts|, first);
    assert s[first] == PartText(parts[0])[0];
  }

  /** Where the pieces of a class stand. */
  lemma {:induction false} BracketAt(s: seq<int>, neg: bool, parts: seq<Part>, i: nat, first: nat, end: nat)
    requires At(s, i, ClassText(neg, parts)) && first == i + |Opening(neg)|
    requires end == first + |PartsText(parts, |parts|)|
    ensures At(s, first, PartsText(parts, |parts|)) && first <= end < |s| && s[end] == ']' as int && s[i] == '[' as int
    ensures neg ==> s[i + 1] == '^' as int
  {
    var text, front := ClassText(neg, parts), Opening(neg) + PartsText(parts, |parts|);
    AtSplit(s, i, text, front, [']' as int], end);
    AtSplit(s, i, front, Opening(neg), PartsText(parts, |parts|), first);
    assert s[end] == [']' as int][0] && s[i] == Opening(neg)[0] && (neg ==> s[i + 1] == Opening(neg)[1]);
  }

  lemma {:induction false} ReadBracket(s: seq<int>, neg: bool, parts: seq<Part>, i: nat, m: nat)
    requires IsPattern(s) && parts != [] && PartsFine(neg, parts, true)
    requires At(s, i, ClassText(neg, parts)) && m == i + |ClassText(neg, parts)|
    ensures i < |s| && s[i] == '[' as int && i + 1 < m && ClassOf(s, i + 1) == ClassEnd(Chars(neg, parts), m)
  {
    var first: nat, end: nat := i + |Opening(neg)|, m - 1;
    BracketAt(s, neg, parts, i, first, end);
    ReadClosed(s, first, parts, end);
    if neg {
      assert Range(1, 127) - Have(parts, |parts|) == Chars(neg, parts);
    } else {
      NotNegated(s, first, parts);
      assert Have(parts, |parts|) == Chars(neg, parts);
    }
  }

  /** Up to its stars. */
  lemma {:induction false} ReadCore(s: seq<int>, es: seq<Elem>, k: nat, end: bool, i: nat, m: nat)
    requires IsPattern(s) && k < |es| && Fine(es, k, end) && Stretches(es[k])
    requires At(s, i, Core(es[k])) && m == i + |Core(es[k])|
    requires es[k] == Lit('$' as int, 0) ==> m < |s|
    requires es[k].Lit? && es[k].stars > 0 ==> m < |s|
    ensures Elements(s, i, StateAt(es, k)) == AfterElement(s, m, Add(StateAt(es, k), Plain(es[k])))
  {
    var e := es[k];
    assert s[i] == Core(e)[0];
    match e
    case Bracket(neg, parts, _) =>
      ReadBracket(s, neg, parts, i, m);
    case Esc(c, _) =>
      assert s[i + 1] == Core(e)[1];
      assert Elements(s, i, StateAt(es, k)) == Escaped(s, i + 1, StateAt(es, k));
    case _ =>
  }

  lemma {:induction false} ReadGroup(s: seq<int>, es: seq<Elem>, k: nat, end: bool, i: nat)
    requires k < |es| && Fine(es, k, end) && (es[k].Open? || es[k].Close?) && At(s, i, Core(es[k]))
    ensures Elements(s, i, StateAt(es, k)) == Elements(s, i + 2, StateAt(es, k + 1))
  {
    assert s[i] == Core(es[k])[0] && s[i + 1] == Core(es[k])[1];
    assert Elements(s, i, StateAt(es, k)) == Escaped(s, i + 1, StateAt(es, k));
  }

  /** What cannot be repeated. */
  lemma {:induction false} ReadMark(s: seq<int>, es: seq<Elem>, k: nat, end: bool, i: nat, m: nat)
    requires IsPattern(s) && k < |es| && Fine(es, k, end) && !Stretches(es[k])
    requires At(s, i, Core(es[k])) && m == i + |Core(es[k])|
    requires es[k].End? ==> m == |s|
    ensures Elements(s, i, StateAt(es, k)) == Elements(s, m, StateAt(es, k + 1))
  {
    if es[k].Open? || es[k].Close? {
      ReadGroup(s, es, k, end, i);
    } else {
      assert s[i] == Core(es[k])[0];
    }
  }

  /** One element with its stars. */
  lemma {:induction false} ReadElem(s: seq<int>, es: seq<Elem>, k: nat, end: bool, i: nat, m: nat)
    requires IsPattern(s) && k < |es| && Fine(es, k, end) && m == i + |Core(es[k])| + StarsOf(es[k])
    requires At(s, i, ElemText(es[k]))
    requires m == |s| <==> k + 1 == |es| && end
    requires Stretches(es[k]) ==> !(m < |s| && s[m] == '*' as int)
    ensures Elements(s, i, StateAt(es, k)) == Elements(s, m, StateAt(es, k + 1))
  {
    var n: nat := i + |Core(es[k])|;
    AtSplit(s, i, ElemText(es[k]), Core(es[k]), StarText(StarsOf(es[k])), n);
    if Stretches(es[k]) {
      ReadCore(s, es, k, end, i, n);
      ReadStars(s, es, k, n, m, Plain(es[k]));
    } else {
      ReadMark(s, es, k, end, i, n);
    }
  }

  // ---------------------------------------------------------------- reading a pattern

  /** Where a class is left open at the end of the pattern, or at a hyphen there. */
  function Tail(hyphen: bool): seq<int> {
    if hyphen then ['-' as int] else []
  }

  /** A class that the pattern leaves open. */
  ghost predicate LeftOpen(s: seq<int>, i: nat, neg: bool, parts: seq<Part>, hyphen: bool) {
    && PartsFine(neg, parts, false) && (hyphen ==> parts != [])
    && At(s, i, Opening(neg) + PartsText(parts, |parts|) + Tail(hyphen))
    && i + |Opening(neg) + PartsText(parts, |parts|) + Tail(hyphen)| == |s|
  }

  /** What stops the reading at position i, behind the elements: the end of the pattern; a backslash with nothing behind
      it, a class that is open at a hyphen at the end; a back-reference to a group that is closed; or a group too many,
      a group closed that is not open, a back-reference to a group that is not closed, a class that is not closed. */
  ghost predicate Stops(s: seq<int>, i: nat, es: seq<Elem>, p: Parsed) {
    match p
    case Done(_) => i == |s|
    case Over(_, inClass) =>
      if inClass then exists neg, parts :: LeftOpen(s, i, neg, parts, true)
      else i + 1 == |s| && s[i] == '\\' as int
    case BackReference(_) =>
      i + 1 < |s| && s[i] == '\\' as int && IsDigit(s[i + 1]) && s[i + 1] - '1' as int < Closes(es, |es|)
    case Bad(_) =>
      || (exists neg, parts :: LeftOpen(s, i, neg, parts, false))
      || (i + 1 < |s| && s[i] == '\\' as int
          && if s[i + 1] == '(' as int then Opens(es, |es|) >= NBRA
             else if s[i + 1] == ')' as int then Unclosed(es, |es|) == []
             else IsDigit(s[i + 1]) && s[i + 1] - '1' as int >= Closes(es, |es|))
  }

  /** The pattern is spelled like the elements as far as it can be read, and what follows stops the reading. */
  ghost predicate Reads(s: seq<int>, es: seq<Elem>, p: Parsed) {
    var i := |Spell(es, Anchored(s))|;
    && At(s, 0, Spell(es, Anchored(s))) && Fit(es, Anchored(s), i == |s|)
    && p.items == ItemsOf(es, |es|) && Stops(s, i, es, p)
  }

  lemma {:induction false} TextStep(es: seq<Elem>, anchored: bool, k: nat, n: nat)
    requires n == k + 1 <= |es|
    ensures Text(es, anchored, n) == Text(es, anchored, k) + ElemText(es[k])
    ensures |Text(es, anchored, n)| == |Text(es, anchored, k)| + |ElemText(es[k])|
  {
  }

  lemma {:induction false} LastAt(s: seq<int>, es: seq<Elem>, anchored: bool, k: nat, m: nat, i: nat)
    requires m == k + 1 <= |es| && At(s, 0, Text(es, anchored, m)) && i == |Text(es, anchored, k)|
    ensures At(s, 0, Text(es, anchored, k)) && At(s, i, ElemText(es[k]))
  {
    TextStep(es, anchored, k, m);
    AtSplit(s, 0, Text(es, anchored, m), Text(es, anchored, k), ElemText(es[k]), i);
  }

  lemma {:induction false} FrontAt(s: seq<int>, es: seq<Elem>, anchored: bool, n: nat, m: nat)
    requires n <= m <= |es| && At(s, 0, Text(es, anchored, m))
    ensures At(s, 0, Text(es, anchored, n))
    decreases m
  {
    if n < m {
      var k: nat := m - 1;
      LastAt(s, es, anchored, k, m, |Text(es, anchored, k)|);
      FrontAt(s, es, anchored, n, k);
    }
  }

  lemma {:induction false} TextAt(s: seq<int>, es: seq<Elem>, anchored: bool, n: nat, m: nat, i: nat)
    requires n < m <= |es| && At(s, 0, Text(es, anchored, m)) && i == |Text(es, anchored, n)|
    ensures At(s, i, ElemText(es[n]))
  {
    var next: nat := n + 1;
    FrontAt(s, es, anchored, next, m);
    LastAt(s, es, anchored, n, next, i);
  }

  lemma {:induction false} TextGrows(es: seq<Elem>, anchored: bool, n: nat, m: nat)
    requires n <= m <= |es|
    ensures |Text(es, anchored, n)| <= |Text(es, anchored, m)|
    ensures n < m ==> |Text(es, anchored, n)| < |Text(es, anchored, m)|
    decreases m
  {
    if n < m {
      var k: nat := m - 1;
      TextGrows(es, anchored, n, k);
      TextStep(es, anchored, k, m);
    }
  }

  /** No star stands where an element begins, unless it is an element itself. */
  lemma {:induction false} NoStarNext(s: seq<int>, es: seq<Elem>, n: nat, end: bool, i: nat)
    requires 0 < n < |es| && Fine(es, n, end) && Stretches(es[n - 1])
    requires At(s, i, ElemText(es[n]))
    ensures i < |s| && s[i] != '*' as int
  {
    AtSplit(s, i, ElemText(es[n]), Core(es[n]), StarText(StarsOf(es[n])), i + |Core(es[n])|);
    assert s[i] == Core(es[n])[0];
  }

  /** Where element k begins and ends, with another one or a stop behind it. */
  lemma {:induction false} ElemAt(s: seq<int>, es: seq<Elem>, anchored: bool, k: nat, n: nat, i: nat, m: nat, z: nat)
    requires n == k + 1 <= |es| && At(s, 0, Text(es, anchored, |es|)) && z == |Text(es, anchored, |es|)|
    requires n < |es| ==> Fine(es, n, z == |s|)
    requires z < |s| ==> s[z] != '*' as int
    requires i == |Text(es, anchored, k)| && m == |Text(es, anchored, n)|
    ensures At(s, i, ElemText(es[k])) && m == i + |Core(es[k])| + StarsOf(es[k])
    ensures (m == |s| <==> n == |es| && z == |s|) && (Stretches(es[k]) ==> !(m < |s| && s[m] == '*' as int))
  {
    TextAt(s, es, anchored, k, |es|, i);
    TextStep(es, anchored, k, n);
    TextGrows(es, anchored, n, |es|);
    if n < |es| {
      TextAt(s, es, anchored, n, |es|, m);
      if Stretches(es[k]) {
        NoStarNext(s, es, n, z == |s|, m);
      }
    }
  }

  /** The first n elements, with a stop behind all of them. */
  lemma {:induction false} ReadTo(s: seq<int>, es: seq<Elem>, n: nat)
    requires IsPattern(s) && n <= |es| && At(s, 0, Spell(es, Anchored(s)))
    requires Fit(es, Anchored(s), |Spell(es, Anchored(s))| == |s|)
    requires |Spell(es, Anchored(s))| < |s| ==> s[|Spell(es, Anchored(s))|] != '*' as int
    ensures Parse(s) == Elements(s, |Text(es, Anchored(s), n)|, StateAt(es, n))
    decreases n
  {
    if n > 0 {
      var anchored, k: nat, z := Anchored(s), n - 1, |Spell(es, Anchored(s))|;
      ReadTo(s, es, k);
      var i, m := |Text(es, anchored, k)|, |Text(es, anchored, n)|;
      assert Fine(es, k, z == |s|) && (n < |es| ==> Fine(es, n, z == |s|));
      ElemAt(s, es, anchored, k, n, i, m, z);
      ReadElem(s, es, k, z == |s|, i, m);
    }
  }

  lemma {:induction false} ReadLeftOpen(s: seq<int>, i: nat, neg: bool, parts: seq<Part>, hyphen: bool)
    requires IsPattern(s) && LeftOpen(s, i, neg, parts, hyphen)
    ensures i < |s| && s[i] == '[' as int && ClassOf(s, i + 1) == if hyphen then ClassOver else ClassBad
  {
    var first: nat := i + |Opening(neg)|;
    var end: nat := first + |PartsText(parts, |parts|)|;
    var front := Opening(neg) + PartsText(parts, |parts|);
    AtSplit(s, i, front + Tail(hyphen), front, Tail(hyphen), end);
    AtSplit(s, i, front, Opening(neg), PartsText(parts, |parts|), first);
    assert s[i] == Opening(neg)[0] && (hyphen ==> s[end] == Tail(hyphen)[0]);
    ReadUnclosed(s, first, parts, end);
    if neg {
      assert s[i + 1] == Opening(neg)[1];
    } else if parts != [] {
      NotNegated(s, first, parts);
    }
  }

  /** What stops the reading stops it. */
  lemma {:induction false} ReadStop(s: seq<int>, i: nat, es: seq<Elem>, p: Parsed)
    requires IsPattern(s) && Stops(s, i, es, p) && p.items == ItemsOf(es, |es|)
    ensures Elements(s, i, StateAt(es, |es|)) == p && (i < |s| ==> s[i] != '*' as int)
  {
    var st := StateAt(es, |es|);
    match p
    case Done(_) =>
    case Over(_, inClass) =>
      if inClass {
        var neg, parts :| LeftOpen(s, i, neg, parts, true);
        ReadLeftOpen(s, i, neg, parts, true);
      } else {
        assert Elements(s, i, st) == Escaped(s, i + 1, st);
      }
    case BackReference(_) =>
      assert Elements(s, i, st) == Escaped(s, i + 1, st);
    case Bad(_) =>
      if neg, parts :| LeftOpen(s, i, neg, parts, false) {
        ReadLeftOpen(s, i, neg, parts, false);
      } else {
        assert Elements(s, i, st) == Escaped(s, i + 1, st);
      }
  }

  /** A pattern is read as it is spelled. */
  lemma {:induction false} ReadSpelled(s: seq<int>, es: seq<Elem>, p: Parsed)
    requires IsPattern(s) && Reads(s, es, p)
    ensures Parse(s) == p
  {
    ReadStop(s, |Spell(es, Anchored(s))|, es, p);
    ReadTo(s, es, |es|);
  }

  // ---------------------------------------------------------------- every pattern is spelled somehow

  ghost predicate FrontOf<T>(front: seq<T>, all: seq<T>) {
    |front| <= |all| && forall j | 0 <= j < |front| :: all[j] == front[j]
  }

  lemma {:induction false} PartsSame(parts: seq<Part>, more: seq<Part>, n: nat)
    requires FrontOf(parts, more) && n <= |parts|
    ensures PartsText(more, n) == PartsText(parts, n)
  {
    if n > 0 {
      PartsSame(parts, more, n - 1);
    }
  }

  lemma {:induction false} HaveSame(parts: seq<Part>, more: seq<Part>, n: nat)
    requires FrontOf(parts, more) && n <= |parts|
    ensures Have(more, n) == Have(parts, n)
  {
    forall x ensures PartsHave(more, n, x) <==> PartsHave(parts, n, x) {
      if j: nat :| j < n && PartHas(parts, j, x) {
        assert PartHas(more, j, x);
      }
      if j: nat :| j < n && PartHas(more, j, x) {
        assert PartHas(parts, j, x);
      }
    }
  }

  /** The parts read so far. */
  ghost predicate PartsRead(s: seq<int>, first: nat, parts: seq<Part>, closed: bool, i: nat) {
    && At(s, first, PartsText(parts, |parts|)) && i == first + |PartsText(parts, |parts|)| <= |s|
    && (forall j: nat | j < |parts| :: PartFine(parts, j, closed))
    && (parts != [] ==> first < i && s[i - 1] == LastChar(parts[|parts| - 1]))
  }

  /** One more part. */
  lemma {:induction false} PartMore(s: seq<int>, first: nat, parts: seq<Part>, p: Part, closed: bool, i: nat, next: nat,
                                    more: seq<Part>)
    requires IsPattern(s) && PartsRead(s, first, parts, false, i) && more == parts + [p] && At(s, i, PartText(p))
    requires PartFine(more, |parts|, closed) && next == i + |PartText(p)|
    requires p == One('-' as int) && parts != [] ==> next < |s| && s[next] == ']' as int
    ensures PartsRead(s, first, more, closed, next)
    ensures ClassFrom(s, i, first, Have(parts, |parts|)) ==
            if next < |s| && s[next] == ']' as int then ClassEnd(Have(more, |more|), next + 1)
            else ClassFrom(s, next, first, Have(more, |more|))
  {
    var n: nat := |parts|;
    PartsSame(parts, more, n);
    HaveSame(parts, more, n);
    assert PartsText(more, |more|) == PartsText(parts, n) + PartText(p);
    AtJoin(s, first, PartsText(parts, n), PartText(p), i);
    forall j: nat | j < |more| ensures PartFine(more, j, closed) {
      if j < n {
        assert PartFine(parts, j, false);
      }
    }
    ReadPart(s, first, more, n, |more|, i, next);
  }

  /** What a class comes to: its parts up to the bracket, or to where the pattern ends. */
  ghost predicate ClassRead(s: seq<int>, first: nat, parts: seq<Part>, c: ClassParse) {
    var i := first + |PartsText(parts, |parts|)|;
    match c
    case ClassEnd(_, next) =>
      parts != [] && PartsRead(s, first, parts, true, i) && i < |s| && s[i] == ']' as int && next == i + 1
    case ClassBad => PartsRead(s, first, parts, false, i) && i == |s|
    case ClassOver =>
      parts != [] && PartsRead(s, first, parts, false, i) && i + 1 == |s| && s[i] == '-' as int
  }

  lemma {:induction false} NextPart(s: seq<int>, first: nat, parts: seq<Part>, i: nat)
    returns (p: Part, closed: bool, next: nat)
    requires IsPattern(s) && i < |s| && (parts != [] ==> s[i] != ']' as int)
    requires parts != [] && s[i] == '-' as int ==> i + 1 < |s|
    ensures At(s, i, PartText(p)) && next == i + |PartText(p)| <= |s| && PartFine(parts + [p], |parts|, closed)
    ensures closed ==> next < |s| && s[next] == ']' as int
    ensures p == One('-' as int) && parts != [] ==> closed
  {
    var hyphen := parts != [] && s[i] == '-' as int;
    closed := hyphen && s[i + 1] == ']' as int;
    p := if hyphen && !closed then To(s[i + 1]) else One(s[i]);
    next := i + |PartText(p)|;
  }

  lemma {:induction false} Closed(s: seq<int>, first: nat, parts: seq<Part>, closed: bool, i: nat)
    requires PartsRead(s, first, parts, closed, i)
    ensures PartsRead(s, first, parts, true, i)
  {
    forall j: nat | j < |parts| ensures PartFine(parts, j, true) {
      assert PartFine(parts, j, closed);
    }
  }

  /** The pattern ends within the class. */
  lemma {:induction false} EndsInClass(s: seq<int>, first: nat, parts: seq<Part>, i: nat)
    requires IsPattern(s) && PartsRead(s, first, parts, false, i)
    requires i == |s| || (parts != [] && s[i] == '-' as int && i + 1 == |s|)
    ensures ClassRead(s, first, parts, ClassFrom(s, i, first, Have(parts, |parts|)))
  {
  }

  /** The class ends with its last part. */
  lemma {:induction false} EndsHere(s: seq<int>, first: nat, parts: seq<Part>, closed: bool, i: nat)
    requires PartsRead(s, first, parts, closed, i) && parts != [] && i < |s| && s[i] == ']' as int
    ensures ClassRead(s, first, parts, ClassEnd(Have(parts, |parts|), i + 1))
  {
    Closed(s, first, parts, closed, i);
  }

  lemma {:induction false} FromParts(s: seq<int>, first: nat, parts: seq<Part>, i: nat) returns (all: seq<Part>)
    requires IsPattern(s) && PartsRead(s, first, parts, false, i)
    requires parts != [] && i < |s| ==> s[i] != ']' as int
    ensures ClassRead(s, first, all, ClassFrom(s, i, first, Have(parts, |parts|)))
    decreases |s| - i
  {
    if i == |s| || (parts != [] && s[i] == '-' as int && i + 1 == |s|) {
      EndsInClass(s, first, parts, i);
      all := parts;
    } else {
      var p, closed, next := NextPart(s, first, parts, i);
      all := parts + [p];
      PartMore(s, first, parts, p, closed, i, next, all);
      if next < |s| && s[next] == ']' as int {
        EndsHere(s, first, all, closed, next);
      } else {
        all := FromParts(s, first, all, next);
      }
    }
  }

  ghost predicate ClassSpelled(s: seq<int>, i: nat, neg: bool, parts: seq<Part>, c: ClassParse) {
    match c
    case ClassEnd(_, next) =>
      && parts != [] && PartsFine(neg, parts, true) && At(s, i, ClassText(neg, parts))
      && next == i + |ClassText(neg, parts)|
    case ClassBad => LeftOpen(s, i, neg, parts, false)
    case ClassOver => LeftOpen(s, i, neg, parts, true)
  }

  /** The opening bracket put in front. */
  lemma {:induction false} WithOpening(s: seq<int>, i: nat, neg: bool, parts: seq<Part>, c: ClassParse)
    requires At(s, i, Opening(neg)) && ClassRead(s, i + |Opening(neg)|, parts, c)
    requires !neg && parts != [] ==> parts[0] != One('^' as int)
    ensures ClassSpelled(s, i, neg, parts, c)
  {
    var first: nat := i + |Opening(neg)|;
    var text := PartsText(parts, |parts|);
    var front, end: nat := Opening(neg) + text, first + |text|;
    AtJoin(s, i, Opening(neg), text, first);
    match c
    case ClassEnd(_, _) =>
      AtJoin(s, i, front, [']' as int], end);
    case ClassBad =>
      assert front + Tail(false) == front;
    case ClassOver =>
      AtJoin(s, i, front, Tail(true), end);
  }

  lemma {:induction false} NoCircumflex(s: seq<int>, first: nat, parts: seq<Part>, c: ClassParse)
    requires ClassRead(s, first, parts, c) && (first < |s| ==> s[first] != '^' as int)
    ensures parts != [] ==> parts[0] != One('^' as int)
  {
    if parts != [] {
      PartsAt(s, first, parts, 0, |parts|, first);
      assert s[first] == PartText(parts[0])[0];
    }
  }

  /** A class after its opening bracket. */
  lemma {:induction false} FromClass(s: seq<int>, i: nat) returns (neg: bool, parts: seq<Part>)
    requires IsPattern(s) && i < |s| && s[i] == '[' as int
    ensures ClassSpelled(s, i, neg, parts, ClassOf(s, i + 1))
  {
    neg := i + 1 < |s| && s[i + 1] == '^' as int;
    var first: nat := i + |Opening(neg)|;
    assert Have([], 0) == {};
    parts := FromParts(s, first, [], first);
    var c := ClassFrom(s, first, first, {});
    if !neg {
      NoCircumflex(s, first, parts, c);
    }
    WithOpening(s, i, neg, parts, c);
  }

  lemma {:induction false} GroupsSame(es: seq<Elem>, more: seq<Elem>, k: nat)
    requires FrontOf(es, more) && k <= |es|
    ensures Opens(more, k) == Opens(es, k) && Closes(more, k) == Closes(es, k) && Unclosed(more, k) == Unclosed(es, k)
  {
    if k > 0 {
      GroupsSame(es, more, k - 1);
    }
  }

  lemma {:induction false} TextSame(es: seq<Elem>, more: seq<Elem>, anchored: bool, k: nat)
    requires FrontOf(es, more) && k <= |es|
    ensures Text(more, anchored, k) == Text(es, anchored, k)
  {
    if k > 0 {
      var n: nat := k - 1;
      TextSame(es, more, anchored, n);
      TextStep(es, anchored, n, k);
      TextStep(more, anchored, n, k);
      assert ElemText(more[n]) == ElemText(es[n]);
    }
  }

  lemma {:induction false} ItemsSame(es: seq<Elem>, more: seq<Elem>, k: nat)
    requires FrontOf(es, more) && k <= |es|
    ensures ItemsOf(more, k) == ItemsOf(es, k)
  {
    if k > 0 {
      var n: nat := k - 1;
      ItemsSame(es, more, n);
      GroupsSame(es, more, n);
      assert ItemOf(more, n) == ItemOf(es, n);
    }
  }

  lemma {:induction false} StateSame(es: seq<Elem>, more: seq<Elem>)
    requires FrontOf(es, more)
    ensures StateAt(more, |es|) == StateAt(es, |es|)
  {
    GroupsSame(es, more, |es|);
    ItemsSame(es, more, |es|);
  }

  /** The elements read so far. */
  ghost predicate Begun(s: seq<int>, es: seq<Elem>, i: nat) {
    && At(s, 0, Spell(es, Anchored(s))) && i == |Spell(es, Anchored(s))| <= |s| && Fit(es, Anchored(s), i == |s|)
    && (i < |s| && s[i] == '*' as int ==> Barred(es, |es|))
  }

  lemma {:induction false} FitMore(es: seq<Elem>, e: Elem, anchored: bool, end: bool, more: seq<Elem>)
    requires Fit(es, anchored, false) && more == es + [e] && Fine(more, |es|, end)
    requires es == [] && !anchored ==> !e.Lit? || e.c != '^' as int
    ensures Fit(more, anchored, end)
  {
    forall k: nat | k < |more| ensures Fine(more, k, end) {
      if k < |es| {
        GroupsSame(es, more, k);
        assert Fine(es, k, false);
      }
    }
  }

  lemma {:induction false} SpellMore(s: seq<int>, es: seq<Elem>, e: Elem, anchored: bool, i: nat, more: seq<Elem>)
    requires At(s, 0, Spell(es, anchored)) && i == |Spell(es, anchored)| && more == es + [e] && At(s, i, ElemText(e))
    ensures At(s, 0, Spell(more, anchored)) && |Spell(more, anchored)| == i + |ElemText(e)|
  {
    TextSame(es, more, anchored, |es|);
    TextStep(more, anchored, |es|, |more|);
    AtJoin(s, 0, Spell(es, anchored), ElemText(e), i);
  }

  /** One more element. */
  lemma {:induction false} ElemMore(s: seq<int>, es: seq<Elem>, e: Elem, i: nat, m: nat, more: seq<Elem>)
    requires IsPattern(s) && Begun(s, es, i) && more == es + [e] && At(s, i, ElemText(e)) && m == i + |ElemText(e)|
    requires Fine(more, |es|, m == |s|) && (es == [] && !Anchored(s) ==> !e.Lit? || e.c != '^' as int)
    requires m < |s| && s[m] == '*' as int ==> !Stretches(e)
    ensures Begun(s, more, m) && Elements(s, i, StateAt(es, |es|)) == Elements(s, m, StateAt(more, |more|))
  {
    var n: nat, anchored := |es|, Anchored(s);
    StateSame(es, more);
    SpellMore(s, es, e, anchored, i, more);
    FitMore(es, e, anchored, m == |s|, more);
    ReadElem(s, more, n, m == |s|, i, m);
  }

  /** The stars behind an element. */
  lemma {:induction false} StarsEnd(s: seq<int>, i: nat) returns (n: nat)
    requires i <= |s|
    ensures i + n <= |s| && (forall j | i <= j < i + n :: s[j] == '*' as int)
    ensures !(i + n < |s| && s[i + n] == '*' as int)
    decreases |s| - i
  {
    n := 0;
    if i < |s| && s[i] == '*' as int {
      n := StarsEnd(s, i + 1);
      n := n + 1;
    }
  }

  /** The element e comes next. */
  ghost predicate Comes(s: seq<int>, es: seq<Elem>, i: nat, e: Elem, m: nat) {
    && At(s, i, ElemText(e)) && m == i + |ElemText(e)| && Fine(es + [e], |es|, m == |s|)
    && (es == [] && !Anchored(s) ==> !e.Lit? || e.c != '^' as int)
    && (m < |s| && s[m] == '*' as int ==> !Stretches(e))
  }

  /** An element that can be repeated, with the stars behind it. */
  lemma {:induction false} WithStars(s: seq<int>, es: seq<Elem>, e0: Elem, i: nat) returns (e: Elem, m: nat)
    requires Stretches(e0) && e0.stars == 0 && At(s, i, Core(e0)) && Fine(es + [e0], |es|, false)
    requires e0 == Lit('$' as int, 0) ==> i + 1 < |s|
    requires es == [] && !Anchored(s) ==> !e0.Lit? || e0.c != '^' as int
    ensures Comes(s, es, i, e, m)
  {
    var k: nat := i + |Core(e0)|;
    var n := StarsEnd(s, k);
    e := e0.(stars := n);
    m := k + n;
    assert At(s, k, StarText(n));
    AtJoin(s, i, Core(e0), StarText(n), k);
    FineStars(es, e0, e, m == |s|);
  }

  lemma {:induction false} FineStars(es: seq<Elem>, e0: Elem, e: Elem, end: bool)
    requires Stretches(e0) && e0.stars == 0 && Stretches(e) && e == e0.(stars := e.stars)
             && Fine(es + [e0], |es|, false)
    requires e == Lit('$' as int, 0) ==> !end
    ensures Fine(es + [e], |es|, end)
  {
  }

  ghost predicate Stopped(s: seq<int>, es: seq<Elem>, i: nat) {
    var p := Elements(s, i, StateAt(es, |es|));
    p.items == ItemsOf(es, |es|) && Stops(s, i, es, p)
  }

  /** The next element, or what stops the reading. */
  lemma {:induction false} NextElem(s: seq<int>, es: seq<Elem>, i: nat) returns (stop: bool, e: Elem, m: nat)
    requires IsPattern(s) && Begun(s, es, i) && i < |s|
    ensures if stop then Stopped(s, es, i) else Comes(s, es, i, e, m)
  {
    stop, e, m := false, End, i + 1;
    StartsPlain(s, es, i);
    if s[i] == '[' as int {
      stop, e, m := NextClass(s, es, i);
    } else if s[i] == '\\' as int {
      stop, e, m := NextEscape(s, es, i);
    } else if s[i] == '.' as int {
      e, m := WithStars(s, es, Any(0), i);
    } else if s[i] == '*' as int {
      e := Lit(s[i], 0);
      StarComes(s, es, i);
    } else if s[i] == '$' as int && i + 1 == |s| {
      EndComes(s, es, i);
    } else {
      LetterFine(s, es, i);
      e, m := WithStars(s, es, Lit(s[i], 0), i);
    }
  }

  lemma {:induction false} StartsPlain(s: seq<int>, es: seq<Elem>, i: nat)
    requires Begun(s, es, i) && i < |s|
    ensures es == [] && !Anchored(s) ==> s[i] != '^' as int
    ensures s[i] == '*' as int ==> Barred(es, |es|)
  {
  }

  lemma {:induction false} StarComes(s: seq<int>, es: seq<Elem>, i: nat)
    requires i < |s| && s[i] == '*' as int && Barred(es, |es|)
    ensures Comes(s, es, i, Lit(s[i], 0), i + 1)
  {
    assert StarText(0) == [] && ElemText(Lit(s[i], 0)) == [s[i]];
  }

  lemma {:induction false} EndComes(s: seq<int>, es: seq<Elem>, i: nat)
    requires i + 1 == |s| && s[i] == '$' as int
    ensures Comes(s, es, i, End, i + 1)
  {
    assert StarText(0) == [] && ElemText(End) == ['$' as int];
  }

  lemma {:induction false} LetterFine(s: seq<int>, es: seq<Elem>, i: nat)
    requires IsPattern(s) && i < |s|
             && s[i] != '[' as int && s[i] != '\\' as int && s[i] != '.' as int && s[i] != '*' as int
    ensures Fine(es + [Lit(s[i], 0)], |es|, false) && At(s, i, Core(Lit(s[i], 0)))
  {
  }

  lemma {:induction false} NextClass(s: seq<int>, es: seq<Elem>, i: nat) returns (stop: bool, e: Elem, m: nat)
    requires IsPattern(s) && i < |s| && s[i] == '[' as int
    ensures if stop then Stopped(s, es, i) else Comes(s, es, i, e, m)
  {
    var neg, parts := FromClass(s, i);
    stop, e, m := !ClassOf(s, i + 1).ClassEnd?, End, 0;
    if !stop {
      e, m := WithStars(s, es, Bracket(neg, parts, 0), i);
    }
  }

  /** What follows a backslash. */
  lemma {:induction false} NextEscape(s: seq<int>, es: seq<Elem>, i: nat) returns (stop: bool, e: Elem, m: nat)
    requires IsPattern(s) && i < |s| && s[i] == '\\' as int
    ensures if stop then Stopped(s, es, i) else Comes(s, es, i, e, m)
  {
    stop, e, m := true, End, i + 2;
    if i + 1 < |s| && s[i + 1] == '(' as int && Opens(es, |es|) < NBRA {
      stop, e := false, Open;
      MarkComes(s, es, i, e);
    } else if i + 1 < |s| && s[i + 1] == ')' as int && Unclosed(es, |es|) != [] {
      stop, e := false, Close;
      MarkComes(s, es, i, e);
    } else if i + 1 < |s| && s[i + 1] != '(' as int && s[i + 1] != ')' as int && !IsDigit(s[i + 1]) {
      stop := false;
      e, m := WithStars(s, es, Esc(s[i + 1], 0), i);
    } else {
      assert Elements(s, i, StateAt(es, |es|)) == Escaped(s, i + 1, StateAt(es, |es|));
    }
  }

  lemma {:induction false} MarkComes(s: seq<int>, es: seq<Elem>, i: nat, e: Elem)
    requires i + 1 < |s| && s[i] == '\\' as int
    requires (e == Open && s[i + 1] == '(' as int && Opens(es, |es|) < NBRA)
             || (e == Close && s[i + 1] == ')' as int && Unclosed(es, |es|) != [])
    ensures Comes(s, es, i, e, i + 2)
  {
    GroupsSame(es, es + [e], |es|);
    assert StarText(0) == [] && ElemText(e) == Core(e);
  }

  lemma {:induction false} FromElements(s: seq<int>, es: seq<Elem>, i: nat) returns (all: seq<Elem>)
    requires IsPattern(s) && Begun(s, es, i)
    ensures Reads(s, all, Elements(s, i, StateAt(es, |es|)))
    decreases |s| - i
  {
    all := es;
    if i < |s| {
      var stop, e, m := NextElem(s, es, i);
      if !stop {
        ElemMore(s, es, e, i, m, es + [e]);
        all := FromElements(s, es + [e], m);
      }
    }
  }

  /** Every pattern is spelled like some elements as far as it can be read. */
  lemma {:induction false} SomeSpelling(s: seq<int>) returns (es: seq<Elem>)
    requires IsPattern(s)
    ensures Reads(s, es, Parse(s))
  {
    es := FromElements(s, [], if Anchored(s) then 1 else 0);
  }

  lemma {:induction false} PatternJoin(t: seq<int>, u: seq<int>, w: seq<int>)
    requires IsPattern(t) && IsPattern(u) && w == t + u
    ensures IsPattern(w)
  {
  }

  lemma {:induction false} PartsPattern(parts: seq<Part>, n: nat, closed: bool)
    requires n <= |parts| && forall j: nat | j < |parts| :: PartFine(parts, j, closed)
    ensures IsPattern(PartsText(parts, n))
  {
    if n > 0 {
      var k: nat := n - 1;
      PartsPattern(parts, k, closed);
      assert PartFine(parts, k, closed) && IsPattern(PartText(parts[k]));
      PatternJoin(PartsText(parts, k), PartText(parts[k]), PartsText(parts, n));
    }
  }

  lemma {:induction false} ElemPattern(es: seq<Elem>, k: nat, end: bool)
    requires k < |es| && Fine(es, k, end)
    ensures IsPattern(ElemText(es[k]))
  {
    if es[k].Bracket? {
      var neg, parts := es[k].neg, es[k].parts;
      PartsPattern(parts, |parts|, true);
      PatternJoin(Opening(neg), PartsText(parts, |parts|), Opening(neg) + PartsText(parts, |parts|));
      PatternJoin(Opening(neg) + PartsText(parts, |parts|), [']' as int], ClassText(neg, parts));
    }
    PatternJoin(Core(es[k]), StarText(StarsOf(es[k])), ElemText(es[k]));
  }

  lemma {:induction false} TextPattern(es: seq<Elem>, anchored: bool, k: nat)
    requires k <= |es| && forall j: nat | j < |es| :: Fine(es, j, true)
    ensures IsPattern(Text(es, anchored, k))
  {
    if k > 0 {
      var n: nat := k - 1;
      TextPattern(es, anchored, n);
      ElemPattern(es, n, true);
      PatternJoin(Text(es, anchored, n), ElemText(es[n]), Text(es, anchored, k));
    }
  }

  lemma {:induction false} AtSelf(s: seq<int>)
    ensures At(s, 0, s)
  {
  }

  lemma {:induction false} AnchoredSpelling(es: seq<Elem>, anchored: bool)
    requires Fit(es, anchored, true)
    ensures Anchored(Spell(es, anchored)) == anchored
  {
    var s := Spell(es, anchored);
    AtSelf(s);
    FrontAt(s, es, anchored, 0, |es|);
    if anchored {
      assert s[0] == Text(es, anchored, 0)[0];
    } else if es != [] {
      TextAt(s, es, anchored, 0, |es|, 0);
      assert Fine(es, 0, true);
      assert s[0] == ElemText(es[0])[0] == Core(es[0])[0];
    }
  }

  /** What is spelled out is read back, whatever it is. */
  lemma {:induction false} SpelledBack(es: seq<Elem>, anchored: bool)
    requires Fit(es, anchored, true)
    ensures IsPattern(Spell(es, anchored)) && Anchored(Spell(es, anchored)) == anchored
    ensures Parse(Spell(es, anchored)) == Done(ItemsOf(es, |es|))
  {
    var s := Spell(es, anchored);
    TextPattern(es, anchored, |es|);
    AnchoredSpelling(es, anchored);
    AtSelf(s);
    ReadSpelled(s, es, Done(ItemsOf(es, |es|)));
  }
}
