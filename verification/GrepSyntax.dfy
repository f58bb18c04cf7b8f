/** The patterns of grep as they are written: what each construct is spelled like, and what it stands for. */
module GrepSyntax {
  import opened GrepMatch

  const NBRA: int := 9

  /** A pattern: 7-bit characters, none of them zero. */
  ghost predicate IsPattern(s: seq<int>) {
    forall i | 0 <= i < |s| :: 0 < s[i] < 128
  }

  /** A character in a class, or a hyphen and the character up to which a range goes that begins at the one before. */
  datatype Part = One(c: int) | To(hi: int)

  /** A dot, a character, a character behind a backslash, a class, each with some stars; the marks of a group; and a
      dollar sign at the end. */
  datatype Elem =
    | Any(stars: nat)
    | Lit(c: int, stars: nat)
    | Esc(c: int, stars: nat)
    | Bracket(neg: bool, parts: seq<Part>, stars: nat)
    | Open
    | Close
    | End

  // ---------------------------------------------------------------- spelling

  function PartText(p: Part): seq<int> {
    match p
    case One(c) => [c]
    case To(hi) => ['-' as int, hi]
  }

  /** The first j parts. */
  function PartsText(parts: seq<Part>, j: nat): seq<int>
    requires j <= |parts|
  {
    if j == 0 then [] else PartsText(parts, j - 1) + PartText(parts[j - 1])
  }

  /** The opening bracket, and the circumflex of a negated class. */
  function Opening(neg: bool): seq<int> {
    if neg then ['[' as int, '^' as int] else ['[' as int]
  }

  function ClassText(neg: bool, parts: seq<Part>): (r: seq<int>)
    ensures |r| == |Opening(neg)| + |PartsText(parts, |parts|)| + 1
  {
    Opening(neg) + PartsText(parts, |parts|) + [']' as int]
  }

  function Core(e: Elem): seq<int> {
    match e
    case Any(_) => ['.' as int]
    case Lit(c, _) => [c]
    case Esc(c, _) => ['\\' as int, c]
    case Bracket(neg, parts, _) => ClassText(neg, parts)
    case Open => ['\\' as int, '(' as int]
    case Close => ['\\' as int, ')' as int]
    case End => ['$' as int]
  }

  function StarsOf(e: Elem): nat {
    if e.Any? || e.Lit? || e.Esc? || e.Bracket? then e.stars else 0
  }

  function StarText(n: nat): (r: seq<int>)
    ensures |r| == n && forall j | 0 <= j < n :: r[j] == '*' as int
  {
    if n == 0 then [] else StarText(n - 1) + ['*' as int]
  }

  /** An element with its stars. */
  function ElemText(e: Elem): (r: seq<int>)
    ensures |r| == |Core(e)| + StarsOf(e) && |r| > 0
  {
    Core(e) + StarText(StarsOf(e))
  }

  /** The pattern up to its element k, with a circumflex in front if it is anchored. */
  function Text(es: seq<Elem>, anchored: bool, k: nat): seq<int>
    requires k <= |es|
  {
    if k == 0 then if anchored then ['^' as int] else []
    else Text(es, anchored, k - 1) + ElemText(es[k - 1])
  }

  function Spell(es: seq<Elem>, anchored: bool): seq<int> {
    Text(es, anchored, |es|)
  }

  // ---------------------------------------------------------------- what can be spelled

  /** Groups opened and closed before element k, and the numbers of those that are open. */
  function Opens(es: seq<Elem>, k: nat): nat
    requires k <= |es|
  {
    if k == 0 then 0 else Opens(es, k - 1) + if es[k - 1].Open? then 1 else 0
  }

  function Closes(es: seq<Elem>, k: nat): nat
    requires k <= |es|
  {
    if k == 0 then 0 else Closes(es, k - 1) + if es[k - 1].Close? then 1 else 0
  }

  function Unclosed(es: seq<Elem>, k: nat): seq<int>
    requires k <= |es|
  {
    if k == 0 then []
    else
      var before := Unclosed(es, k - 1);
      if es[k - 1].Open? then before + [Opens(es, k - 1)]
      else if es[k - 1].Close? && before != [] then before[..|before| - 1]
      else before
  }

  /** There is nothing before element k that a star could repeat. */
  predicate Barred(es: seq<Elem>, k: nat)
    requires k <= |es|
  {
    k == 0 || es[k - 1].Open? || es[k - 1].Close? || (es[k - 1].Lit? && es[k - 1].c == '*' as int)
  }

  predicate IsDigit(c: int) {
    '1' as int <= c <= '9' as int
  }

  /** A bracket only in the first place, a hyphen only there or in the last one of a class that is closed. */
  predicate PartFine(parts: seq<Part>, j: nat, closed: bool)
    requires j < |parts|
  {
    match parts[j]
    case One(c) => && 0 < c < 128 && (c == ']' as int ==> j == 0)
                   && (c == '-' as int ==> j == 0 || (closed && j + 1 == |parts|))
    case To(hi) => j > 0 && 0 < hi < 128 && hi != ']' as int
  }

  ghost predicate PartsFine(neg: bool, parts: seq<Part>, closed: bool) {
    && (forall j: nat | j < |parts| :: PartFine(parts, j, closed))
    && (neg || parts == [] || parts[0] != One('^' as int))
  }

  /** Element k can stand where it does, in a pattern that ends with the last element or goes on after it. */
  ghost predicate Fine(es: seq<Elem>, k: nat, end: bool)
    requires k < |es|
  {
    match es[k]
    case Any(_) => true
    case Lit(c, stars) =>
      && 0 < c < 128 && c != '.' as int && c != '[' as int && c != '\\' as int
      && (c == '$' as int && stars == 0 ==> k + 1 < |es| || !end)
      && (c == '*' as int ==> stars == 0 && Barred(es, k))
    case Esc(c, _) => 0 < c < 128 && c != '(' as int && c != ')' as int && !IsDigit(c)
    case Bracket(neg, parts, _) => parts != [] && PartsFine(neg, parts, true)
    case Open => Opens(es, k) < NBRA
    case Close => Unclosed(es, k) != []
    case End => end && k + 1 == |es|
  }

  /** The elements can be spelled: only an anchored pattern begins with a circumflex. */
  ghost predicate Fit(es: seq<Elem>, anchored: bool, end: bool) {
    && (forall k: nat | k < |es| :: Fine(es, k, end))
    && (anchored || es == [] || !es[0].Lit? || es[0].c != '^' as int)
  }

  // ---------------------------------------------------------------- meaning

  /** Where a range goes on from a part. */
  function LastChar(p: Part): int {
    if p.One? then p.c else p.hi
  }

  /** A range is its first character and all up to its last one. */
  predicate PartHas(parts: seq<Part>, j: nat, x: int)
    requires j < |parts|
  {
    match parts[j]
    case One(c) => x == c
    case To(hi) => j > 0 && (x == LastChar(parts[j - 1]) || LastChar(parts[j - 1]) <= x <= hi)
  }

  ghost predicate PartsHave(parts: seq<Part>, n: nat, x: int) {
    exists j: nat :: j < n && j < |parts| && PartHas(parts, j, x)
  }

  /** The characters of a class; a negated one has all others but 0. */
  ghost function Chars(neg: bool, parts: seq<Part>): set<int> {
    set x | 0 <= x < 128 && if neg then x != 0 && !PartsHave(parts, |parts|, x) else PartsHave(parts, |parts|, x)
  }

  ghost function ItemOf(es: seq<Elem>, k: nat): Item
    requires k < |es|
  {
    match es[k]
    case Any(stars) => Dot(stars > 0)
    case Lit(c, stars) => Chr(c, stars > 0)
    case Esc(c, stars) => Chr(c, stars > 0)
    case Bracket(neg, parts, stars) => Class(Chars(neg, parts), stars > 0)
    case Open => Bra(Opens(es, k))
    case Close => var open := Unclosed(es, k); Ket(if open == [] then 0 else open[|open| - 1])
    case End => Dol
  }

  /** The items of the first k elements. */
  ghost function ItemsOf(es: seq<Elem>, k: nat): (items: seq<Item>)
    requires k <= |es|
    ensures |items| == k
  {
    if k == 0 then [] else ItemsOf(es, k - 1) + [ItemOf(es, k - 1)]
  }
}
