/** How `compile` (grep.c) reads a pattern, one character at a time. */
module GrepParse {
  import opened GrepMatch
  import opened GrepSyntax

  /** A class read to its end, or ended by the end of the pattern, or by a range that runs past that end. */
  datatype ClassParse = ClassEnd(chars: set<int>, next: nat) | ClassBad | ClassOver

  ghost function Range(lo: int, hi: int): (r: set<int>)
    ensures forall x :: x in r <==> lo <= x <= hi
    decreases hi - lo
  {
    if lo > hi then {} else Range(lo, hi - 1) + {hi}
  }

  /** The members from position i on: single characters, and ranges from the character before a hyphen. A range
      the wrong way round is its first character only. */
  ghost function ClassFrom(s: seq<int>, i: nat, first: nat, acc: set<int>): ClassParse
    decreases |s| - i
  {
    if i >= |s| then ClassBad
    else if IsRange(s, i, first) && i + 1 >= |s| then ClassOver
    else
      var next := if IsRange(s, i, first) then i + 2 else i + 1;
      var more := if IsRange(s, i, first) then acc + Range(s[i - 1], s[i + 1]) + {s[i - 1]} else acc + {s[i]};
      if next < |s| && s[next] == ']' as int then ClassEnd(more, next + 1) else ClassFrom(s, next, first, more)
  }

  /** A hyphen that is neither first nor last. */
  predicate IsRange(s: seq<int>, i: nat, first: nat)
    requires i < |s|
  {
    s[i] == '-' as int && i > first && !(i + 1 < |s| && s[i + 1] == ']' as int)
  }

  /** A class after its opening bracket. */
  ghost function ClassOf(s: seq<int>, i: nat): ClassParse {
    if i < |s| && s[i] == '^' as int then
      match ClassFrom(s, i + 1, i + 1, {})
      case ClassEnd(chars, next) => ClassEnd(Range(1, 127) - chars, next)
      case other => other
    else ClassFrom(s, i, i, {})
  }

  /** The elements read, the open groups, and the groups opened and closed so far. */
  datatype State = State(items: seq<Item>, open: seq<int>, numbra: nat, closed: nat)

  /** The elements of a pattern in the grammar; or those up to an error, up to a back-reference, or up to where the end
      of the pattern is in the middle of an escape or of a range in a class. */
  datatype Parsed = Done(items: seq<Item>) | Bad(items: seq<Item>) | BackReference(items: seq<Item>)
                  | Over(items: seq<Item>, inClass: bool)

  /** Past any stars. */
  ghost function Stars(s: seq<int>, i: nat): (j: nat)
    ensures j >= i
    decreases |s| - i
  {
    if i < |s| && s[i] == '*' as int then Stars(s, i + 1) else i
  }

  function Add(st: State, item: Item): State {
    st.(items := st.items + [item])
  }

  function Repeat(item: Item): Item {
    match item
    case Chr(c, _) => Chr(c, true)
    case Dot(_) => Dot(true)
    case Class(chars, _) => Class(chars, true)
    case other => other
  }

  ghost function RepeatLast(st: State): State
    requires |st.items| > 0
  {
    st.(items := st.items[|st.items| - 1 := Repeat(st.items[|st.items| - 1])])
  }

  /** An element that may be repeated has been read: any stars after it repeat it. */
  ghost function AfterElement(s: seq<int>, i: nat, st: State): Parsed
    requires |st.items| > 0
    decreases |s| - i, 1
  {
    Elements(s, Stars(s, i), if Stars(s, i) > i then RepeatLast(st) else st)
  }

  /** The pattern from position i on, where a star has nothing to repeat. */
  ghost function Elements(s: seq<int>, i: nat, st: State): Parsed
    decreases |s| - i, 0
  {
    if i >= |s| then Done(st.items)
    else if s[i] == '.' as int then AfterElement(s, i + 1, Add(st, Dot(false)))
    else if s[i] == '*' as int then Elements(s, i + 1, Add(st, Chr(s[i], false)))
    else if s[i] == '$' as int && i + 1 == |s| then Elements(s, i + 1, Add(st, Dol))
    else if s[i] == '[' as int then
      match ClassOf(s, i + 1)
      case ClassEnd(chars, next) => if next <= i then Bad(st.items)
          else AfterElement(s, next, Add(st, Class(chars, false)))
      case ClassBad => Bad(st.items)
      case ClassOver => Over(st.items, true)
    else if s[i] == '\\' as int then Escaped(s, i + 1, st)
    else AfterElement(s, i + 1, Add(st, Chr(s[i], false)))
  }

  /** What follows a backslash. */
  ghost function Escaped(s: seq<int>, i: nat, st: State): Parsed
    decreases |s| - i, 2
  {
    if i >= |s| then Over(st.items, false)
    else if s[i] == '(' as int then
      if st.numbra >= NBRA then Bad(st.items)
      else Elements(s, i + 1, Add(st, Bra(st.numbra)).(open := st.open + [st.numbra], numbra := st.numbra + 1))
    else if s[i] == ')' as int then
      if |st.open| == 0 then Bad(st.items)
      else Elements(s, i + 1, Add(st, Ket(st.open[|st.open| - 1])).(open := st.open[..|st.open| - 1],
                                                                    closed := st.closed + 1))
    else if '1' as int <= s[i] <= '9' as int then
      if s[i] - '1' as int >= st.closed then Bad(st.items) else BackReference(st.items)
    else AfterElement(s, i + 1, Add(st, Chr(s[i], false)))
  }

  function Anchored(s: seq<int>): bool {
    |s| > 0 && s[0] == '^' as int
  }

  ghost function Parse(s: seq<int>): Parsed {
    Elements(s, if Anchored(s) then 1 else 0, State([], [], 0, 0))
  }
}
