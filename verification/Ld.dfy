/** The symbol table of ld (ld.c): open addressing with linear probing, from which the symbols of a library member that
    is not wanted are taken out again. */
module Ld {
  import opened Arithmetic
  import opened Wrappers

  const NSYM: int := 1103
  const SIZE: int := NSYM + 2

  type Name = seq<char>

  /** Where the probe begins. */
  function Hash(name: Name): (h: nat)
    ensures h < SIZE
  {
    Sum(name) % 32768 % NSYM + 2
  }

  /** Each character added to twice the sum of those before; the 15 low bits count. */
  function Sum(name: Name): nat {
    if name == [] then 0 else 2 * Sum(name[..|name| - 1]) + name[|name| - 1] as nat
  }

  /** The slot after so many steps, going round. */
  function Slot(start: nat, t: nat): (s: nat)
    requires start < SIZE && t < SIZE
    ensures s < SIZE
  {
    if start + t < SIZE then start + t else start + t - SIZE
  }

  // ---------------------------------------------------------------- the table

  /** A slot is 0 or one more than the number of its symbol. */
  datatype Table = Table(hshtab: seq<nat>, symtab: seq<Name>, symhash: seq<nat>)

  /** Symbol k is dist[k] steps from where its probe begins, and all slots on the way hold earlier symbols. */
  ghost predicate Reached(t: Table, dist: seq<nat>, k: nat) {
    && k < |t.symtab| == |t.symhash| == |dist| && |t.hshtab| == SIZE && dist[k] < SIZE
    && t.symhash[k] == Slot(Hash(t.symtab[k]), dist[k]) && t.hshtab[t.symhash[k]] == k + 1
    && forall u: nat | u < dist[k] :: Earlier(t, Slot(Hash(t.symtab[k]), u), k)
  }

  ghost predicate Earlier(t: Table, s: nat, k: nat) {
    s < |t.hshtab| && 0 < t.hshtab[s] <= k
  }

  /** A slot that is not empty holds the symbol that was put there. */
  ghost predicate Filled(t: Table, s: nat) {
    s < |t.hshtab| && (t.hshtab[s] > 0 ==> t.hshtab[s] <= |t.symhash| && t.symhash[t.hshtab[s] - 1] == s)
  }

  ghost predicate Valid(t: Table, dist: seq<nat>) {
    && |t.hshtab| == SIZE && |t.symtab| == |t.symhash| == |dist| <= NSYM
    && (forall k: nat | k < |t.symtab| :: Reached(t, dist, k))
    && (forall s: nat | s < SIZE :: Filled(t, s))
    && (forall j, k | 0 <= j < k < |t.symtab| :: t.symtab[j] != t.symtab[k])
  }

  lemma {:induction false} EmptyTable(t: Table)
    requires t == Table(seq(SIZE, _ => 0), [], [])
    ensures Valid(t, [])
  {
  }

  // ---------------------------------------------------------------- an empty slot

  ghost function SlotsOf(symhash: seq<nat>): (s: set<nat>)
    ensures |s| <= |symhash| && forall x :: x in s <==> x in symhash
  {
    if symhash == [] then {} else SlotsOf(symhash[..|symhash| - 1]) + {symhash[|symhash| - 1]}
  }

  /** There are two slots more than symbols. */
  lemma {:induction false} SomeEmpty(t: Table, dist: seq<nat>) returns (s: nat)
    requires Valid(t, dist)
    ensures s < SIZE && t.hshtab[s] == 0
  {
    var used, all := SlotsOf(t.symhash), UpTo(SIZE);
    if all <= used {
      SubsetSize(all, used);
    }
    s :| s in all && s !in used;
    assert Filled(t, s);
  }

  lemma {:induction false} StepsTo(start: nat, s: nat) returns (u: nat)
    requires start < SIZE && s < SIZE
    ensures u < SIZE && Slot(start, u) == s
  {
    u := if s >= start then s - start else s - start + SIZE;
  }

  // ---------------------------------------------------------------- looking up and entering

  /** The slots before step u hold symbols of other names. */
  ghost predicate Passed(t: Table, name: Name, u: nat) {
    |t.hshtab| == SIZE && u < SIZE && forall v: nat | v < u :: Other(t, name, Slot(Hash(name), v))
  }

  ghost predicate Other(t: Table, name: Name, s: nat) {
    s < |t.hshtab| && 0 < t.hshtab[s] <= |t.symtab| && t.symtab[t.hshtab[s] - 1] != name
  }

  ghost predicate Found(t: Table, name: Name, hp: nat) {
    && hp < |t.hshtab|
    && if t.hshtab[hp] == 0 then name !in t.symtab
       else t.hshtab[hp] <= |t.symtab| && t.symtab[t.hshtab[hp] - 1] == name
  }

  /** `lookup`: the slot of the symbol, or the empty one where it belongs; there always is one. */
  method Lookup(t: Table, name: Name, ghost dist: seq<nat>) returns (hp: nat, ghost u: nat)
    requires Valid(t, dist)
    ensures Found(t, name, hp) && Passed(t, name, u) && hp == Slot(Hash(name), u)
  {
    ghost var empty := SomeEmpty(t, dist);
    ghost var last := StepsTo(Hash(name), empty);
    hp, u := Hash(name), 0;
    while t.hshtab[hp] != 0 && Names(t, hp, dist) != name
      invariant hp < SIZE && u <= last < SIZE && hp == Slot(Hash(name), u) && Passed(t, name, u)
      decreases last - u
    {
      assert Filled(t, hp) && Other(t, name, hp);
      hp := hp + 1;
      if hp >= SIZE {
        hp := 0;
      }
      u := u + 1;
    }
    if t.hshtab[hp] == 0 {
      NotThere(t, name, dist, u);
    } else {
      assert Filled(t, hp);
    }
  }

  /** The name of the symbol in a slot. */
  function Names(t: Table, hp: nat, ghost dist: seq<nat>): Name
    requires Valid(t, dist) && hp < SIZE && t.hshtab[hp] != 0
  {
    assert Filled(t, hp);
    t.symtab[t.hshtab[hp] - 1]
  }

  /** Where the probe for a name meets an empty slot, no symbol of the name is behind it. */
  lemma {:induction false} NotThere(t: Table, name: Name, dist: seq<nat>, u: nat)
    requires Valid(t, dist) && Passed(t, name, u) && t.hshtab[Slot(Hash(name), u)] == 0
    ensures name !in t.symtab
  {
    forall k: nat | k < |t.symtab| ensures t.symtab[k] != name {
      assert Reached(t, dist, k);
      var d := dist[k];
      assert d < u ==> Other(t, name, Slot(Hash(name), d));
      assert u < d ==> Earlier(t, Slot(Hash(t.symtab[k]), u), k);
    }
  }

  /** `enter`: a new symbol in an empty slot. */
  method Enter(t: Table, name: Name, hp: nat, ghost dist: seq<nat>, ghost u: nat)
    returns (r: Table, new_: bool, full: bool, ghost dist': seq<nat>)
    requires Valid(t, dist) && Found(t, name, hp) && Passed(t, name, u) && hp == Slot(Hash(name), u)
    ensures Valid(r, dist')
    ensures full <==> name !in t.symtab && |t.symtab| == NSYM
    ensures new_ <==> name !in t.symtab && !full
    ensures r.symtab == if new_ then t.symtab + [name] else t.symtab
    ensures if new_ then Added(t, r, hp) && dist' == dist + [u] else r == t && dist' == dist
  {
    r, new_, full, dist' := t, false, false, dist;
    if t.hshtab[hp] == 0 {
      if |t.symtab| >= NSYM {
        full := true;
        return;
      }
      r := Table(t.hshtab[hp := |t.symtab| + 1], t.symtab + [name], t.symhash + [hp]);
      new_, dist' := true, dist + [u];
      EnterKeeps(t, name, hp, dist, u, r);
    }
  }

  /** One symbol more, in a slot that was empty. */
  ghost predicate Added(t: Table, r: Table, hp: nat) {
    && hp < |t.hshtab| && t.hshtab[hp] == 0 && r.hshtab == t.hshtab[hp := |t.symtab| + 1]
    && |r.symtab| == |t.symtab| + 1 && t.symtab == r.symtab[..|t.symtab|] && r.symhash == t.symhash + [hp]
  }

  lemma {:induction false} EnterKeeps(t: Table, name: Name, hp: nat, dist: seq<nat>, u: nat, r: Table)
    requires Valid(t, dist) && name !in t.symtab && Passed(t, name, u) && hp == Slot(Hash(name), u) && t.hshtab[hp] == 0
    requires |t.symtab| < NSYM && r == Table(t.hshtab[hp := |t.symtab| + 1], t.symtab + [name], t.symhash + [hp])
    ensures Valid(r, dist + [u])
  {
    var n, more := |t.symtab|, dist + [u];
    forall k: nat | k < n + 1 ensures Reached(r, more, k) {
      if k < n {
        assert Reached(t, dist, k);
        forall v: nat | v < dist[k] ensures Earlier(r, Slot(Hash(t.symtab[k]), v), k) {
          assert Earlier(t, Slot(Hash(t.symtab[k]), v), k);
        }
      } else {
        forall v: nat | v < u ensures Earlier(r, Slot(Hash(name), v), n) {
          assert Other(t, name, Slot(Hash(name), v));
        }
      }
    }
    forall s: nat | s < SIZE ensures Filled(r, s) {
      assert Filled(t, s);
    }
  }

  // ---------------------------------------------------------------- taking symbols out again

  /** Zeroing the slot of the last symbol breaks no probe: none goes past a later symbol. */
  lemma {:induction false} RemoveKeeps(t: Table, dist: seq<nat>, n: nat, r: Table)
    requires Valid(t, dist) && n + 1 == |t.symtab| && t.symhash[n] < SIZE
    requires r == Table(t.hshtab[t.symhash[n] := 0], t.symtab[..n], t.symhash[..n])
    ensures Valid(r, dist[..n])
  {
    assert Reached(t, dist, n);
    forall k: nat | k < n ensures Reached(r, dist[..n], k) {
      assert Reached(t, dist, k);
      forall v: nat | v < dist[k] ensures Earlier(r, Slot(Hash(t.symtab[k]), v), k) {
        assert Earlier(t, Slot(Hash(t.symtab[k]), v), k);
      }
    }
    forall s: nat | s < SIZE ensures Filled(r, s) {
      assert Filled(t, s);
    }
  }

  /** The loops of `restore` and `load1`: the table is as it was when it had so many symbols. */
  method Restore(t: Table, saved: nat, ghost before: Table, ghost dist: seq<nat>)
    returns (r: Table, ghost dist': seq<nat>)
    requires Valid(t, dist) && Grown(before, t, saved)
    ensures r == before && Valid(r, dist')
  {
    r, dist' := t, dist;
    while |r.symtab| > saved
      invariant Valid(r, dist') && Grown(before, r, saved)
      decreases |r.symtab|
    {
      var n := |r.symtab| - 1;
      ghost var was := r;
      assert Reached(r, dist', n);
      r := Table(r.hshtab[r.symhash[n] := 0], r.symtab[..n], r.symhash[..n]);
      RemoveKeeps(was, dist', n, r);
      RemoveGrown(before, was, saved, dist', n, r);
      dist' := dist'[..n];
    }
    SameSize(before, r, saved);
  }

  /** The symbols up to saved and their slots are those of before; all later ones are in slots that were empty. */
  ghost predicate Grown(before: Table, t: Table, saved: nat) {
    && |before.symtab| == |before.symhash| == saved <= |t.symtab| == |t.symhash|
    && |t.hshtab| == |before.hshtab| == SIZE
    && t.symtab[..saved] == before.symtab && t.symhash[..saved] == before.symhash
    && forall s: nat | s < SIZE :: Kept(before, t, saved, s)
  }

  ghost predicate Kept(before: Table, t: Table, saved: nat, s: nat) {
    s < |t.hshtab| == |before.hshtab| && before.hshtab[s] == if t.hshtab[s] <= saved then t.hshtab[s] else 0
  }

  lemma {:induction false} GrownSelf(t: Table, dist: seq<nat>)
    requires Valid(t, dist)
    ensures Grown(t, t, |t.symtab|)
  {
    forall s: nat | s < SIZE ensures Kept(t, t, |t.symtab|, s) {
      assert Filled(t, s);
    }
  }

  lemma {:induction false} GrownMore(before: Table, t: Table, saved: nat, r: Table, hp: nat)
    requires Grown(before, t, saved) && Added(t, r, hp)
    ensures Grown(before, r, saved)
  {
    forall s: nat | s < SIZE ensures Kept(before, r, saved, s) {
      assert Kept(before, t, saved, s);
    }
  }

  lemma {:induction false} RemoveGrown(before: Table, t: Table, saved: nat, dist: seq<nat>, n: nat, r: Table)
    requires Grown(before, t, saved) && Valid(t, dist) && n + 1 == |t.symtab| && saved <= n && t.symhash[n] < SIZE
    requires r == Table(t.hshtab[t.symhash[n] := 0], t.symtab[..n], t.symhash[..n])
    ensures Grown(before, r, saved)
  {
    assert Reached(t, dist, n);
    forall s: nat | s < SIZE ensures Kept(before, r, saved, s) {
      assert Kept(before, t, saved, s);
    }
  }

  lemma {:induction false} SameSize(before: Table, r: Table, saved: nat)
    requires Grown(before, r, saved) && |r.symtab| == saved && |r.hshtab| == SIZE
    requires forall s: nat | s < SIZE :: Filled(r, s)
    ensures r == before
  {
    forall s: nat | s < SIZE ensures r.hshtab[s] == before.hshtab[s] {
      assert Kept(before, r, saved, s) && Filled(r, s);
    }
  }

  // ---------------------------------------------------------------- what the symbols are

  const EXTERN: int := 32
  const UNDEF: int := EXTERN + 0
  const TEXT: int := EXTERN + 2

  /** The type of a symbol and its value: where it is, or the size wanted of a common symbol, that is undefined. */
  datatype Def = Def(stype: int, svalue: int)

  datatype Symbol = Symbol(name: Name, def: Def)

  /** What is known of a symbol after one more mention: the first definition counts, of undefined ones the largest size,
      and a routine does not define what has a size. */
  function Step(d: Option<Def>, c: Def): (r: Def)
    ensures d.Some? && d.value.stype != UNDEF ==> r == d.value
  {
    if d.None? then c
    else if d.value.stype != UNDEF then d.value
    else if c.stype == UNDEF then Def(UNDEF, if c.svalue > d.value.svalue then c.svalue else d.value.svalue)
    else if d.value.svalue != 0 && c.stype == TEXT then d.value
    else c
  }

  function Get(m: map<Name, Def>, name: Name): Option<Def> {
    if name in m then Some(m[name]) else None
  }

  /** What is known after the first i symbols of a member. */
  ghost function Met(m: map<Name, Def>, syms: seq<Symbol>, i: nat): (r: map<Name, Def>)
    requires i <= |syms|
    ensures forall name | name in m :: name in r
  {
    if i == 0 then m
    else
      var before, s := Met(m, syms, i - 1), syms[i - 1];
      before[s.name := Step(Get(before, s.name), s.def)]
  }

  ghost predicate Undefined(d: Option<Def>) {
    d.Some? && d.value.stype == UNDEF
  }

  ghost predicate Defined(d: Option<Def>) {
    d.Some? && d.value.stype != UNDEF
  }

  /** Symbol i of the member defines what was undefined. */
  ghost predicate DefinesAt(m: map<Name, Def>, syms: seq<Symbol>, i: nat) {
    && i < |syms| && Undefined(Get(Met(m, syms, i), syms[i].name))
    && Defined(Get(Met(m, syms, i + 1), syms[i].name))
  }

  ghost predicate DefinesBefore(m: map<Name, Def>, syms: seq<Symbol>, n: nat) {
    exists i: nat | i < n :: DefinesAt(m, syms, i)
  }

  /** The first mention of a symbol: in the table, or else in the member. */
  ghost function First(m: map<Name, Def>, syms: seq<Symbol>, i: nat, name: Name): Option<Def>
    requires i <= |syms|
  {
    if i == 0 then Get(m, name)
    else
      var f := First(m, syms, i - 1, name);
      if f.None? && syms[i - 1].name == name then Some(syms[i - 1].def) else f
  }

  /** The symbol was undefined at first and the member defines it. */
  ghost predicate Answered(m: map<Name, Def>, syms: seq<Symbol>, name: Name) {
    Undefined(First(m, syms, |syms|, name)) && Defined(Get(Met(m, syms, |syms|), name))
  }

  lemma {:induction false} DefinedStays(m: map<Name, Def>, syms: seq<Symbol>, i: nat, j: nat, name: Name)
    requires i <= j <= |syms| && Defined(Get(Met(m, syms, i), name))
    ensures Get(Met(m, syms, j), name) == Get(Met(m, syms, i), name)
    decreases j - i
  {
    if i < j {
      DefinedStays(m, syms, i, j - 1, name);
    }
  }

  lemma {:induction false} FirstCounts(m: map<Name, Def>, syms: seq<Symbol>, i: nat, name: Name)
    requires i <= |syms|
    ensures First(m, syms, i, name).None? <==> name !in Met(m, syms, i)
    ensures Defined(First(m, syms, i, name)) ==> Met(m, syms, i)[name] == First(m, syms, i, name).value
  {
    if i > 0 {
      FirstCounts(m, syms, i - 1, name);
    }
  }

  lemma {:induction false} FirstStays(m: map<Name, Def>, syms: seq<Symbol>, i: nat, j: nat, name: Name)
    requires i <= j <= |syms| && First(m, syms, i, name).Some?
    ensures First(m, syms, j, name) == First(m, syms, i, name)
    decreases j - i
  {
    if i < j {
      FirstStays(m, syms, i, j - 1, name);
    }
  }

  lemma {:induction false} AnsweredSomewhere(m: map<Name, Def>, syms: seq<Symbol>, n: nat, name: Name) returns (i: nat)
    requires n <= |syms| && Undefined(First(m, syms, n, name)) && Defined(Get(Met(m, syms, n), name))
    ensures DefinesAt(m, syms, i)
    decreases n
  {
    assert n > 0;
    i := n - 1;
    FirstCounts(m, syms, i, name);
    if Defined(Get(Met(m, syms, i), name)) {
      FirstStays(m, syms, i, n, name);
      i := AnsweredSomewhere(m, syms, i, name);
    } else {
      assert syms[i].name == name;
    }
  }

  /** Some symbol of the member defines what was undefined if and only if some name was undefined at first and is
      defined in the end. */
  lemma {:induction false} AnswersIff(m: map<Name, Def>, syms: seq<Symbol>)
    ensures DefinesBefore(m, syms, |syms|) <==> exists name :: Answered(m, syms, name)
  {
    if i: nat :| i < |syms| && DefinesAt(m, syms, i) {
      var name, next: nat := syms[i].name, i + 1;
      FirstCounts(m, syms, i, name);
      FirstStays(m, syms, i, |syms|, name);
      DefinedStays(m, syms, next, |syms|, name);
      assert Answered(m, syms, name);
    }
    if name :| Answered(m, syms, name) {
      var i := AnsweredSomewhere(m, syms, |syms|, name);
    }
  }

  /** The symbol asks for no more of a common symbol of the table than was asked for already. */
  ghost predicate AsksNoMore(m: map<Name, Def>, s: Symbol) {
    Undefined(Get(m, s.name)) && s.def.stype == UNDEF ==> s.def.svalue <= m[s.name].svalue
  }

  /** Of a member that answers nothing the table keeps nothing but the sizes asked for. */
  lemma {:induction false} UnansweredValue(m: map<Name, Def>, syms: seq<Symbol>, i: nat, name: Name)
    requires i <= |syms| && name in m && !DefinesBefore(m, syms, |syms|)
    ensures var d := Met(m, syms, i)[name];
            && d.stype == m[name].stype && d.svalue >= m[name].svalue
            && (d == m[name] <==> forall j | 0 <= j < i && syms[j].name == name :: AsksNoMore(m, syms[j]))
  {
    if i > 0 {
      var last: nat := i - 1;
      UnansweredValue(m, syms, last, name);
      assert !DefinesAt(m, syms, last);
    }
  }

  /** The names after a member are those before and its own. */
  lemma {:induction false} MetNames(m: map<Name, Def>, syms: seq<Symbol>, i: nat, name: Name)
    requires i <= |syms|
    ensures name in Met(m, syms, i) <==> name in m || exists j :: 0 <= j < i && syms[j].name == name
  {
    if i > 0 {
      MetNames(m, syms, i - 1, name);
    }
  }

  // ---------------------------------------------------------------- what that comes to

  ghost predicate Mentions(syms: seq<Symbol>, i: nat, name: Name) {
    i < |syms| && syms[i].name == name
  }

  ghost predicate Asks(syms: seq<Symbol>, i: nat, name: Name) {
    Mentions(syms, i, name) && syms[i].def.stype == UNDEF
  }

  /** No symbol before f has the name. */
  ghost predicate FirstMention(syms: seq<Symbol>, f: nat, name: Name) {
    Mentions(syms, f, name) && forall i: nat | i < f :: !Mentions(syms, i, name)
  }

  /** The largest size asked for, in the table and by the first n symbols, is w. */
  ghost predicate Asked(m: map<Name, Def>, syms: seq<Symbol>, n: nat, name: Name, w: int) {
    && (name in m ==> m[name].svalue <= w)
    && (forall i: nat | i < n && Asks(syms, i, name) :: syms[i].def.svalue <= w)
    && ((name in m && m[name].svalue == w) || exists i: nat :: i < n && Asks(syms, i, name) && syms[i].def.svalue == w)
  }

  /** The name is undefined at first. */
  ghost predicate Open(m: map<Name, Def>, syms: seq<Symbol>, n: nat, name: Name) {
    if name in m then m[name].stype == UNDEF
    else exists f: nat :: f < n && FirstMention(syms, f, name) && syms[f].def.stype == UNDEF
  }

  /** Symbol j could be the definition: a routine only if no size has been asked for. */
  ghost predicate Candidate(m: map<Name, Def>, syms: seq<Symbol>, name: Name, j: nat) {
    Mentions(syms, j, name) && syms[j].def.stype != UNDEF && (syms[j].def.stype == TEXT ==> Asked(m, syms, j, name, 0))
  }

  /** It is the first that could be. */
  ghost predicate Defining(m: map<Name, Def>, syms: seq<Symbol>, name: Name, j: nat) {
    Candidate(m, syms, name, j) && forall i: nat | i < j :: !Candidate(m, syms, name, i)
  }

  /** What is known of a name after n symbols: its definition if it has one from the start, or else the first that
      could be one; without any it is undefined with the largest size asked for. */
  ghost predicate Told(m: map<Name, Def>, syms: seq<Symbol>, n: nat, name: Name, d: Def) {
    if name in m && m[name].stype != UNDEF then d == m[name]
    else if !Open(m, syms, n, name) then exists f: nat :: f < n && FirstMention(syms, f, name) && d == syms[f].def
    else if exists j: nat :: j < n && Candidate(m, syms, name, j) then
      exists j: nat :: j < n && Defining(m, syms, name, j) && d == syms[j].def
    else d.stype == UNDEF && Asked(m, syms, n, name, d.svalue)
  }

  lemma {:induction false} AskedSame(m: map<Name, Def>, syms: seq<Symbol>, i: nat, next: nat, name: Name, w: int)
    requires next == i + 1 && !Asks(syms, i, name)
    ensures Asked(m, syms, next, name, w) <==> Asked(m, syms, i, name, w)
  {
  }

  lemma {:induction false} AskedMore(m: map<Name, Def>, syms: seq<Symbol>, i: nat, next: nat, name: Name, w: int)
    requires next == i + 1 && Asks(syms, i, name) && Asked(m, syms, i, name, w)
    ensures Asked(m, syms, next, name, if syms[i].def.svalue > w then syms[i].def.svalue else w)
  {
  }

  lemma {:induction false} OneSize(m: map<Name, Def>, syms: seq<Symbol>, i: nat, name: Name, v: int, w: int)
    requires Asked(m, syms, i, name, v) && Asked(m, syms, i, name, w)
    ensures v == w
  {
  }

  /** The first that could be the definition. */
  lemma {:induction false} FirstCandidate(m: map<Name, Def>, syms: seq<Symbol>, name: Name, j: nat) returns (i: nat)
    requires Candidate(m, syms, name, j)
    ensures i <= j && Defining(m, syms, name, i)
  {
    i := j;
    if k: nat :| k < j && Candidate(m, syms, name, k) {
      i := FirstCandidate(m, syms, name, k);
    }
  }

  /** A symbol of another name. */
  lemma {:induction false} ToldSame(m: map<Name, Def>, syms: seq<Symbol>, i: nat, next: nat, name: Name, d: Def)
    requires next == i + 1 <= |syms| && syms[i].name != name && Told(m, syms, i, name, d)
    ensures Told(m, syms, next, name, d)
  {
    assert Open(m, syms, next, name) <==> Open(m, syms, i, name);
    AskedSame(m, syms, i, next, name, d.svalue);
  }

  /** A name that has not been met before. */
  lemma {:induction false} ToldNew(m: map<Name, Def>, syms: seq<Symbol>, i: nat, next: nat, name: Name)
    requires next == i + 1 <= |syms| && FirstMention(syms, i, name) && name !in m
    ensures Told(m, syms, next, name, syms[i].def)
  {
  }

  /** One more mention of a name that has been met. */
  lemma {:induction false} ToldMore(m: map<Name, Def>, syms: seq<Symbol>, i: nat, next: nat, name: Name, d: Def)
    requires next == i + 1 <= |syms| && syms[i].name == name && Told(m, syms, i, name, d)
    requires name in m || exists f: nat :: f < i && FirstMention(syms, f, name)
    ensures Told(m, syms, next, name, Step(Some(d), syms[i].def))
  {
    assert Open(m, syms, next, name) <==> Open(m, syms, i, name);
    if Open(m, syms, i, name) {
      if j: nat :| j < i && Candidate(m, syms, name, j) {
      } else {
        if syms[i].def.stype == UNDEF {
          AskedMore(m, syms, i, next, name, d.svalue);
        } else {
          AskedSame(m, syms, i, next, name, d.svalue);
          if Asked(m, syms, i, name, 0) {
            OneSize(m, syms, i, name, d.svalue, 0);
          }
          assert Candidate(m, syms, name, i) ==> Defining(m, syms, name, i);
        }
      }
    }
  }

  lemma {:induction false} MentionedFirst(syms: seq<Symbol>, j: nat, name: Name) returns (f: nat)
    requires Mentions(syms, j, name)
    ensures f <= j && FirstMention(syms, f, name)
  {
    f := j;
    if k: nat :| k < j && Mentions(syms, k, name) {
      f := MentionedFirst(syms, k, name);
    }
  }

  lemma {:induction false} MetBefore(m: map<Name, Def>, syms: seq<Symbol>, i: nat, name: Name)
    requires i <= |syms| && name in Met(m, syms, i)
    ensures name in m || exists f: nat :: f < i && FirstMention(syms, f, name)
  {
    MetNames(m, syms, i, name);
    if name !in m {
      var j: nat :| j < i && syms[j].name == name;
      var f := MentionedFirst(syms, j, name);
    }
  }

  /** What is known step by step is that. */
  lemma {:induction false} MetTold(m: map<Name, Def>, syms: seq<Symbol>, n: nat, name: Name)
    requires n <= |syms| && name in Met(m, syms, n)
    ensures Told(m, syms, n, name, Met(m, syms, n)[name])
    decreases n
  {
    if n > 0 {
      var i: nat := n - 1;
      if name in Met(m, syms, i) {
        MetTold(m, syms, i, name);
        if syms[i].name != name {
          ToldSame(m, syms, i, n, name, Met(m, syms, i)[name]);
        } else {
          MetBefore(m, syms, i, name);
          ToldMore(m, syms, i, n, name, Met(m, syms, i)[name]);
        }
      } else {
        MetNames(m, syms, i, name);
        ToldNew(m, syms, i, n, name);
      }
    }
  }

  lemma {:induction false} OpenFirst(m: map<Name, Def>, syms: seq<Symbol>, n: nat, name: Name)
    requires n <= |syms|
    ensures Open(m, syms, n, name) <==> Undefined(First(m, syms, n, name))
    ensures First(m, syms, n, name).None? ==> name !in m && forall i: nat | i < n :: !Mentions(syms, i, name)
  {
    if n > 0 {
      var i: nat := n - 1;
      OpenFirst(m, syms, i, name);
      if First(m, syms, i, name).None? && syms[i].name == name {
        assert FirstMention(syms, i, name);
      }
      if First(m, syms, i, name).Some? && name !in m {
        var f := FirstSeen(m, syms, i, name);
      }
    }
  }

  lemma {:induction false} FirstSeen(m: map<Name, Def>, syms: seq<Symbol>, n: nat, name: Name) returns (f: nat)
    requires n <= |syms| && name !in m && First(m, syms, n, name).Some?
    ensures f < n && Mentions(syms, f, name)
  {
    f := n - 1;
    if First(m, syms, n - 1, name).Some? {
      f := FirstSeen(m, syms, n - 1, name);
    }
  }

  /** A name is answered if and only if it is undefined at first and some symbol could be its definition. */
  lemma {:induction false} AnsweredOpen(m: map<Name, Def>, syms: seq<Symbol>, name: Name)
    ensures Answered(m, syms, name) <==> Open(m, syms, |syms|, name) && exists j: nat :: Candidate(m, syms, name, j)
  {
    var n := |syms|;
    OpenFirst(m, syms, n, name);
    MetNames(m, syms, n, name);
    if name in Met(m, syms, n) {
      MetTold(m, syms, n, name);
    }
    if j: nat :| Candidate(m, syms, name, j) {
      assert syms[j].name == name;
    }
  }

  /** What a member leaves known, and when it is loaded. */
  lemma {:induction false} AllTold(m: map<Name, Def>, syms: seq<Symbol>)
    ensures (exists name :: Answered(m, syms, name)) <==>
            exists name, j: nat :: Open(m, syms, |syms|, name) && Candidate(m, syms, name, j)
    ensures forall name | name in Met(m, syms, |syms|) :: Told(m, syms, |syms|, name, Met(m, syms, |syms|)[name])
    ensures forall name :: name in Met(m, syms, |syms|) <==> name in m || exists j: nat :: Mentions(syms, j, name)
  {
    forall name ensures name in Met(m, syms, |syms|) <==> name in m || exists j: nat :: Mentions(syms, j, name) {
      MetNames(m, syms, |syms|, name);
      if j: nat :| Mentions(syms, j, name) {
        assert syms[j].name == name;
      }
      if j: nat :| j < |syms| && syms[j].name == name {
        assert Mentions(syms, j, name);
      }
    }
    forall name | name in Met(m, syms, |syms|) ensures Told(m, syms, |syms|, name, Met(m, syms, |syms|)[name]) {
      MetTold(m, syms, |syms|, name);
    }
    if name :| Answered(m, syms, name) {
      AnsweredOpen(m, syms, name);
    }
    if name, j: nat :| Open(m, syms, |syms|, name) && Candidate(m, syms, name, j) {
      AnsweredOpen(m, syms, name);
    }
  }

  // ---------------------------------------------------------------- the symbols of a member

  /** The symbols of the table are those of the map. */
  ghost predicate Holds(symtab: seq<Name>, defs: seq<Def>, m: map<Name, Def>) {
    && |symtab| == |defs| && (forall name | name in m :: name in symtab)
    && forall k: nat | k < |symtab| :: HoldsAt(symtab, defs, m, k)
  }

  ghost predicate HoldsAt(symtab: seq<Name>, defs: seq<Def>, m: map<Name, Def>, k: nat) {
    k < |symtab| == |defs| && symtab[k] in m && m[symtab[k]] == defs[k]
  }

  lemma {:induction false} NamesHeld(symtab: seq<Name>, defs: seq<Def>, m: map<Name, Def>, name: Name)
    requires Holds(symtab, defs, m)
    ensures name in symtab <==> name in m
  {
    if name in symtab {
      var k :| 0 <= k < |symtab| && symtab[k] == name;
      assert HoldsAt(symtab, defs, m, k);
    }
  }

  lemma {:induction false} SizeHeld(symtab: seq<Name>, defs: seq<Def>, m: map<Name, Def>)
    requires Holds(symtab, defs, m) && forall i, j | 0 <= i < j < |symtab| :: symtab[i] != symtab[j]
    ensures |m| == |symtab|
  {
    forall name ensures name in m.Keys <==> name in symtab {
      NamesHeld(symtab, defs, m, name);
    }
    SetSize(symtab, m.Keys);
  }

  lemma {:induction false} SetSize(symtab: seq<Name>, names: set<Name>)
    requires forall i, j | 0 <= i < j < |symtab| :: symtab[i] != symtab[j]
    requires forall name :: name in names <==> name in symtab
    ensures |names| == |symtab|
  {
    if symtab == [] {
      assert names == {};
    } else {
      var last, front := symtab[|symtab| - 1], symtab[..|symtab| - 1];
      assert symtab == front + [last];
      SetSize(front, names - {last});
    }
  }

  lemma {:induction false} HoldsNew(symtab: seq<Name>, defs: seq<Def>, m: map<Name, Def>, s: Symbol)
    requires Holds(symtab, defs, m) && s.name !in symtab
    ensures s.name !in m && Holds(symtab + [s.name], defs + [s.def], m[s.name := s.def])
  {
    var more, defs', m' := symtab + [s.name], defs + [s.def], m[s.name := s.def];
    forall k: nat | k < |more| ensures HoldsAt(more, defs', m', k) {
      assert k < |symtab| ==> HoldsAt(symtab, defs, m, k);
    }
    forall name | name in m' ensures name in more {
      assert name in m ==> name in symtab;
      assert more[|symtab|] == s.name;
    }
  }

  lemma {:induction false} HoldsChanged(symtab: seq<Name>, defs: seq<Def>, m: map<Name, Def>, k: nat, d: Def)
    requires Holds(symtab, defs, m) && k < |symtab|
    requires forall i, j | 0 <= i < j < |symtab| :: symtab[i] != symtab[j]
    ensures symtab[k] in m && m[symtab[k]] == defs[k] && Holds(symtab, defs[k := d], m[symtab[k] := d])
  {
    assert HoldsAt(symtab, defs, m, k);
    var defs', m' := defs[k := d], m[symtab[k] := d];
    forall j: nat | j < |symtab| ensures HoldsAt(symtab, defs', m', j) {
      assert HoldsAt(symtab, defs, m, j);
    }
  }

  /** One mention of a symbol that is in the table. */
  method Merge(defs: seq<Def>, k: nat, c: Def) returns (defs': seq<Def>, defined: bool)
    requires k < |defs|
    ensures defs' == defs[k := Step(Some(defs[k]), c)]
    ensures defined <==> Undefined(Some(defs[k])) && Defined(Some(defs'[k]))
  {
    defs', defined := defs, false;
    var sp := defs[k];
    if sp.stype != UNDEF {
      return;
    }
    if c.stype == UNDEF {
      if c.svalue > sp.svalue {
        defs' := defs[k := sp.(svalue := c.svalue)];
      }
      return;
    }
    if sp.svalue != 0 && c.stype == TEXT {
      return;
    }
    defs', defined := defs[k := c], true;
  }

  /** The table holds what the map says, and the symbols entered since `before` can be taken out again. */
  ghost predicate Loading(before: Table, t: Table, defs: seq<Def>, m: map<Name, Def>, dist: seq<nat>) {
    Valid(t, dist) && Holds(t.symtab, defs, m) && Grown(before, t, |before.symtab|)
  }

  /** One external symbol looked up, and entered or merged. */
  method LoadSymbol(t: Table, defs: seq<Def>, s: Symbol, ghost m: map<Name, Def>, ghost dist: seq<nat>,
                    ghost before: Table)
    returns (r: Table, defs': seq<Def>, full: bool, defined: bool, ghost dist': seq<nat>)
    requires Loading(before, t, defs, m, dist)
    ensures full <==> s.name !in m && |m| == NSYM
    ensures full ==> r == t && defs' == defs && dist' == dist
    ensures !full ==> Loading(before, r, defs', m[s.name := Step(Get(m, s.name), s.def)], dist')
    ensures defined <==> !full && Undefined(Get(m, s.name)) && Defined(Some(Step(Get(m, s.name), s.def)))
  {
    ghost var u;
    var hp, new_;
    hp, u := Lookup(t, s.name, dist);
    r, new_, full, dist' := Enter(t, s.name, hp, dist, u);
    defs', defined := defs, false;
    NamesHeld(t.symtab, defs, m, s.name);
    SizeHeld(t.symtab, defs, m);
    if full {
      return;
    }
    if new_ {
      GrownMore(before, t, |before.symtab|, r, hp);
      HoldsNew(t.symtab, defs, m, s);
      defs' := defs + [s.def];
    } else {
      var k: nat := t.hshtab[hp] - 1;
      defs', defined := Merge(defs, k, s.def);
      HoldsChanged(t.symtab, defs, m, k, defs'[k]);
    }
  }

  lemma {:induction false} StillHolds(symtab: seq<Name>, defs: seq<Def>, m: map<Name, Def>, saved: nat,
                                      before: seq<Name>)
    returns (m': map<Name, Def>)
    requires Holds(symtab, defs, m) && saved <= |symtab| && before == symtab[..saved]
    ensures Holds(before, defs[..saved], m')
    ensures forall name :: name in m' <==> name in before
    ensures forall name | name in m' :: name in m && m'[name] == m[name]
  {
    forall k: nat | k < saved ensures before[k] in m && m[before[k]] == defs[k] {
      assert HoldsAt(symtab, defs, m, k);
    }
    m' := map name | name in m && name in before :: m[name];
    forall k: nat | k < saved ensures HoldsAt(before, defs[..saved], m', k) {
    }
  }

  lemma {:induction false} SameDefs(symtab: seq<Name>, defs: seq<Def>, m: map<Name, Def>, defs': seq<Def>,
                                    m': map<Name, Def>)
    requires Holds(symtab, defs, m) && Holds(symtab, defs', m') && m.Keys == m'.Keys
    ensures defs' == defs <==> forall name | name in m :: m'[name] == m[name]
  {
    forall k: nat | k < |symtab| ensures symtab[k] in m && m[symtab[k]] == defs[k] && m'[symtab[k]] == defs'[k] {
      assert HoldsAt(symtab, defs, m, k) && HoldsAt(symtab, defs', m', k);
    }
    if defs' == defs {
      forall name | name in m ensures m'[name] == m[name] {
        var k :| 0 <= k < |symtab| && symtab[k] == name;
      }
    }
  }

  lemma {:induction false} MetGrows(m: map<Name, Def>, syms: seq<Symbol>, i: nat, j: nat)
    requires i <= j <= |syms|
    ensures Met(m, syms, i).Keys <= Met(m, syms, j).Keys
    decreases j - i
  {
    if i < j {
      MetGrows(m, syms, i, j - 1);
    }
  }

  lemma {:induction false} NoRoom(m: map<Name, Def>, syms: seq<Symbol>, next: nat)
    requires next <= |syms| && |Met(m, syms, next)| > NSYM
    ensures |Met(m, syms, |syms|)| > NSYM
  {
    MetGrows(m, syms, next, |syms|);
    SubsetSize(Met(m, syms, next).Keys, Met(m, syms, |syms|).Keys);
  }

  lemma {:induction false} MetOne(m: map<Name, Def>, syms: seq<Symbol>, i: nat, next: nat)
    requires next == i + 1 <= |syms|
    ensures var before, s := Met(m, syms, i), syms[i];
            var d := Step(Get(before, s.name), s.def);
            && Met(m, syms, next) == before[s.name := d]
            && (s.name !in before ==> |Met(m, syms, next)| == |before| + 1)
            && (DefinesAt(m, syms, i) <==> Undefined(Get(before, s.name)) && Defined(Some(d)))
  {
    var before, s := Met(m, syms, i), syms[i];
    assert Met(m, syms, next).Keys == before.Keys + {s.name};
  }

  lemma {:induction false} DefinesOne(m: map<Name, Def>, syms: seq<Symbol>, i: nat, next: nat)
    requires next == i + 1
    ensures DefinesBefore(m, syms, next) <==> DefinesBefore(m, syms, i) || DefinesAt(m, syms, i)
  {
  }

  /** The next external symbol of a file. */
  method LoadNext(t: Table, defs: seq<Def>, syms: seq<Symbol>, i: nat, ndef: nat, ghost next: nat,
                  ghost m: map<Name, Def>, ghost dist: seq<nat>, ghost before: Table)
    returns (r: Table, defs': seq<Def>, full: bool, ndef': nat, ghost dist': seq<nat>)
    requires next == i + 1 <= |syms| && Loading(before, t, defs, Met(m, syms, i), dist)
    requires ndef > 0 <==> DefinesBefore(m, syms, i)
    ensures full ==> r == t && dist' == dist && |Met(m, syms, next)| > NSYM
    ensures !full ==> Loading(before, r, defs', Met(m, syms, next), dist')
    ensures !full ==> (ndef' > 0 <==> DefinesBefore(m, syms, next))
  {
    var defined;
    r, defs', full, defined, dist' := LoadSymbol(t, defs, syms[i], Met(m, syms, i), dist, before);
    ndef' := if defined then ndef + 1 else ndef;
    MetOne(m, syms, i, next);
    DefinesOne(m, syms, i, next);
  }

  /** All external symbols of a file in turn; there is no room exactly if all the names are more than NSYM. */
  method LoadSymbols(t: Table, defs: seq<Def>, syms: seq<Symbol>, ghost m: map<Name, Def>, ghost dist: seq<nat>)
    returns (r: Table, defs': seq<Def>, full: bool, ndef: nat, ghost dist': seq<nat>)
    requires Valid(t, dist) && Holds(t.symtab, defs, m)
    ensures Valid(r, dist') && (full <==> |Met(m, syms, |syms|)| > NSYM)
    ensures !full ==> Loading(t, r, defs', Met(m, syms, |syms|), dist')
    ensures !full ==> (ndef > 0 <==> DefinesBefore(m, syms, |syms|))
  {
    r, defs', full, ndef := t, defs, false, 0;
    dist' := dist;
    GrownSelf(t, dist);
    var i: nat := 0;
    while i < |syms|
      invariant i <= |syms| && Loading(t, r, defs', Met(m, syms, i), dist')
      invariant ndef > 0 <==> DefinesBefore(m, syms, i)
    {
      ghost var next: nat := i + 1;
      r, defs', full, ndef, dist' := LoadNext(r, defs', syms, i, ndef, next, m, dist', t);
      if full {
        NoRoom(m, syms, next);
        return;
      }
      i := i + 1;
    }
    LoadedSize(t, r, defs', Met(m, syms, i), dist');
  }

  lemma {:induction false} LoadedSize(before: Table, t: Table, defs: seq<Def>, m: map<Name, Def>, dist: seq<nat>)
    requires Loading(before, t, defs, m, dist)
    ensures Valid(t, dist) && |m| <= NSYM
  {
    SizeHeld(t.symtab, defs, m);
  }

  /** What the table holds of a member that answers nothing. */
  lemma {:induction false} Unanswered(m: map<Name, Def>, syms: seq<Symbol>, symtab: seq<Name>, defs: seq<Def>,
                                      defs': seq<Def>, m': map<Name, Def>)
    requires Holds(symtab, defs, m) && Holds(symtab, defs', m') && forall j :: !DefinesAt(m, syms, j)
    requires forall name | name in m' :: name in symtab && Get(Met(m, syms, |syms|), name) == Some(m'[name])
    ensures m'.Keys == m.Keys
    ensures forall name | name in m :: m'[name].stype == m[name].stype && m'[name].svalue >= m[name].svalue
    ensures defs' == defs <==> forall s | s in syms :: AsksNoMore(m, s)
  {
    forall name ensures name in m' <==> name in m {
      NamesHeld(symtab, defs, m, name);
      NamesHeld(symtab, defs', m', name);
    }
    SameDefs(symtab, defs, m, defs', m');
    forall name | name in m
      ensures m'[name].stype == m[name].stype && m'[name].svalue >= m[name].svalue
      ensures m'[name] == m[name] <==> forall j | 0 <= j < |syms| && syms[j].name == name :: AsksNoMore(m, syms[j])
    {
      UnansweredValue(m, syms, |syms|, name);
    }
    assert (forall s | s in syms :: AsksNoMore(m, s)) <==> forall j | 0 <= j < |syms| :: AsksNoMore(m, syms[j]);
    forall j | 0 <= j < |syms| && !AsksNoMore(m, syms[j])
      ensures m'[syms[j].name] != m[syms[j].name]
    {
    }
  }

  /** `load1`: the external symbols of a file or of a member of a library looked up and entered. A member is loaded if
      and only if some symbol undefined at first is defined by it. If it is not, the table is what it was, but for the
      sizes of common symbols of which the member asks for more. */
  method LoadMember(t: Table, defs: seq<Def>, syms: seq<Symbol>, library: bool, ghost m: map<Name, Def>,
                    ghost dist: seq<nat>)
    returns (r: Table, defs': seq<Def>, loaded: bool, full: bool, ghost m': map<Name, Def>, ghost dist': seq<nat>)
    requires Valid(t, dist) && Holds(t.symtab, defs, m)
    ensures Valid(r, dist')
    ensures full <==> |Met(m, syms, |syms|)| > NSYM
    ensures !full ==> Holds(r.symtab, defs', m') && (loaded <==> !library || exists name :: Answered(m, syms, name))
    ensures !full ==>
              (loaded <==>
               !library || exists name, j: nat :: Open(m, syms, |syms|, name) && Candidate(m, syms, name, j))
    ensures !full ==> forall name | name in m' :: Told(m, syms, |syms|, name, m'[name])
    ensures !full && loaded ==> forall name :: name in m' <==> name in m || exists j: nat :: Mentions(syms, j, name)
    ensures !full && loaded ==> m' == Met(m, syms, |syms|)
    ensures !full && !loaded ==> r == t && (defs' == defs <==> forall s | s in syms :: AsksNoMore(m, s))
    ensures !full && !loaded ==>
              && m'.Keys == m.Keys
              && (forall name | name in m :: m'[name] == Met(m, syms, |syms|)[name])
              && forall name | name in m :: m'[name].stype == m[name].stype && m'[name].svalue >= m[name].svalue
  {
    var savindex, ndef := |t.symtab|, 0;
    loaded := false;
    r, defs', full, ndef, dist' := LoadSymbols(t, defs, syms, m, dist);
    m' := Met(m, syms, |syms|);
    if full {
      return;
    }
    AnswersIff(m, syms);
    AllTold(m, syms);
    if !library || ndef > 0 {
      loaded := true;
    } else {
      ghost var all, most := r.symtab, defs';
      r, dist' := Restore(r, savindex, t, dist');
      m' := StillHolds(all, most, m', savindex, t.symtab);
      defs' := defs'[..savindex];
      Unanswered(m, syms, t.symtab, defs, defs', m');
    }
  }

  // ---------------------------------------------------------------- from the empty table

  /** A common symbol of 2 bytes, and then a member of a library that mentions it with 10: the member is not loaded, and
      the symbol has 10 bytes from then on. */
  method SizeOfUnloaded() returns (t: Table, defs: seq<Def>, loaded: bool)
    ensures !loaded && t.symtab == ["x"] && defs == [Def(UNDEF, 10)]
  {
    var small, large := Symbol("x", Def(UNDEF, 2)), Symbol("x", Def(UNDEF, 10));
    ghost var m: map<Name, Def> := map[];
    ghost var dist: seq<nat> := [];
    var full;
    t, defs := Table(seq(SIZE, _ => 0), [], []), [];
    EmptyTable(t);
    var file, member := [small], [large];
    OneMention(m, small);
    t, defs, loaded, full, m, dist := LoadMember(t, defs, file, false, m, dist);
    OneName(t, defs, m, dist, "x");
    OneMention(m, large);
    assert !AsksNoMore(m, large) && large in member;
    t, defs, loaded, full, m, dist := LoadMember(t, defs, member, true, m, dist);
    OneName(t, defs, m, dist, "x");
  }

  lemma {:induction false} OneName(t: Table, defs: seq<Def>, m: map<Name, Def>, dist: seq<nat>, name: Name)
    requires Valid(t, dist) && Holds(t.symtab, defs, m) && m.Keys == {name}
    ensures t.symtab == [name] && defs == [m[name]]
  {
    SizeHeld(t.symtab, defs, m);
    assert HoldsAt(t.symtab, defs, m, 0);
  }

  lemma {:induction false} OneMention(m: map<Name, Def>, s: Symbol)
    requires s.def.stype == UNDEF
    ensures Met(m, [s], 1) == m[s.name := Step(Get(m, s.name), s.def)]
    ensures forall name :: !Answered(m, [s], name)
  {
    assert Met(m, [s], 0) == m;
    forall name ensures !Answered(m, [s], name) {
      assert First(m, [s], 0, name) == Get(m, name);
      FirstCounts(m, [s], 1, name);
    }
  }
}
