/** `m_out` and `m_in` (mout.c): numbers as text, in groups of ten digits. */
module MpText {
  import opened Arithmetic
  import opened MpDigits
  import opened MpAdd
  import opened Mp

  /** What reading from position i on makes of the number v and the sign so far; None at end of file. */
  datatype Number = Eof(unsigned: int) | Got(value: int)

  ghost function Scan(s: string, i: nat, base: int, v: int, sign: int): Number
    requires i <= |s|
    decreases |s| - i
  {
    if i == |s| then Eof(v)
    else match s[i]
      case '\\' => if i + 1 == |s| then Eof(v) else Scan(s, i + 2, base, v, sign)
      case '\t' => Got(v * sign)
      case '\n' => Got(v * sign)
      case ' ' => Scan(s, i + 1, base, v, sign)
      case '-' => Scan(s, i + 1, base, v, -sign)
      case c => if '0' <= c <= '9' then Scan(s, i + 1, base, v * base + (c as int - '0' as int), sign)
          else Got(v * sign)
  }

  // ---------------------------------------------------------------- what a number is written like

  /** A digit, a space, a minus sign, or a character behind a backslash, that is passed over. */
  datatype Piece = Digit(c: char) | Blank | Minus | Skipped(c: char)

  function PieceText(p: Piece): (t: string)
    ensures |t| > 0
  {
    match p
    case Digit(c) => [c]
    case Blank => " "
    case Minus => "-"
    case Skipped(c) => ['\\', c]
  }

  /** The first k pieces. */
  function TextOf(ps: seq<Piece>, k: nat): string
    requires k <= |ps|
  {
    if k == 0 then "" else TextOf(ps, k - 1) + PieceText(ps[k - 1])
  }

  /** The digits are decimal ones. */
  predicate Proper(ps: seq<Piece>) {
    forall k | 0 <= k < |ps| && ps[k].Digit? :: '0' <= ps[k].c <= '9'
  }

  /** Their number in a base. */
  function ValueOf(ps: seq<Piece>, base: int, k: nat): int
    requires k <= |ps|
  {
    if k == 0 then 0
    else if ps[k - 1].Digit? then ValueOf(ps, base, k - 1) * base + (ps[k - 1].c as int - '0' as int)
    else ValueOf(ps, base, k - 1)
  }

  /** Every minus sign turns the sign. */
  function SignOf(ps: seq<Piece>, k: nat): (sign: int)
    requires k <= |ps|
    ensures sign == 1 || sign == -1
  {
    if k == 0 then 1 else if ps[k - 1].Minus? then -SignOf(ps, k - 1) else SignOf(ps, k - 1)
  }

  /** Nothing, or a backslash with nothing behind it: the end of the file. */
  predicate FileEnds(tail: string) {
    tail == "" || tail == "\\"
  }

  /** A character that belongs to no piece. */
  predicate NumberEnds(tail: string) {
    tail != "" && tail[0] != ' ' && tail[0] != '-' && tail[0] != '\\' && !('0' <= tail[0] <= '9')
  }

  /** At position i of s stand the piece and more. */
  ghost predicate PieceAt(s: string, i: nat, p: Piece) {
    i + |PieceText(p)| <= |s| && s[i] == PieceText(p)[0] && (p.Skipped? ==> s[i + 1] == p.c)
  }

  lemma {:induction false} LastPiece(s: string, ps: seq<Piece>, k: nat, next: nat, tail: string, i: nat)
    requires next == k + 1 <= |ps| && s == TextOf(ps, next) + tail && i == |TextOf(ps, k)|
    ensures PieceAt(s, i, ps[k]) && s == TextOf(ps, k) + (PieceText(ps[k]) + tail)
    ensures |TextOf(ps, next)| == i + |PieceText(ps[k])|
  {
  }

  /** The pieces are read one by one. */
  lemma {:induction false} ScanPieces(s: string, ps: seq<Piece>, base: int, k: nat, tail: string)
    requires Proper(ps) && k <= |ps| && s == TextOf(ps, k) + tail
    ensures Scan(s, 0, base, 0, 1) == Scan(s, |TextOf(ps, k)|, base, ValueOf(ps, base, k), SignOf(ps, k))
    decreases k
  {
    if k > 0 {
      var n: nat, i: nat := k - 1, |TextOf(ps, k - 1)|;
      LastPiece(s, ps, n, k, tail, i);
      ScanPieces(s, ps, base, n, PieceText(ps[n]) + tail);
      ScanPiece(s, ps[n], base, i, ValueOf(ps, base, n), SignOf(ps, n));
    }
  }

  lemma {:induction false} ScanPiece(s: string, p: Piece, base: int, i: nat, v: int, sign: int)
    requires PieceAt(s, i, p) && (p.Digit? ==> '0' <= p.c <= '9')
    ensures Scan(s, i, base, v, sign) ==
            Scan(s, i + |PieceText(p)|, base, if p.Digit? then v * base + (p.c as int - '0' as int) else v,
                 if p.Minus? then -sign else sign)
  {
  }

  /** What is read is the number of the pieces, with its sign unless the file ends. */
  lemma {:induction false} ScanIs(s: string, ps: seq<Piece>, base: int, tail: string)
    requires Proper(ps) && s == TextOf(ps, |ps|) + tail
    ensures FileEnds(tail) ==> Scan(s, 0, base, 0, 1) == Eof(ValueOf(ps, base, |ps|))
    ensures NumberEnds(tail) ==> Scan(s, 0, base, 0, 1) == Got(ValueOf(ps, base, |ps|) * SignOf(ps, |ps|))
  {
    ScanPieces(s, ps, base, |ps|, tail);
    var i := |TextOf(ps, |ps|)|;
    assert tail != "" ==> s[i] == tail[0];
  }

  /** Every text is made of pieces up to an end. */
  lemma {:induction false} SomePieces(s: string, ps0: seq<Piece>, tail0: string) returns (ps: seq<Piece>, tail: string)
    requires Proper(ps0) && s == TextOf(ps0, |ps0|) + tail0
    ensures Proper(ps) && s == TextOf(ps, |ps|) + tail && (FileEnds(tail) || NumberEnds(tail))
    decreases |tail0|
  {
    ps, tail := ps0, tail0;
    if !FileEnds(tail) && !NumberEnds(tail) {
      var p := if tail[0] == ' ' then Blank else if tail[0] == '-' then Minus
               else if tail[0] == '\\' then Skipped(tail[1]) else Digit(tail[0]);
      var rest := tail[|PieceText(p)|..];
      assert tail == PieceText(p) + rest;
      PieceMore(s, ps, p, rest);
      ps, tail := SomePieces(s, ps + [p], rest);
    }
  }

  lemma {:induction false} PieceMore(s: string, ps: seq<Piece>, p: Piece, rest: string)
    requires s == TextOf(ps, |ps|) + (PieceText(p) + rest)
    ensures s == TextOf(ps + [p], |ps + [p]|) + rest
  {
    var more := ps + [p];
    PiecesSame(ps, more, |ps|);
    assert TextOf(more, |more|) == TextOf(ps, |ps|) + PieceText(p);
  }

  lemma {:induction false} PiecesSame(ps: seq<Piece>, more: seq<Piece>, k: nat)
    requires k <= |ps| <= |more| && more[..|ps|] == ps
    ensures TextOf(more, k) == TextOf(ps, k)
  {
    if k > 0 {
      PiecesSame(ps, more, k - 1);
    }
  }

  // ---------------------------------------------------------------- reading

  /** `m_in`: the number that the digits say, with a sign turned by every minus sign; at the end of the file the sign
      has not been put. */
  method MIn(s: string, base: int) returns (a: Mint, eof: bool)
    requires 2 <= base <= 10
    ensures Valid(a)
    ensures Scan(s, 0, base, 0, 1) == if eof then Eof(Z(a)) else Got(Z(a))
    ensures exists ps, tail ::
              && Proper(ps) && s == TextOf(ps, |ps|) + tail && (if eof then FileEnds(tail) else NumberEnds(tail))
              && Z(a) == ValueOf(ps, base, |ps|) * if eof then 1 else SignOf(ps, |ps|)
  {
    ghost var ps, tail := SomePieces(s, [], s);
    ScanIs(s, ps, base, tail);
    a, eof := ReadNumber(s, base);
  }

  /** The loop of `m_in`. */
  method ReadNumber(s: string, base: int) returns (a: Mint, eof: bool)
    requires 2 <= base <= 10
    ensures Valid(a)
    ensures Scan(s, 0, base, 0, 1) == if eof then Eof(Z(a)) else Got(Z(a))
  {
    a := Mint(0, []);
    var x, sign, i := Mint(0, []), 1, 0;
    while i < |s|
      invariant i <= |s| && Valid(a) && Valid(x) && Z(a) == Z(x) && (sign == 1 || sign == -1)
      invariant Scan(s, 0, base, 0, 1) == Scan(s, i, base, Z(a), sign)
    {
      var c := s[i];
      i := i + 1;
      if c == '\\' {
        if i < |s| {
          i := i + 1;
        }
      } else if c == '\t' || c == '\n' {
        Sign(Z(a), sign);
        return Mint(a.len * sign, a.val), false;
      } else if c == ' ' {
      } else if c == '-' {
        sign := -sign;
      } else if '0' <= c <= '9' {
        a := Accumulate(x, base, c as int - '0' as int);
        x := a;
      } else {
        Sign(Z(a), sign);
        return Mint(a.len * sign, a.val), false;
      }
    }
    eof := true;
  }

  lemma {:induction false} Sign(x: int, sign: int)
    requires sign == 1 || sign == -1
    ensures x * sign == if sign == 1 then x else -x
  {
  }

  method Accumulate(x: Mint, base: int, digit: int) returns (a: Mint)
    requires Valid(x) && 2 <= base <= 10 && 0 <= digit <= 9
    ensures Valid(a) && Z(a) == Z(x) * base + digit
  {
    assert Val([base], 0) == 0 && Val([digit], 0) == 0 && Pow(0) == 1;
    a := Mult(x, Mint(1, [base]));
    a := Madd(a, Mint(1, [digit]));
  }

  // ---------------------------------------------------------------- writing

  ghost predicate DigitOrSpace(c: char, base: int) {
    c == ' ' || 0 <= c as int - '0' as int < base
  }

  /** What one digit in front of the run from i to e would weigh. */
  ghost function Weight(s: string, i: nat, e: nat, base: int): int
    requires i <= e <= |s|
    decreases e - i
  {
    if i == e then 1 else if s[i] == ' ' then Weight(s, i + 1, e, base) else base * Weight(s, i + 1, e, base)
  }

  ghost function Amount(s: string, i: nat, e: nat, base: int): int
    requires i <= e <= |s|
    decreases e - i
  {
    if i == e then 0 else if s[i] == ' ' then Amount(s, i + 1, e, base)
    else (s[i] as int - '0' as int) * Weight(s, i + 1, e, base) + Amount(s, i + 1, e, base)
  }

  /** Reading a run of digits and spaces up to the end of the line. */
  lemma {:induction false} ScanRun(s: string, i: nat, e: nat, base: int, v: int, sign: int)
    requires i <= e < |s| && s[e] == '\n' && base <= 10
    requires forall k | i <= k < e :: DigitOrSpace(s[k], base)
    ensures Scan(s, i, base, v, sign) == Got((v * Weight(s, i, e, base) + Amount(s, i, e, base)) * sign)
    decreases e - i
  {
    if i < e {
      assert DigitOrSpace(s[i], base);
      var next: nat := i + 1;
      if s[i] == ' ' {
        ScanRun(s, next, e, base, v, sign);
      } else {
        var d := s[i] as int - '0' as int;
        var w, more := v * base + d, Weight(s, next, e, base);
        ScanDigit(s, i, base, v, sign, d, next, w);
        ScanRun(s, next, e, base, w, sign);
        Shift(v, base, d, more);
        assert w * more + Amount(s, next, e, base) == v * Weight(s, i, e, base) + Amount(s, i, e, base);
      }
    }
  }

  lemma {:induction false} ScanDigit(s: string, i: nat, base: int, v: int, sign: int, d: int, next: nat, w: int)
    requires i < |s| && d == s[i] as int - '0' as int && 0 <= d <= 9 && next == i + 1 && w == v * base + d
    ensures Scan(s, i, base, v, sign) == Scan(s, next, base, w, sign)
  {
  }

  lemma {:induction false} Shift(v: int, base: int, d: int, w: int)
    ensures (v * base + d) * w == v * (base * w) + d * w
  {
    assert (v * base) * w == v * (base * w);
  }

  lemma {:induction false} RunSame(s: string, i: nat, e: nat, t: string, i': nat, e': nat, base: int)
    requires i <= e <= |s| && i' <= e' <= |t| && e - i == e' - i'
    requires forall k, k' | i <= k < e && k' - k == i' - i :: s[k] == t[k']
    ensures Weight(s, i, e, base) == Weight(t, i', e', base)
    ensures Amount(s, i, e, base) == Amount(t, i', e', base)
    decreases e - i
  {
    if i < e {
      assert s[i] == t[i'];
      RunSame(s, i + 1, e, t, i' + 1, e', base);
    }
  }

  ghost function Eight(k: nat): int {
    if k == 0 then 1 else 8 * Eight(k - 1)
  }

  lemma {:induction false} EightBound(n: nat)
    ensures Pow(n) == Eight(5 * n)
  {
    if n > 0 {
      EightBound(n - 1);
      var k := 5 * (n - 1);
      assert Eight(k + 1) == 8 * Eight(k) && Eight(k + 2) == 8 * Eight(k + 1);
      assert Eight(k + 5) == 8 * Eight(k + 4) && Eight(k + 4) == 8 * Eight(k + 3) && Eight(k + 3) == 8 * Eight(k + 2);
      assert 5 * n == k + 5;
    }
  }

  /** The buffer being filled from the back: what stands from i on, and what is still to come. */
  ghost predicate Says(s: string, i: nat, e: nat, base: int, x: Mint, value: int) {
    && Valid(x) && Canon(x) && 0 <= x.len
    && i <= e < |s|
    && (forall k | i <= k < e :: DigitOrSpace(s[k], base))
    && value == Z(x) * Weight(s, i, e, base) + Amount(s, i, e, base)
  }

  /** Counted from the end e of the text, every eleventh character is a space, and no other one. */
  ghost predicate Grouped(s: string, i: int, e: int) {
    0 <= i <= e <= |s| && forall k | i <= k < e :: s[k] == ' ' <==> (e - k) % 11 == 0
  }

  lemma {:induction false} GroupedMore(s: string, i: int, e: int, s': string, next: int)
    requires Grouped(s, i, e) && next == i - 1 >= 0 && |s'| == |s| && forall k | i <= k < e :: s'[k] == s[k]
    requires s'[next] == ' ' <==> (e - next) % 11 == 0
    ensures Grouped(s', next, e)
  {
  }

  /** How much was put, and a bound on what is left. */
  ghost predicate Room(i: nat, e: nat, x: int, digits: nat, spaces: nat, xlen: nat) {
    && e == 7 * xlen - 1 && i + digits + spaces == e && digits <= 5 * xlen
    && 0 <= x < Eight(5 * xlen - digits)
  }

  /** While anything is left there is room for a digit and a space. */
  lemma {:induction false} RoomLeft(i: nat, e: nat, x: int, digits: nat, spaces: nat, xlen: nat)
    requires Room(i, e, x, digits, spaces, xlen) && 0 < x && 10 * spaces <= digits
    ensures digits < 5 * xlen && 0 < i
  {
    assert Eight(0) == 1;
  }

  lemma {:induction false} RoomStep(i: nat, e: nat, x: int, digits: nat, spaces: nat, xlen: nat, x': int, base: int,
                                    r: int)
    requires Room(i, e, x, digits, spaces, xlen) && 0 < x && 10 * spaces <= digits
    requires 8 <= base && x == x' * base + r && 0 <= r < base && 0 <= x'
    ensures 0 < i && Room(i - 1, e, x', digits + 1, spaces, xlen) && x' < x
  {
    RoomLeft(i, e, x, digits, spaces, xlen);
    var k := 5 * xlen - digits;
    assert Eight(k) == 8 * Eight(k - 1);
    MulLe(8, base, x');
  }

  /** One digit. */
  method PutDigit(s: string, i: nat, e: nat, base: int, x: Mint, ghost value: int)
    returns (s': string, x': Mint, r: int)
    requires 8 <= base <= 10 && 0 < i && Says(s, i, e, base, x, value)
    ensures |s'| == |s| && Says(s', i - 1, e, base, x', value)
    ensures Z(x) == Z(x') * base + r && 0 <= r < base && 0 <= Z(x')
    ensures s' == s[i - 1 := (r + '0' as int) as char]
  {
    x', r := Sdiv(x, base);
    s' := s[i - 1 := (r + '0' as int) as char];
    RunSame(s, i, e, s', i, e, base);
    Shift(Z(x'), base, r, Weight(s, i, e, base));
  }

  lemma {:induction false} NoSpaceHere(i: int, e: int, spaces: nat, k: int)
    requires 0 <= k < 10 && i + 11 * spaces + k == e
    ensures (e - (i - 1)) % 11 != 0
  {
    assert e - (i - 1) == 11 * spaces + (k + 1);
  }

  /** Up to ten digits. */
  method PutGroup(s0: string, i0: nat, e: nat, base: int, x0: Mint, ghost value: int, ghost digits0: nat,
                  ghost spaces: nat, ghost xlen: nat)
    returns (s: string, i: nat, x: Mint, ghost digits: nat)
    requires 8 <= base <= 10 && Says(s0, i0, e, base, x0, value) && x0.len > 0
    requires Room(i0, e, Z(x0), digits0, spaces, xlen) && 10 * spaces == digits0 && Grouped(s0, i0, e)
    ensures Grouped(s, i, e) && i < i0 && (x.len == 0 ==> s[i] != '0' && s[i] != ' ')
    ensures |s| == |s0| && Says(s, i, e, base, x, value) && Room(i, e, Z(x), digits, spaces, xlen)
    ensures digits0 < digits && (x.len > 0 ==> digits == digits0 + 10)
    ensures Z(x) < Z(x0)
  {
    s, i, x, digits := s0, i0, x0, digits0;
    var k := 0;
    while k < 10 && x.len > 0
      invariant 0 <= k <= 10 && |s| == |s0| && Says(s, i, e, base, x, value)
      invariant Room(i, e, Z(x), digits, spaces, xlen) && digits == digits0 + k
      invariant Grouped(s, i, e) && i == i0 - k && (x.len == 0 ==> s[i] != '0' && s[i] != ' ')
      invariant if k == 0 then x == x0 else Z(x) < Z(x0)
    {
      ZeroLength(x);
      RoomLeft(i, e, Z(x), digits, spaces, xlen);
      var r;
      ghost var was, before := Z(x), s;
      s, x, r := PutDigit(s, i, e, base, x, value);
      RoomStep(i, e, was, digits, spaces, xlen, Z(x), base, r);
      NoSpaceHere(i, e, spaces, k);
      GroupedMore(before, i, e, s, i - 1);
      i := i - 1;
      k, digits := k + 1, digits + 1;
    }
  }

  /** Groups of ten digits with a space between two groups. */
  method PutGroups(s0: string, e: nat, base: int, x0: Mint) returns (s: string, i: nat)
    requires 8 <= base <= 10 && Valid(x0) && Canon(x0) && x0.len > 0 && e == 7 * x0.len - 1 && |s0| == e + 1
    ensures 0 < i <= e < |s| == |s0| && (forall k | i <= k < e :: DigitOrSpace(s[k], base))
    ensures i < e && Z(x0) == Amount(s, i, e, base) && Grouped(s, i, e) && s[i] != '0' && s[i] != ' '
  {
    var x := x0;
    s, i := s0, e;
    ghost var digits, spaces := 0, 0;
    ValBound(x0.val, x0.len);
    EightBound(x0.len);
    assert Weight(s, i, e, base) == 1 && Amount(s, i, e, base) == 0;
    while x.len > 0
      invariant |s| == |s0| && Says(s, i, e, base, x, Z(x0)) && Room(i, e, Z(x), digits, spaces, x0.len)
      invariant if x.len > 0 then 10 * spaces == digits else 10 * spaces < digits
      invariant Grouped(s, i, e) && (x.len == 0 ==> i < e && s[i] != '0' && s[i] != ' ')
      decreases Z(x)
    {
      s, i, x, digits := PutGroup(s, i, e, base, x, Z(x0), digits, spaces, x0.len);
      if x.len > 0 {
        ZeroLength(x);
        RoomLeft(i, e, Z(x), digits, spaces, x0.len);
        s, i := PutSpace(s, i, e, base, x, Z(x0), spaces);
        spaces := spaces + 1;
      }
    }
  }

  method PutSpace(s0: string, i0: nat, e: nat, base: int, x: Mint, ghost value: int, ghost spaces: nat)
    returns (s: string, i: nat)
    requires 0 < i0 && Says(s0, i0, e, base, x, value) && Grouped(s0, i0, e) && e - i0 == 11 * spaces + 10
    ensures Grouped(s, i, e)
    ensures |s| == |s0| && i == i0 - 1 && Says(s, i, e, base, x, value)
  {
    i := i0 - 1;
    s := s0[i := ' '];
    SpaceSays(s0, i0, e, base, x, value, s, i);
    SpaceHere(i, e, spaces + 1);
    GroupedMore(s0, i0, e, s, i);
  }

  lemma {:induction false} SpaceSays(s0: string, i0: nat, e: nat, base: int, x: Mint, value: int, s: string, i: nat)
    requires 0 < i0 && Says(s0, i0, e, base, x, value) && i == i0 - 1 && s == s0[i := ' ']
    ensures Says(s, i, e, base, x, value)
  {
    RunSame(s0, i0, e, s, i0, e, base);
  }

  lemma {:induction false} SpaceHere(i: int, e: int, spaces: nat)
    requires e - i == 11 * spaces
    ensures (e - i) % 11 == 0
  {
  }

  /** The text between i and e, as it is read back. */
  lemma {:induction false} ReadBack(s: string, i: nat, e: nat, base: int, out: string, k: nat, sign: int)
    requires i <= e < |s| && base <= 10 && (forall j | i <= j < e :: DigitOrSpace(s[j], base))
    requires |out| == k + (e - i) + 1 && out[|out| - 1] == '\n'
    requires forall j, j' | i <= j < e && j' - j == k - i :: s[j] == out[j']
    ensures Scan(out, k, base, 0, sign) == Got(Amount(s, i, e, base) * sign)
  {
    var e' := k + (e - i);
    RunSame(s, i, e, out, k, e', base);
    forall j' | k <= j' < e' ensures DigitOrSpace(out[j'], base) {
      var j := j' - k + i;
      assert s[j] == out[j'];
    }
    ScanRun(out, k, e', base, 0, sign);
  }

  /** The text of a number: a sign if it is negative, groups of ten digits from the right with a space between two, no
      zero in front, and a newline. */
  ghost predicate Layout(out: string, negative: bool) {
    var k := if negative then 1 else 0;
    && |out| >= k + 2 && out[|out| - 1] == '\n' && (negative ==> out[0] == '-') && out[k] != '0' && out[k] != ' '
    && Grouped(out, k, |out| - 1)
  }

  lemma {:induction false} LaidOut(s: string, i: nat, e: nat, out: string, negative: bool)
    requires i < e < |s| && Grouped(s, i, e) && s[i] != '0' && s[i] != ' '
    requires out == (if negative then "-" else "") + s[i..e] + "\n"
    ensures Layout(out, negative)
  {
    var k := if negative then 1 else 0;
    forall j' | k <= j' < |out| - 1 ensures out[j'] == ' ' <==> (|out| - 1 - j') % 11 == 0 {
      var j := j' - k + i;
      assert out[j'] == s[j] && e - j == |out| - 1 - j';
    }
    assert out[k] == s[i];
  }

  /** Seven characters for each digit are enough, and what is written reads back as the number. */
  method MOut(a: Mint, base: int) returns (out: string)
    requires Valid(a) && Canon(a) && 8 <= base <= 10
    ensures Scan(out, 0, base, 0, 1) == Got(Z(a))
    ensures a.len != 0 ==> |out| <= 7 * Abs(a.len) && Layout(out, a.len < 0)
  {
    if a.len == 0 {
      out := "0\n";
      assert Scan(out, 1, base, 0, 1) == Got(0);
      return;
    }
    var xlen := Abs(a.len);
    var obuf := seq(7 * xlen, _ => '\0');
    var e, i := 7 * xlen - 1, 0;
    obuf, i := PutGroups(obuf, e, base, Mint(xlen, a.val));
    if a.len < 0 {
      out := "-" + obuf[i..e] + "\n";
      LaidOut(obuf, i, e, out, true);
      ReadBack(obuf, i, e, base, out, 1, -1);
    } else {
      out := obuf[i..e] + "\n";
      assert out == "" + obuf[i..e] + "\n";
      LaidOut(obuf, i, e, out, false);
      ReadBack(obuf, i, e, base, out, 0, 1);
    }
  }

  /** Writing a number and reading it back, in any of the bases in use. */
  method RoundTrip(a: Mint, base: int) returns (b: Mint, eof: bool)
    requires Valid(a) && Canon(a) && 8 <= base <= 10
    ensures !eof && Valid(b) && Z(b) == Z(a)
  {
    var text := MOut(a, base);
    b, eof := MIn(text, base);
  }
}
