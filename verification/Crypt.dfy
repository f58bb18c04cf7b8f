/** The rotor machine of crypt (crypt.c) and of ed's encrypted files (ed.c): `setup`, the stream, and `crblock`. */
module Crypt {
  import opened Arithmetic

  const ROTORSZ: int := 256

  ghost predicate Table(t: seq<int>) {
    |t| == ROTORSZ && forall i | 0 <= i < ROTORSZ :: 0 <= t[i] < ROTORSZ
  }

  // ---------------------------------------------------------------- pairing

  /** The unpaired places below k; a place below the current one is paired when its entry is not 0. */
  ghost function Unpaired(t3: seq<int>, k: nat): (n: nat)
    requires k <= |t3|
  {
    if k == 0 then 0 else Unpaired(t3, k - 1) + (if t3[k - 1] == 0 then 1 else 0)
  }

  lemma {:induction false} UnpairedSame(t3: seq<int>, t3': seq<int>, k: nat)
    requires k <= |t3| && k <= |t3'| && forall x | 0 <= x < k :: t3'[x] == t3[x]
    ensures Unpaired(t3', k) == Unpaired(t3, k)
  {
    if k > 0 {
      UnpairedSame(t3, t3', k - 1);
    }
  }

  /** Pairing one place takes one from the count. */
  lemma {:induction false} UnpairedPut(t3: seq<int>, k: nat, ic: nat, v: int)
    requires ic < k <= |t3| && t3[ic] == 0 && v != 0
    ensures Unpaired(t3[ic := v], k) == Unpaired(t3, k) - 1
  {
    if ic == k - 1 {
      UnpairedSame(t3, t3[ic := v], k - 1);
    } else {
      UnpairedPut(t3, k - 1, ic, v);
    }
  }

  /** If any place is counted, there is one. */
  lemma {:induction false} SomeUnpaired(t3: seq<int>, k: nat) returns (x: nat)
    requires k <= |t3| && Unpaired(t3, k) > 0
    ensures x < k && t3[x] == 0
  {
    x := k - 1;
    if t3[k - 1] != 0 {
      x := SomeUnpaired(t3, k - 1);
    }
  }

  /** The places from k up are paired for good; those below k that are paired have their partner from k up. */
  ghost predicate Pairing(t3: seq<int>, k: nat) {
    && |t3| == ROTORSZ && k <= ROTORSZ
    && (forall x | k <= x < ROTORSZ :: 0 <= t3[x] < ROTORSZ && t3[x] != x && t3[t3[x]] == x)
    && (forall x | 0 <= x < k && t3[x] != 0 :: k <= t3[x] < ROTORSZ && t3[t3[x]] == x)
  }

  ghost predicate Involution(t3: seq<int>) {
    Table(t3) && forall x | 0 <= x < ROTORSZ :: t3[x] != x && t3[t3[x]] == x
  }

  function Round(ic: nat, k: nat): (r: nat)
    requires ic < k
    ensures r == if ic + 1 == k then 0 else ic + 1
  {
    (ic + 1) % k
  }

  /** The search for a partner below k, upwards and round: the first place that is not paired. */
  method Partner(t3: seq<int>, k: nat, start: nat) returns (ic: nat)
    requires k <= |t3| && start < k && Unpaired(t3, k) > 0
    ensures ic < k && t3[ic] == 0 && forall y: nat | y < k && OnTheWay(start, ic, y) :: t3[y] != 0
  {
    ghost var goal := SomeUnpaired(t3, k);
    ic := start;
    while t3[ic] != 0
      invariant ic < k && forall y: nat | y < k && OnTheWay(start, ic, y) :: t3[y] != 0
      decreases if ic <= goal then goal - ic else goal + k - ic
    {
      ic := Round(ic, k);
    }
  }

  /** The partner of place k, if it is below k, is the first one from where the random number says that was not paired
      with a higher place than k. */
  ghost predicate FirstFree(t3: seq<int>, random: seq<int>, k: int) {
    && 0 < k < ROTORSZ == |t3| == |random| && t3[k] < k
    && forall y | 0 <= y < k && OnTheWay(random[ROTORSZ - 1 - k] / 256 % 256 % k, t3[k], y) :: t3[y] > k
  }

  ghost predicate Greedy(t3: seq<int>, random: seq<int>, k: nat) {
    |t3| == ROTORSZ && forall x | k <= x < ROTORSZ && t3[x] < x :: FirstFree(t3, random, x)
  }

  lemma {:induction false} StillGreedy(t3: seq<int>, random: seq<int>, k: nat, ic: nat, r: seq<int>)
    requires ic < k < ROTORSZ == |random| && Pairing(t3, k + 1) && t3[k] == 0 && t3[ic] == 0
    requires r == t3[k := ic][ic := k] && Greedy(t3, random, k + 1)
    requires forall y: nat | y < k && OnTheWay(random[ROTORSZ - 1 - k] / 256 % 256 % k, ic, y) :: t3[y] != 0
    ensures Greedy(r, random, k)
  {
    forall x | k <= x < ROTORSZ && r[x] < x ensures FirstFree(r, random, x) {
      if x == k {
        forall y | 0 <= y < k && OnTheWay(random[ROTORSZ - 1 - k] / 256 % 256 % k, ic, y) ensures r[y] > k {
          assert t3[y] != 0;
        }
      } else {
        assert r[x] == t3[x] && FirstFree(t3, random, x);
      }
    }
  }

  /** One place of the reflecting rotor. The number of unpaired places below an unpaired one is odd, so there is a
      partner, and place 0 never comes here unpaired. */
  method PairUp(t3: seq<int>, k: nat, random: int, ghost all: seq<int>) returns (r: seq<int>)
    requires k < ROTORSZ == |all| && Pairing(t3, k + 1) && Unpaired(t3, k + 1) % 2 == 0
    requires 0 <= random == all[ROTORSZ - 1 - k] / 256 % 256 && Greedy(t3, all, k + 1)
    ensures Pairing(r, k) && Unpaired(r, k) % 2 == 0 && Greedy(r, all, k)
  {
    if t3[k] != 0 {
      AlreadyPaired(t3, k);
      return t3;
    }
    Odd(Unpaired(t3, k + 1), Unpaired(t3, k));
    ghost var x := SomeUnpaired(t3, k);
    var ic := Partner(t3, k, random % k);
    r := t3[k := ic][ic := k];
    UnpairedPut(t3, k, ic, k);
    UnpairedSame(t3[ic := k], r, k);
    NowPaired(t3, k, ic, r);
    StillGreedy(t3, all, k, ic, r);
  }

  lemma {:induction false} Odd(m: nat, n: nat)
    requires m % 2 == 0 && m == n + 1
    ensures n > 0 && (n - 1) % 2 == 0
  {
  }

  lemma {:induction false} AlreadyPaired(t3: seq<int>, k: nat)
    requires k < ROTORSZ && Pairing(t3, k + 1) && t3[k] != 0
    ensures Pairing(t3, k) && Unpaired(t3, k) == Unpaired(t3, k + 1)
  {
  }

  lemma {:induction false} NowPaired(t3: seq<int>, k: nat, ic: nat, r: seq<int>)
    requires ic < k < ROTORSZ && Pairing(t3, k + 1) && t3[k] == 0 && t3[ic] == 0 && r == t3[k := ic][ic := k]
    ensures Pairing(r, k)
  {
  }

  // ---------------------------------------------------------------- the first rotor

  /** t2 undoes t1, and t1 undoes t2. */
  ghost predicate Inverse(t1: seq<int>, t2: seq<int>) {
    && Table(t1) && Table(t2)
    && (forall i | 0 <= i < ROTORSZ :: t2[t1[i]] == i)
    && (forall v | 0 <= v < ROTORSZ :: t1[t2[v]] == v)
  }

  lemma {:induction false} Exchanged(t1: seq<int>, inv: seq<int>, k: nat, ic: nat)
    requires Inverse(t1, inv) && k < ROTORSZ && ic < ROTORSZ
    ensures Inverse(t1[k := t1[ic]][ic := t1[k]], inv[t1[ic] := k][t1[k] := ic])
  {
    var t, u := t1[k := t1[ic]][ic := t1[k]], inv[t1[ic] := k][t1[k] := ic];
    forall i | 0 <= i < ROTORSZ ensures u[t[i]] == i {
      assert inv[t1[i]] == i && inv[t1[k]] == k && inv[t1[ic]] == ic;
    }
    forall v | 0 <= v < ROTORSZ ensures t[u[v]] == v {
      assert t1[inv[v]] == v && inv[t1[k]] == k && inv[t1[ic]] == ic;
    }
  }

  /** Where the entry at place x has come from after n exchanges, each of the place below those dealt with and one that
      the random number says. */
  ghost function Origin(random: seq<int>, n: nat, x: int): int
    requires n <= |random| == ROTORSZ
  {
    if n == 0 then x
    else
      var k := ROTORSZ - n;
      var ic := random[n - 1] % 256 % (k + 1);
      Origin(random, n - 1, if x == k then ic else if x == ic then k else x)
  }

  lemma {:induction false} OriginNext(t1: seq<int>, random: seq<int>, n: nat, k: int, ic: int, r: seq<int>)
    requires |t1| == ROTORSZ == |random| && n < ROTORSZ && k == ROTORSZ - 1 - n && ic == random[n] % 256 % (k + 1)
    requires forall x | 0 <= x < ROTORSZ :: t1[x] == Origin(random, n, x)
    requires r == t1[k := t1[ic]][ic := t1[k]]
    ensures forall x | 0 <= x < ROTORSZ :: r[x] == Origin(random, n + 1, x)
  {
    forall x | 0 <= x < ROTORSZ ensures r[x] == Origin(random, n + 1, x) {
      var y := if x == k then ic else if x == ic then k else x;
      assert Origin(random, n + 1, x) == Origin(random, n, y);
    }
  }

  /** Where the program draws its random numbers is no matter: any sequence of them gives a machine. The first rotor is
      made by exchanges, the reflecting one by pairing every place with the first free one from where the random number
      says. */
  method Setup(random: seq<int>) returns (t1: seq<int>, t2: seq<int>, t3: seq<int>)
    requires |random| == ROTORSZ && forall i | 0 <= i < ROTORSZ :: 0 <= random[i] < 65536
    ensures Inverse(t1, t2) && Involution(t3)
    ensures forall x | 0 <= x < ROTORSZ :: t1[x] == Origin(random, ROTORSZ, x)
    ensures forall k | 0 <= k < ROTORSZ && t3[k] < k :: FirstFree(t3, random, k)
  {
    t1 := seq(ROTORSZ, i => i);
    t3 := seq(ROTORSZ, _ => 0);
    ghost var inv := t1;
    AllUnpaired(t3, ROTORSZ);
    var i := 0;
    while i < ROTORSZ
      invariant 0 <= i <= ROTORSZ && Inverse(t1, inv)
      invariant Pairing(t3, ROTORSZ - i) && Unpaired(t3, ROTORSZ - i) % 2 == 0
      invariant Greedy(t3, random, ROTORSZ - i)
      invariant forall x | 0 <= x < ROTORSZ :: t1[x] == Origin(random, i, x)
    {
      var k := ROTORSZ - 1 - i;
      ghost var was := t1;
      var ic := random[i] % 256 % (k + 1);
      Exchanged(t1, inv, k, ic);
      inv := inv[t1[ic] := k][t1[k] := ic];
      t1 := t1[k := t1[ic]][ic := t1[k]];
      OriginNext(was, random, i, k, ic, t1);
      t3 := PairUp(t3, k, random[i] / 256 % 256, random);
      i := i + 1;
    }
    t2 := Invert(t1, inv);
  }

  lemma {:induction false} AllUnpaired(t3: seq<int>, k: nat)
    requires k <= |t3| && forall x | 0 <= x < k :: t3[x] == 0
    ensures Unpaired(t3, k) == k
  {
    if k > 0 {
      AllUnpaired(t3, k - 1);
    }
  }

  /** The last loop: t2 from t1. */
  method Invert(t1: seq<int>, ghost inv: seq<int>) returns (t2: seq<int>)
    requires Inverse(t1, inv)
    ensures Inverse(t1, t2)
  {
    t2 := seq(ROTORSZ, _ => 0);
    var i := 0;
    while i < ROTORSZ
      invariant 0 <= i <= ROTORSZ && Table(t2)
      invariant forall j | 0 <= j < i :: t2[t1[j]] == j
    {
      assert inv[t1[i]] == i;
      forall j | 0 <= j < i ensures t1[j] != t1[i] {
        assert inv[t1[j]] == j;
      }
      t2 := t2[t1[i] := i];
      i := i + 1;
    }
    forall v | 0 <= v < ROTORSZ ensures t1[t2[v]] == v {
      assert t1[inv[v]] == v;
      assert t2[t1[inv[v]]] == inv[v];
    }
  }

  // ---------------------------------------------------------------- enciphering

  /** A rotor turned by n, and turned back. */
  function Turn(x: int, n: int): (r: int)
    ensures 0 <= r < ROTORSZ
  {
    (x + n) % ROTORSZ
  }

  function Back(x: int, n: int): (r: int)
    ensures 0 <= r < ROTORSZ
  {
    (x - n) % ROTORSZ
  }

  /** One character at rotor positions n1 and n2. */
  function Cipher(t1: seq<int>, t2: seq<int>, t3: seq<int>, n1: int, n2: int, c: int): (r: int)
    requires |t1| == |t2| == |t3| == ROTORSZ
    ensures 0 <= r < ROTORSZ
  {
    Back(t2[Back(t3[Turn(t1[Turn(c, n1)], n2)], n2)], n1)
  }

  lemma {:induction false} Multiple(x: int, q: int)
    requires 0 <= x < ROTORSZ
    ensures (x + ROTORSZ * q) % ROTORSZ == x
  {
  }

  lemma {:induction false} TurnBack(x: int, n: int)
    requires 0 <= x < ROTORSZ
    ensures Turn(Back(x, n), n) == x && Back(Turn(x, n), n) == x
  {
    var q := (x - n) / ROTORSZ;
    assert Back(x, n) + n == x + ROTORSZ * -q;
    Multiple(x, -q);
    q := (x + n) / ROTORSZ;
    assert Turn(x, n) - n == x + ROTORSZ * -q;
    Multiple(x, -q);
  }

  /** Two ways through the rotors, told by what is met on them. */
  lemma {:induction false} ThereAndBack(t1: seq<int>, t2: seq<int>, t3: seq<int>, p: int, b: int, d: int, a: int)
    requires Inverse(t1, t2) && Involution(t3) && 0 <= p < ROTORSZ && 0 <= b < ROTORSZ && 0 <= d < ROTORSZ
    requires a == t1[p]
    ensures t1[t2[d]] == d && t3[t3[b]] == b && t2[a] == p && t3[b] != b
    ensures t2[d] == p ==> d == a
  {
  }

  /** Enciphering is its own inverse, and no character is enciphered as itself. */
  lemma {:induction false} CipherTwice(t1: seq<int>, t2: seq<int>, t3: seq<int>, n1: int, n2: int, c: int)
    requires Inverse(t1, t2) && Involution(t3) && 0 <= c < ROTORSZ
    ensures Cipher(t1, t2, t3, n1, n2, Cipher(t1, t2, t3, n1, n2, c)) == c
    ensures Cipher(t1, t2, t3, n1, n2, c) != c
  {
    var p := Turn(c, n1);
    var a := t1[p];
    var b := Turn(a, n2);
    var d := Back(t3[b], n2);
    var e := Back(t2[d], n1);
    ThereAndBack(t1, t2, t3, p, b, d, a);
    TurnBack(c, n1);
    TurnBack(a, n2);
    TurnBack(t3[b], n2);
    TurnBack(t2[d], n1);
    SecondPass(t1, t2, t3, n1, n2, c, p, a, b, d, e);
  }

  lemma {:induction false} SecondPass(t1: seq<int>, t2: seq<int>, t3: seq<int>, n1: int, n2: int, c: int,
                                      p: int, a: int, b: int, d: int, e: int)
    requires |t1| == |t2| == |t3| == ROTORSZ && 0 <= p < ROTORSZ && 0 <= a < ROTORSZ && 0 <= b < ROTORSZ
             && 0 <= d < ROTORSZ
    requires 0 <= t2[d] < ROTORSZ && 0 <= t3[b] < ROTORSZ
    requires Turn(e, n1) == t2[d] && t1[t2[d]] == d && Turn(d, n2) == t3[b] && t3[t3[b]] == b
    requires Back(b, n2) == a && t2[a] == p && Back(p, n1) == c
    ensures Cipher(t1, t2, t3, n1, n2, e) == c
  {
  }

  /** The character and what it is enciphered as are met at two places of the reflecting rotor that are partners. */
  lemma {:induction false} Reflected(t1: seq<int>, t2: seq<int>, t3: seq<int>, n1: int, n2: int, c: int)
    requires Inverse(t1, t2) && Table(t3)
    ensures var r := Cipher(t1, t2, t3, n1, n2, c);
            (t1[(r + n1) % ROTORSZ] + n2) % ROTORSZ == t3[(t1[(c + n1) % ROTORSZ] + n2) % ROTORSZ]
  {
    var b := Turn(t1[Turn(c, n1)], n2);
    var d := Back(t3[b], n2);
    TurnBack(t3[b], n2);
    TurnBack(t2[d], n1);
    assert t1[t2[d]] == d;
  }

  /** The character at position p of a stream. */
  function At(t1: seq<int>, t2: seq<int>, t3: seq<int>, p: nat, c: int): (r: int)
    requires |t1| == |t2| == |t3| == ROTORSZ
  {
    Cipher(t1, t2, t3, p % ROTORSZ, p / ROTORSZ % ROTORSZ, c)
  }

  /** The characters of buf, enciphered as those of a stream from position start on. */
  ghost predicate Enciphered(t1: seq<int>, t2: seq<int>, t3: seq<int>, start: nat, buf: seq<int>, r: seq<int>)
    requires |t1| == |t2| == |t3| == ROTORSZ
  {
    |r| == |buf| && forall j | 0 <= j < |buf| :: r[j] == At(t1, t2, t3, start + j, buf[j])
  }

  lemma {:induction false} NextRotors(p: nat)
    ensures (p + 1) % ROTORSZ == if p % ROTORSZ + 1 == ROTORSZ then 0 else p % ROTORSZ + 1
    ensures (p + 1) / ROTORSZ % ROTORSZ == if p % ROTORSZ + 1 < ROTORSZ then p / ROTORSZ % ROTORSZ
                                           else if p / ROTORSZ % ROTORSZ + 1 == ROTORSZ then 0
                                           else p / ROTORSZ % ROTORSZ + 1
  {
    var q, r := p / ROTORSZ, p % ROTORSZ;
    assert p + 1 == q * ROTORSZ + (r + 1);
    if r + 1 < ROTORSZ {
      assert (p + 1) / ROTORSZ == q;
    } else {
      assert (p + 1) / ROTORSZ == q + 1;
    }
  }

  /** `crblock`, and with start 0 the loop of crypt itself: the rotors step as the position in the stream does. */
  method CrBlock(t1: seq<int>, t2: seq<int>, t3: seq<int>, buf: seq<int>, startn: nat) returns (r: seq<int>)
    requires |t1| == |t2| == |t3| == ROTORSZ
    ensures Enciphered(t1, t2, t3, startn, buf, r)
    ensures Inverse(t1, t2) && Table(t3) ==>
              forall j | 0 <= j < |buf| ::
                var n1, n2 := (startn + j) % 256, (startn + j) / 256 % 256;
                0 <= r[j] < 256 && (t1[(r[j] + n1) % 256] + n2) % 256 == t3[(t1[(buf[j] + n1) % 256] + n2) % 256]
  {
    var n1, n2, j := startn % ROTORSZ, startn / ROTORSZ % ROTORSZ, 0;
    r := [];
    while j < |buf|
      invariant 0 <= j <= |buf| && |r| == j
      invariant n1 == (startn + j) % ROTORSZ && n2 == (startn + j) / ROTORSZ % ROTORSZ
      invariant forall i | 0 <= i < j :: r[i] == At(t1, t2, t3, startn + i, buf[i])
    {
      r := r + [Cipher(t1, t2, t3, n1, n2, buf[j])];
      NextRotors(startn + j);
      n1 := n1 + 1;
      if n1 == ROTORSZ {
        n1 := 0;
        n2 := n2 + 1;
        if n2 == ROTORSZ {
          n2 := 0;
        }
      }
      j := j + 1;
    }
    if Inverse(t1, t2) && Table(t3) {
      forall i | 0 <= i < |buf|
        ensures var n1, n2 := (startn + i) % 256, (startn + i) / 256 % 256;
                && 0 <= r[i] < 256
                && (t1[(r[i] + n1) % 256] + n2) % 256 == t3[(t1[(buf[i] + n1) % 256] + n2) % 256]
      {
        Reflected(t1, t2, t3, (startn + i) % 256, (startn + i) / 256 % 256, buf[i]);
      }
    }
  }

  ghost predicate Bytes(buf: seq<int>) {
    forall j | 0 <= j < |buf| :: 0 <= buf[j] < ROTORSZ
  }

  /** A stream enciphered again from the same position is the stream it was, and no byte of it stayed the same. */
  lemma {:induction false} StreamTwice(t1: seq<int>, t2: seq<int>, t3: seq<int>, start: nat, buf: seq<int>, r: seq<int>,
                                       s: seq<int>)
    requires Inverse(t1, t2) && Involution(t3) && Bytes(buf)
    requires Enciphered(t1, t2, t3, start, buf, r) && Enciphered(t1, t2, t3, start, r, s)
    ensures s == buf && forall j | 0 <= j < |buf| :: r[j] != buf[j]
  {
    forall j | 0 <= j < |buf| ensures s[j] == buf[j] && r[j] != buf[j] {
      CipherTwice(t1, t2, t3, (start + j) % ROTORSZ, (start + j) / ROTORSZ % ROTORSZ, buf[j]);
    }
  }

  /** A buffer enciphered in two pieces, each told where it begins, is the buffer enciphered in one. */
  lemma {:induction false} InPieces(t1: seq<int>, t2: seq<int>, t3: seq<int>, start: nat, a: seq<int>, b: seq<int>,
                                    ra: seq<int>, rb: seq<int>, r: seq<int>)
    requires |t1| == |t2| == |t3| == ROTORSZ
    requires Enciphered(t1, t2, t3, start, a, ra) && Enciphered(t1, t2, t3, start + |a|, b, rb)
    requires Enciphered(t1, t2, t3, start, a + b, r)
    ensures r == ra + rb
  {
    forall j | 0 <= j < |r| ensures r[j] == (ra + rb)[j] {
      if j >= |a| {
        assert start + |a| + (j - |a|) == start + j;
      }
    }
  }

  /** crypt run twice with one key, on files of any length. */
  method RoundTrip(random: seq<int>, text: seq<int>) returns (cipher: seq<int>, plain: seq<int>)
    requires |random| == ROTORSZ && (forall i | 0 <= i < ROTORSZ :: 0 <= random[i] < 65536) && Bytes(text)
    ensures plain == text && |cipher| == |text| && forall j | 0 <= j < |text| :: cipher[j] != text[j]
  {
    var t1, t2, t3 := Setup(random);
    cipher := CrBlock(t1, t2, t3, text, 0);
    plain := CrBlock(t1, t2, t3, cipher, 0);
    StreamTwice(t1, t2, t3, 0, text, cipher, plain);
  }
}
