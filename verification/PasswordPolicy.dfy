/**
The password policy in its two editions, web/js/password_policy.js and
crates/miasma-core/src/transfer/password_policy.rs, and the generator of the first.
*/
module PasswordPolicy {
  import opened Radix

  const MIN_LEN: nat := 6
  const MAX_LEN: nat := 1024
  const DIRECTED_MIN_LEN: nat := 12
  const GENERATE_MIN_LEN: int := 12
  const GENERATE_MAX_LEN: int := 64
  const GENERATE_DEFAULT_LEN: int := 16

  datatype Code = TooShort | TooShortPrivate | TooLong | NoDigit | NoLetter | NoSymbol

  // ----- the web client ------------------------------------------------------------------------

  predicate IsDigit(c: char) { '0' <= c <= '9' }

  predicate IsLetter(c: char) { 'a' <= c <= 'z' || 'A' <= c <= 'Z' }

  predicate IsSymbol(c: char) { 0x21 <= c as int <= 0x7e && !IsDigit(c) && !IsLetter(c) }

  predicate AnyOf(s: string, p: char -> bool) { exists i :: 0 <= i < |s| && p(s[i]) }

  function If(b: bool, code: Code): seq<Code> { if b then [code] else [] }

  /** The violations after the first, in their order. */
  function Others(long: bool, digit: bool, letter: bool, symbol: bool): seq<Code> {
    If(long, TooLong) + If(!digit, NoDigit) + If(!letter, NoLetter) + If(!symbol, NoSymbol)
  }

  /** `checkPassword`. */
  function CheckPassword(s: string): seq<Code> {
    If(|s| < MIN_LEN, TooShort) + Others(|s| > MAX_LEN, AnyOf(s, IsDigit), AnyOf(s, IsLetter), AnyOf(s, IsSymbol))
  }

  /** `v.splice(v.indexOf(code), 1)`, when there is one. */
  function Without(v: seq<Code>, code: Code): seq<Code> {
    if v == [] then [] else if v[0] == code then v[1..] else [v[0]] + Without(v[1..], code)
  }

  /** `checkDirectedPassword`. */
  function CheckDirected(s: string): seq<Code> {
    If(|s| < DIRECTED_MIN_LEN, TooShortPrivate) + Without(CheckPassword(s), TooShort)
  }

  // ----- the native edition ----------------------------------------------------------------------

  predicate IsAsciiPunctuation(c: char) { '!' <= c <= '/' || ':' <= c <= '@' || '[' <= c <= '`' || '{' <= c <= '~' }

  /** `check_with_min`. */
  function CheckWithMin(s: string, min: nat, isPrivate: bool): seq<Code> {
    If(|s| < min, if isPrivate then TooShortPrivate else TooShort)
    + Others(|s| > MAX_LEN, AnyOf(s, IsDigit), AnyOf(s, IsLetter), AnyOf(s, IsAsciiPunctuation))
  }

  /** The two editions report the same violations, in the same order, of every password. */
  lemma EditionsAgree(s: string)
    ensures CheckPassword(s) == CheckWithMin(s, MIN_LEN, false)
    ensures CheckDirected(s) == CheckWithMin(s, DIRECTED_MIN_LEN, true)
  {
    SameSymbols(s);
    WithoutFirst(|s| < MIN_LEN, Others(|s| > MAX_LEN, AnyOf(s, IsDigit), AnyOf(s, IsLetter), AnyOf(s, IsSymbol)));
  }

  lemma SameSymbols(s: string)
    ensures AnyOf(s, IsSymbol) == AnyOf(s, IsAsciiPunctuation)
  {
    if i :| 0 <= i < |s| && IsSymbol(s[i]) { assert IsAsciiPunctuation(s[i]); }
    if i :| 0 <= i < |s| && IsAsciiPunctuation(s[i]) { assert IsSymbol(s[i]); }
  }

  lemma WithoutFirst(short: bool, rest: seq<Code>)
    requires TooShort !in rest
    ensures Without(If(short, TooShort) + rest, TooShort) == rest
  {
    if short { assert ([TooShort] + rest)[1..] == rest; } else { assert [] + rest == rest; }
    NothingWithout(rest, TooShort);
  }

  lemma {:induction false} NothingWithout(v: seq<Code>, code: Code)
    requires code !in v
    ensures Without(v, code) == v
  {
    if v != [] { NothingWithout(v[1..], code); }
  }

  /** The rule a code stands for is broken. */
  ghost predicate Breaks(s: string, code: Code, min: nat) {
    match code
    case TooShort => |s| < min
    case TooShortPrivate => false
    case TooLong => |s| > 1024
    case NoDigit => forall c :: c in s ==> !('0' <= c <= '9')
    case NoLetter => forall c :: c in s ==> !('a' <= c <= 'z') && !('A' <= c <= 'Z')
    case NoSymbol =>
      forall c :: c in s ==> !('!' <= c <= '/') && !(':' <= c <= '@') && !('[' <= c <= '`') && !('{' <= c <= '~')
  }

  function Rank(code: Code): nat {
    match code
    case TooShort => 0 case TooShortPrivate => 0 case TooLong => 1 case NoDigit => 2 case NoLetter => 3 case NoSymbol => 4
  }

  ghost predicate InOrder(codes: seq<Code>) { forall i, j :: 0 <= i < j < |codes| ==> Rank(codes[i]) < Rank(codes[j]) }

  lemma AnyOfIs(s: string, p: char -> bool)
    ensures AnyOf(s, p) <==> exists c :: c in s && p(c)
  {
    if c :| c in s && p(c) { var i :| 0 <= i < |s| && s[i] == c; }
    if AnyOf(s, p) { var i :| 0 <= i < |s| && p(s[i]); assert s[i] in s; }
  }

  /** The codes listed are those whose facts call for them, in order and once each. */
  ghost predicate Lists(codes: seq<Code>, first: Code, short: bool, long: bool, digit: bool, letter: bool, symbol: bool) {
    && InOrder(codes)
    && (forall c :: c in codes <==> || (c == first && short) || (c == TooLong && long) || (c == NoDigit && !digit)
                                    || (c == NoLetter && !letter) || (c == NoSymbol && !symbol))
  }

  lemma OthersList(long: bool, digit: bool, letter: bool, symbol: bool)
    ensures Lists(Others(long, digit, letter, symbol), TooShort, false, long, digit, letter, symbol)
  {
  }

  lemma FirstLists(first: Code, short: bool, long: bool, digit: bool, letter: bool, symbol: bool)
    requires first == TooShort || first == TooShortPrivate
    ensures Lists(If(short, first) + Others(long, digit, letter, symbol), first, short, long, digit, letter, symbol)
  {
    var rest := Others(long, digit, letter, symbol);
    OthersList(long, digit, letter, symbol);
    forall i | 0 <= i < |rest| ensures Rank(rest[i]) > 0 { assert rest[i] in rest; }
  }

  lemma SymbolsAre(s: string)
    ensures AnyOf(s, IsSymbol) <==> !Breaks(s, NoSymbol, 0)
    ensures AnyOf(s, IsDigit) <==> !Breaks(s, NoDigit, 0)
    ensures AnyOf(s, IsLetter) <==> !Breaks(s, NoLetter, 0)
  {
    AnyOfIs(s, IsSymbol);
    AnyOfIs(s, IsDigit);
    AnyOfIs(s, IsLetter);
  }

  /** Each code is reported exactly when its rule is broken, in a fixed order and once. */
  lemma ReportsExactly(s: string)
    ensures InOrder(CheckPassword(s)) && forall code :: code in CheckPassword(s) <==> Breaks(s, code, 6)
  {
    SymbolsAre(s);
    FirstLists(TooShort, |s| < MIN_LEN, |s| > MAX_LEN, AnyOf(s, IsDigit), AnyOf(s, IsLetter), AnyOf(s, IsSymbol));
  }

  /** For a private share the same, but for the first rule, which asks for twelve characters. */
  lemma DirectedReportsExactly(s: string)
    ensures InOrder(CheckDirected(s)) && TooShort !in CheckDirected(s) && (TooShortPrivate in CheckDirected(s) <==> |s| < 12)
    ensures forall code :: code != TooShort && code != TooShortPrivate ==> (code in CheckDirected(s) <==> Breaks(s, code, 6))
  {
    DirectedLists(s);
    SymbolsAre(s);
  }

  lemma DirectedLists(s: string)
    ensures Lists(CheckDirected(s), TooShortPrivate, |s| < DIRECTED_MIN_LEN, |s| > MAX_LEN, AnyOf(s, IsDigit), AnyOf(s, IsLetter), AnyOf(s, IsSymbol))
  {
    EditionsAgree(s);
    SameSymbols(s);
    FirstLists(TooShortPrivate, |s| < DIRECTED_MIN_LEN, |s| > MAX_LEN, AnyOf(s, IsDigit), AnyOf(s, IsLetter), AnyOf(s, IsSymbol));
  }

  /** A password passes for a private share exactly when it passes and has twelve characters. */
  lemma DirectedIsStricter(s: string)
    ensures CheckDirected(s) == [] <==> CheckPassword(s) == [] && |s| >= DIRECTED_MIN_LEN
  {
    EditionsAgree(s);
  }

  // ----- drawing without bias ----------------------------------------------------------------------

  const WORD: nat := 0x1_0000_0000

  /** Draws from here on are thrown away. */
  function Limit(n: nat): nat
    requires n > 0
  {
    WORD / n * n
  }

  predicate Gives(d: int, n: nat, v: int)
    requires n > 0
  {
    d % n == v
  }

  /** The draws below `m` blocks of `n` that give `v`. */
  ghost function Giving(m: nat, n: nat, v: int): set<int>
    requires n > 0
  {
    set d | 0 <= d < m * n && Gives(d, n, v)
  }

  lemma {:induction false} OnePerBlock(m: nat, n: nat, v: int)
    requires 0 <= v < n
    ensures |Giving(m, n, v)| == m
    decreases m
  {
    if m > 0 {
      OnePerBlock(m - 1, n, v);
      MulSucc(m - 1, n);
      NextBlock(m - 1, n, v);
    }
  }

  lemma NextBlock(m: nat, n: nat, v: int)
    requires 0 <= v < n
    ensures Giving(m + 1, n, v) == Giving(m, n, v) + {m * n + v} && m * n + v !in Giving(m, n, v)
  {
    MulSucc(m, n);
    DivModUnique(m, v, n);
    forall d | m * n <= d < m * n + n && Gives(d, n, v) ensures d == m * n + v { DivModUnique(m, d - m * n, n); }
  }

  /** Every value below `n` is given by the same number of accepted draws. */
  lemma NoModuloBias(n: nat, v: int)
    requires 0 <= v < n
    ensures (set d | 0 <= d < Limit(n) && Gives(d, n, v)) == Giving(WORD / n, n, v)
    ensures |Giving(WORD / n, n, v)| == WORD / n
  {
    OnePerBlock(WORD / n, n, v);
  }

  // ----- the alphabet ----------------------------------------------------------------------------------

  const ALPHABET: string :=
    "ABCDEFGHIJKLM" + "NOPQRSTUVWXYZ" + "abcdefghijklm" + "nopqrstuvwxyz" + "0123456789" + "!#$%&*+-=?@^_~"

  const SIZE: nat := 76

  /** The character at a place of the alphabet. */
  function Letter(i: nat): char
    requires i < SIZE
  {
    if i < 26 then (65 + i) as char
    else if i < 52 then (71 + i) as char
    else if i < 62 then (i - 4) as char
    else match i - 62
      case 0 => '!' case 1 => '#' case 2 => '$' case 3 => '%' case 4 => '&' case 5 => '*' case 6 => '+'
      case 7 => '-' case 8 => '=' case 9 => '?' case 10 => '@' case 11 => '^' case 12 => '_' case _ => '~'
  }

  predicate Spelled(i: nat)
    requires i <= SIZE
    decreases SIZE - i
  {
    i == SIZE || (ALPHABET[i] == Letter(i) && Spelled(i + 1))
  }

  lemma SpelledFrom50()
    ensures Spelled(50)
  {
    assert Spelled(70);
    assert Spelled(60);
  }

  lemma SpelledFrom20()
    ensures Spelled(20)
  {
    SpelledFrom50();
    assert Spelled(40);
    assert Spelled(30);
  }

  lemma SpelledFrom0()
    ensures Spelled(0)
  {
    SpelledFrom20();
    assert Spelled(15);
    assert Spelled(10);
    assert Spelled(5);
  }

  lemma {:induction false} SpelledAt(i: nat, k: nat)
    requires i <= k < SIZE && Spelled(i)
    ensures ALPHABET[k] == Letter(k)
    decreases k - i
  {
    if i < k { SpelledAt(i + 1, k); }
  }

  /** The alphabet as it is written, and no character of it twice. */
  lemma AlphabetIs(i: nat, j: nat)
    requires i < SIZE && j < SIZE
    ensures |ALPHABET| == SIZE && ALPHABET[i] == Letter(i)
    ensures Letter(i) == Letter(j) ==> i == j
  {
    SpelledFrom0();
    SpelledAt(0, i);
  }

  predicate Taken(d: int) { 0 <= d < Limit(SIZE) }

  predicate AllTaken(t: seq<int>) { forall i :: 0 <= i < |t| ==> Taken(t[i]) }

  predicate ArePlaces(places: seq<nat>) { forall i :: 0 <= i < |places| ==> places[i] < SIZE }

  /** The text of draws. */
  function Letters(draws: seq<int>): (s: string)
    ensures |s| == |draws|
  {
    seq(|draws|, i requires 0 <= i < |draws| => Letter(draws[i] % SIZE))
  }

  // ----- how many draws spell a password ----------------------------------------------------------------

  /** The accepted draws of a character. */
  ghost function DrawsOf(v: nat): set<int>
    requires v < SIZE
  {
    Giving(WORD / SIZE, SIZE, v)
  }

  /** Every way to go on from one of `a` with one of `b`. */
  ghost function Product(a: set<seq<int>>, b: set<int>): set<seq<int>> { set t, d | t in a && d in b :: t + [d] }

  ghost function Extended(a: set<seq<int>>, d: int): set<seq<int>> { set t | t in a :: t + [d] }

  lemma LastInjective(t: seq<int>, u: seq<int>, d: int, e: int)
    ensures t + [d] == u + [e] ==> t == u && d == e
  {
    if t + [d] == u + [e] {
      assert (t + [d])[..|t|] == t && (u + [e])[..|u|] == u;
      assert (t + [d])[|t|] == d && (u + [e])[|u|] == e;
    }
  }

  lemma {:induction false} ExtendedSize(a: set<seq<int>>, d: int)
    ensures |Extended(a, d)| == |a|
    decreases |a|
  {
    if a != {} {
      var t :| t in a;
      var rest := a - {t};
      ExtendedSize(rest, d);
      forall u | u in rest ensures u + [d] != t + [d] { LastInjective(u, t, d, d); }
      assert Extended(a, d) == Extended(rest, d) + {t + [d]};
    }
  }

  lemma ProductSplit(a: set<seq<int>>, b: set<int>, d: int)
    requires d in b
    ensures Product(a, b) == Product(a, b - {d}) + Extended(a, d)
    ensures Product(a, b - {d}) !! Extended(a, d)
  {
    var less := Product(a, b - {d});
    forall x | x in Product(a, b) ensures x in less || x in Extended(a, d) {
      var t, e :| t in a && e in b && x == t + [e];
      if e == d { assert x in Extended(a, d); } else { assert e in b - {d}; }
    }
    forall x | x in Extended(a, d) ensures x in Product(a, b) && x !in less {
      var t :| t in a && x == t + [d];
      assert x[|x| - 1] == d;
    }
  }

  lemma NoMembers(b: set<int>)
    ensures (forall x :: x !in b) ==> b == {}
  {
    if forall x :: x !in b { assert b == {}; }
  }

  lemma SizesAddUp(a: nat, b: nat, product: nat, less: nat)
    requires b > 0 && less == a * (b - 1) && product == less + a
    ensures product == a * b
  {
    TimesNext(a, b - 1);
  }

  lemma SplitSize(a: set<seq<int>>, b: set<int>, d: int)
    requires d in b
    ensures |Product(a, b)| == |Product(a, b - {d})| + |a|
  {
    ExtendedSize(a, d);
    ProductSplit(a, b, d);
  }

  lemma {:induction false} ProductSize(a: set<seq<int>>, b: set<int>)
    ensures |Product(a, b)| == |a| * |b|
    decreases |b|
  {
    if b == {} {
      assert Product(a, b) == {};
    } else {
      NoMembers(b);
      var d :| d in b;
      var rest := b - {d};
      ProductSize(a, rest);
      SplitSize(a, b, d);
      SizesAddUp(|a|, |b|, |Product(a, b)|, |Product(a, rest)|);
    }
  }

  lemma TimesNext(x: int, y: int)
    ensures x * y + x == x * (y + 1)
  {}

  /** The sequences of accepted draws that are turned into the characters at these places. */
  ghost function Spelling(places: seq<nat>): set<seq<int>>
    requires ArePlaces(places)
  {
    if places == [] then {[]} else Product(Spelling(places[..|places| - 1]), DrawsOf(places[|places| - 1]))
  }

  /** No password of a length is likelier than another: each is spelled by the same number of draws. */
  lemma {:induction false} EveryPasswordAlike(places: seq<nat>)
    requires ArePlaces(places)
    ensures |Spelling(places)| == Pow(WORD / SIZE, |places|)
    decreases |places|
  {
    if places != [] {
      var n := |places| - 1;
      EveryPasswordAlike(places[..n]);
      ProductSize(Spelling(places[..n]), DrawsOf(places[n]));
      OnePerBlock(WORD / SIZE, SIZE, places[n]);
      assert Pow(WORD / SIZE, n + 1) == WORD / SIZE * Pow(WORD / SIZE, n);
    }
  }

  /** What these sequences are: accepted draws whose text is the one at the places. */
  lemma {:induction false} SpellingIs(places: seq<nat>, t: seq<int>)
    requires ArePlaces(places)
    ensures t in Spelling(places) <==>
            |t| == |places| && AllTaken(t) && (forall i :: 0 <= i < |t| ==> Letters(t)[i] == Letter(places[i]))
    decreases |places|
  {
    if places != [] {
      var n := |places| - 1;
      if |t| == |places| {
        var u := t[..n];
        SpellingIs(places[..n], u);
        assert t == u + [t[n]];
        LastPlace(t[n], places[n]);
        assert forall i :: 0 <= i < n ==> Letters(u)[i] == Letters(t)[i];
        LastDraw(Spelling(places[..n]), DrawsOf(places[n]), u, t[n]);
      } else if t in Spelling(places) {
        var u, d :| u in Spelling(places[..n]) && d in DrawsOf(places[n]) && t == u + [d];
        SpellingIs(places[..n], u);
      }
    }
  }

  lemma LastPlace(d: int, v: nat)
    requires v < SIZE
    ensures d in DrawsOf(v) <==> Taken(d) && Letter(d % SIZE) == Letter(v)
  {
    AlphabetIs(d % SIZE, v);
  }

  lemma LastDraw(a: set<seq<int>>, b: set<int>, u: seq<int>, d: int)
    ensures u + [d] in Product(a, b) <==> u in a && d in b
  {
    if u + [d] in Product(a, b) {
      var v, e :| v in a && e in b && v + [e] == u + [d];
      LastInjective(v, u, e, d);
    }
  }
}
