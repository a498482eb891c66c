/**
No compliant password is likelier than another, also after attempts that were given up: however many
accepted draws there are, each compliant text of a length is returned for equally many of them.
*/
module PasswordFairness {
  import opened Basics
  import opened PasswordPolicy
  import opened PasswordGenerator

  // ----- sequences of draws, and of attempts ----------------------------------------------------------------

  /** All sequences of so many of the draws. */
  ghost function Every(draws: set<int>, m: nat): set<seq<int>> {
    if m == 0 then {[]} else Product(Every(draws, m - 1), draws)
  }

  lemma {:induction false} EveryIs(draws: set<int>, m: nat, t: seq<int>)
    ensures t in Every(draws, m) <==> |t| == m && forall i :: 0 <= i < |t| ==> t[i] in draws
    decreases m
  {
    if m > 0 {
      if |t| == m {
        var u := t[..m - 1];
        EveryIs(draws, m - 1, u);
        assert t == u + [t[m - 1]];
        LastDraw(Every(draws, m - 1), draws, u, t[m - 1]);
      } else if t in Every(draws, m) {
        var u, d :| u in Every(draws, m - 1) && d in draws && t == u + [d];
        EveryIs(draws, m - 1, u);
      }
    }
  }

  /** Every sequence of the first set, followed by one of the second. */
  ghost function Joined(a: set<seq<int>>, b: set<seq<int>>): set<seq<int>> { set x, y | x in a && y in b :: x + y }

  ghost predicate AllLong(a: set<seq<int>>, n: nat) { forall x :: x in a ==> |x| == n }

  lemma JoinedIs(a: set<seq<int>>, b: set<seq<int>>, n: nat, t: seq<int>)
    requires AllLong(a, n) && n <= |t|
    ensures t in Joined(a, b) <==> t[..n] in a && t[n..] in b
  {
    if t in Joined(a, b) {
      var x, y :| x in a && y in b && t == x + y;
      assert t[..n] == x && t[n..] == y;
    }
    if t[..n] in a && t[n..] in b { assert t == t[..n] + t[n..]; }
  }

  ghost function Prefixed(x: seq<int>, b: set<seq<int>>): set<seq<int>> { set y | y in b :: x + y }

  lemma {:induction false} PrefixedSize(x: seq<int>, b: set<seq<int>>)
    ensures |Prefixed(x, b)| == |b|
    decreases |b|
  {
    if b != {} {
      var y :| y in b;
      var rest := b - {y};
      PrefixedSize(x, rest);
      forall z | z in rest ensures x + z != x + y { assert (x + z)[|x|..] == z && (x + y)[|x|..] == y; }
      assert Prefixed(x, b) == Prefixed(x, rest) + {x + y};
    }
  }

  lemma JoinedParts(a: set<seq<int>>, b: set<seq<int>>, n: nat, x: seq<int>)
    requires AllLong(a, n) && x in a
    ensures Joined(a, b) == Joined(a - {x}, b) + Prefixed(x, b) && Joined(a - {x}, b) !! Prefixed(x, b)
  {
    forall t | t in Joined(a, b) ensures t in Joined(a - {x}, b) || t in Prefixed(x, b) {
      var z, y :| z in a && y in b && t == z + y;
      if z != x { assert z in a - {x}; }
    }
    forall t | t in Prefixed(x, b) ensures t in Joined(a, b) && t !in Joined(a - {x}, b) {
      var y :| y in b && t == x + y;
      JoinedIs(a - {x}, b, n, t);
      assert t[..n] == x;
    }
  }

  lemma JoinedLess(a: set<seq<int>>, b: set<seq<int>>, n: nat, x: seq<int>)
    requires AllLong(a, n) && x in a
    ensures |Joined(a, b)| == |Joined(a - {x}, b)| + |b|
  {
    JoinedParts(a, b, n, x);
    PrefixedSize(x, b);
  }

  lemma {:induction false} JoinedSize(a: set<seq<int>>, b: set<seq<int>>, n: nat)
    requires AllLong(a, n)
    ensures |Joined(a, b)| == |a| * |b|
    decreases |a|
  {
    if a == {} {
      assert Joined(a, b) == {};
    } else {
      var x :| x in a;
      JoinedSize(a - {x}, b, n);
      JoinedLess(a, b, n, x);
      SizesAddUp(|b|, |a|, |Joined(a, b)|, |Joined(a - {x}, b)|);
    }
  }

  lemma JoinedApart(a: set<seq<int>>, b: set<seq<int>>, c: set<seq<int>>, d: set<seq<int>>, n: nat)
    requires AllLong(a, n) && AllLong(c, n) && a !! c
    ensures Joined(a, b) !! Joined(c, d)
  {
    forall t | t in Joined(a, b) ensures t !in Joined(c, d) {
      var x, y :| x in a && y in b && t == x + y;
      JoinedIs(a, b, n, t);
      JoinedIs(c, d, n, t);
    }
  }

  // ----- trying until an attempt is kept ----------------------------------------------------------------------

  /** Attempts of `n` draws each, made of `m` draws: `turn` says what one attempt adds, given the rest and what comes later. */
  ghost function Tried(turn: (nat, set<seq<int>>) -> set<seq<int>>, n: nat, m: nat): set<seq<int>>
    requires n > 0
    decreases m
  {
    if m < n then {} else turn(m - n, Tried(turn, n, m - n))
  }

  /** An attempt that is kept, whatever comes after it, or one that fails, before a later one. */
  ghost function Turn(draws: set<int>, kept: set<seq<int>>, failed: set<seq<int>>): (nat, set<seq<int>>) -> set<seq<int>> {
    (rest: nat, later) => Joined(kept, Every(draws, rest)) + Joined(failed, later)
  }

  lemma TurnIs(draws: set<int>, kept: set<seq<int>>, failed: set<seq<int>>, n: nat, later: set<seq<int>>, t: seq<int>)
    requires n <= |t| && AllLong(kept, n) && AllLong(failed, n)
    ensures t in Turn(draws, kept, failed)(|t| - n, later) <==>
              (t[..n] in kept && t[n..] in Every(draws, |t| - n)) || (t[..n] in failed && t[n..] in later)
  {
    JoinedIs(kept, Every(draws, |t| - n), n, t);
    JoinedIs(failed, later, n, t);
  }

  lemma TurnSize(draws: set<int>, kept: set<seq<int>>, failed: set<seq<int>>, n: nat, rest: nat, later: set<seq<int>>)
    requires AllLong(kept, n) && AllLong(failed, n) && kept !! failed
    ensures |Turn(draws, kept, failed)(rest, later)| == |kept| * |Every(draws, rest)| + |failed| * |later|
  {
    JoinedSize(kept, Every(draws, rest), n);
    JoinedSize(failed, later, n);
    JoinedApart(kept, Every(draws, rest), failed, later, n);
  }

  /** If each turn adds equally many, so do all of them. */
  lemma {:induction false} TriedAlike(turn: (nat, set<seq<int>>) -> set<seq<int>>, turn': (nat, set<seq<int>>) -> set<seq<int>>, n: nat, m: nat)
    requires n > 0 && forall rest, x, y :: |x| == |y| ==> |turn(rest, x)| == |turn'(rest, y)|
    ensures |Tried(turn, n, m)| == |Tried(turn', n, m)|
    decreases m
  {
    if m >= n { TriedAlike(turn, turn', n, m - n); }
  }

  // ----- any way to make a text of draws, and any test of it ------------------------------------------------------

  /** The text of the first attempt that passes. */
  ghost function FirstPassing(t: seq<int>, n: nat, text: seq<int> -> string, passes: string -> bool): Option<string>
    requires n > 0
    decreases |t|
  {
    if |t| < n then None
    else if passes(text(t[..n])) then Some(text(t[..n]))
    else FirstPassing(t[n..], n, text, passes)
  }

  ghost function Kept(draws: set<int>, n: nat, text: seq<int> -> string, s: string): set<seq<int>> {
    set x | x in Every(draws, n) && text(x) == s
  }

  ghost function Failed(draws: set<int>, n: nat, text: seq<int> -> string, passes: string -> bool): set<seq<int>> {
    set x | x in Every(draws, n) && !passes(text(x))
  }

  ghost function TurnFor(draws: set<int>, n: nat, text: seq<int> -> string, passes: string -> bool, s: string): (nat, set<seq<int>>) -> set<seq<int>> {
    Turn(draws, Kept(draws, n, text, s), Failed(draws, n, text, passes))
  }

  lemma AttemptsAre(draws: set<int>, n: nat, text: seq<int> -> string, passes: string -> bool, s: string)
    requires passes(s)
    ensures AllLong(Kept(draws, n, text, s), n) && AllLong(Failed(draws, n, text, passes), n)
    ensures Kept(draws, n, text, s) !! Failed(draws, n, text, passes)
  {
    forall x | x in Every(draws, n) ensures |x| == n { EveryIs(draws, n, x); }
  }

  lemma EverySplit(draws: set<int>, n: nat, t: seq<int>)
    requires n <= |t|
    ensures t in Every(draws, |t|) <==> t[..n] in Every(draws, n) && t[n..] in Every(draws, |t| - n)
  {
    EveryIs(draws, |t|, t);
    EveryIs(draws, n, t[..n]);
    EveryIs(draws, |t| - n, t[n..]);
    if t[..n] in Every(draws, n) && t[n..] in Every(draws, |t| - n) {
      forall i | 0 <= i < |t| ensures t[i] in draws { assert t[i] == if i < n then t[..n][i] else t[n..][i - n]; }
    }
  }

  lemma TurnForIs(draws: set<int>, n: nat, text: seq<int> -> string, passes: string -> bool, s: string, later: set<seq<int>>, t: seq<int>)
    requires n <= |t| && passes(s)
    ensures t in TurnFor(draws, n, text, passes, s)(|t| - n, later) <==>
              && t[..n] in Every(draws, n)
              && if passes(text(t[..n])) then text(t[..n]) == s && t[n..] in Every(draws, |t| - n) else t[n..] in later
  {
    AttemptsAre(draws, n, text, passes, s);
    TurnIs(draws, Kept(draws, n, text, s), Failed(draws, n, text, passes), n, later, t);
  }

  /** The attempts up to the first that passes make the text exactly when the draws are among these. */
  lemma {:induction false} FirstPassingIs(draws: set<int>, n: nat, text: seq<int> -> string, passes: string -> bool, s: string, t: seq<int>)
    requires n > 0 && passes(s)
    ensures t in Tried(TurnFor(draws, n, text, passes, s), n, |t|) <==>
            t in Every(draws, |t|) && FirstPassing(t, n, text, passes) == Some(s)
    decreases |t|
  {
    if |t| >= n {
      var later := Tried(TurnFor(draws, n, text, passes, s), n, |t| - n);
      FirstPassingIs(draws, n, text, passes, s, t[n..]);
      TurnForIs(draws, n, text, passes, s, later, t);
      EverySplit(draws, n, t);
    }
  }

  lemma TurnsAlike(draws: set<int>, n: nat, text: seq<int> -> string, passes: string -> bool, s: string, s': string,
                   rest: nat, x: set<seq<int>>, y: set<seq<int>>)
    requires passes(s) && passes(s') && |Kept(draws, n, text, s)| == |Kept(draws, n, text, s')| && |x| == |y|
    ensures |TurnFor(draws, n, text, passes, s)(rest, x)| == |TurnFor(draws, n, text, passes, s')(rest, y)|
  {
    AttemptsAre(draws, n, text, passes, s);
    AttemptsAre(draws, n, text, passes, s');
    TurnSize(draws, Kept(draws, n, text, s), Failed(draws, n, text, passes), n, rest, x);
    TurnSize(draws, Kept(draws, n, text, s'), Failed(draws, n, text, passes), n, rest, y);
  }

  lemma ResultsAlike(draws: set<int>, n: nat, text: seq<int> -> string, passes: string -> bool, s: string, s': string, m: nat)
    requires n > 0 && passes(s) && passes(s') && |Kept(draws, n, text, s)| == |Kept(draws, n, text, s')|
    ensures |Tried(TurnFor(draws, n, text, passes, s), n, m)| == |Tried(TurnFor(draws, n, text, passes, s'), n, m)|
  {
    var turn, turn' := TurnFor(draws, n, text, passes, s), TurnFor(draws, n, text, passes, s');
    forall rest, x, y | |x| == |y| ensures |turn(rest, x)| == |turn'(rest, y)| {
      TurnsAlike(draws, n, text, passes, s, s', rest, x, y);
    }
    TriedAlike(turn, turn', n, m);
  }

  // ----- the generator ------------------------------------------------------------------------------------------

  ghost function AcceptedDraws(): set<int> { set d | 0 <= d < WORD && Taken(d) }

  function TextAt(places: seq<nat>): (s: string)
    requires ArePlaces(places)
    ensures |s| == |places|
  {
    seq(|places|, i requires 0 <= i < |places| => Letter(places[i]))
  }

  predicate Complies(s: string) { CheckPassword(s) == [] }

  /** The sequences of `m` accepted draws whose first compliant attempt spells the text. */
  ghost function Returning(s: string, m: nat): set<seq<int>>
    requires s != []
  {
    Tried(TurnFor(AcceptedDraws(), |s|, Letters, Complies, s), |s|, m)
  }

  lemma {:induction false} GeneratedIsFirst(t: seq<int>, n: nat)
    requires n > 0
    ensures Generated(t, n) == FirstPassing(t, n, Letters, Complies)
    decreases |t|
  {
    if |t| >= n { GeneratedIsFirst(t[n..], n); }
  }

  lemma LimitIsAWord()
    ensures Limit(SIZE) <= WORD
  {
  }

  lemma EveryTaken(m: nat, t: seq<int>)
    ensures t in Every(AcceptedDraws(), m) <==> |t| == m && AllTaken(t)
  {
    LimitIsAWord();
    EveryIs(AcceptedDraws(), m, t);
  }

  /** These are the accepted draws for which the generator returns the text. */
  lemma ReturningIs(s: string, t: seq<int>)
    requires s != [] && Complies(s)
    ensures t in Returning(s, |t|) <==> AllTaken(t) && Generated(t, |s|) == Some(s)
  {
    FirstPassingIs(AcceptedDraws(), |s|, Letters, Complies, s, t);
    GeneratedIsFirst(t, |s|);
    EveryTaken(|t|, t);
  }

  lemma SpellingIsKept(places: seq<nat>)
    requires ArePlaces(places)
    ensures Kept(AcceptedDraws(), |places|, Letters, TextAt(places)) == Spelling(places)
  {
    forall x ensures x in Kept(AcceptedDraws(), |places|, Letters, TextAt(places)) <==> x in Spelling(places) {
      SpellingIsText(places, x);
      EveryTaken(|places|, x);
    }
  }

  lemma SpellingIsText(places: seq<nat>, t: seq<int>)
    requires ArePlaces(places)
    ensures t in Spelling(places) <==> |t| == |places| && AllTaken(t) && Letters(t) == TextAt(places)
  {
    SpellingIs(places, t);
  }

  /** However many accepted draws there are, two compliant texts of one length are returned for equally many of them. */
  lemma EveryResultAlike(places: seq<nat>, places': seq<nat>, m: nat)
    requires ArePlaces(places) && ArePlaces(places') && |places| == |places'| > 0
    requires Complies(TextAt(places)) && Complies(TextAt(places'))
    ensures |Returning(TextAt(places), m)| == |Returning(TextAt(places'), m)|
  {
    SpellingIsKept(places);
    SpellingIsKept(places');
    EveryPasswordAlike(places);
    EveryPasswordAlike(places');
    ResultsAlike(AcceptedDraws(), |places|, Letters, Complies, TextAt(places), TextAt(places'), m);
  }
}
