/**
`generatePassword` of web/js/password_policy.js. The random source is a sequence of 32-bit draws;
where the source would go on for ever, a sequence that runs out gives no password.
*/
module PasswordGenerator {
  import opened Basics
  import opened PasswordPolicy

  predicate AreWords(draws: seq<int>) { forall i :: 0 <= i < |draws| ==> 0 <= draws[i] < WORD }

  /** The draws that are not thrown away, in their order. */
  function Accepted(draws: seq<int>, n: nat): seq<int>
    requires n > 0
  {
    if draws == [] then [] else (if draws[0] < Limit(n) then [draws[0]] else []) + Accepted(draws[1..], n)
  }

  /** The first text of `n` accepted draws that complies; texts that do not are given up whole. */
  function Generated(accepted: seq<int>, n: nat): Option<string>
    requires n > 0
    decreases |accepted|
  {
    if |accepted| < n then None
    else if CheckPassword(Letters(accepted[..n])) == [] then Some(Letters(accepted[..n]))
    else Generated(accepted[n..], n)
  }

  /** `Math.trunc(Number(length)) || 16`, between 12 and 64; no number is `None`. */
  function Clamped(length: Option<int>): (n: nat)
    ensures 12 <= n <= 64
  {
    var wanted := if length.None? || length.value == 0 then GENERATE_DEFAULT_LEN else length.value;
    var atLeast := if wanted < GENERATE_MIN_LEN then GENERATE_MIN_LEN else wanted;
    if atLeast > GENERATE_MAX_LEN then GENERATE_MAX_LEN else atLeast
  }

  /** What is generated passes both checks and has the length asked for, within the bounds. */
  lemma {:induction false} GeneratedComplies(accepted: seq<int>, length: Option<int>)
    ensures var r := Generated(accepted, Clamped(length));
            r.Some? ==> |r.value| == Clamped(length) && CheckPassword(r.value) == [] && CheckDirected(r.value) == []
    decreases |accepted|
  {
    var n := Clamped(length);
    if |accepted| >= n {
      var s := Letters(accepted[..n]);
      if CheckPassword(s) == [] { DirectedIsStricter(s); } else { GeneratedComplies(accepted[n..], length); }
    }
  }

  /** A length from 12 to 64 is taken, a smaller one as 12, a larger one as 64; without one, or with zero, 16. */
  lemma ClampedIs(length: Option<int>)
    ensures Clamped(None) == 16 && Clamped(Some(0)) == 16
    ensures length.Some? && length.value != 0 ==>
              && (12 <= length.value <= 64 ==> Clamped(length) == length.value)
              && (length.value < 12 ==> Clamped(length) == 12) && (length.value > 64 ==> Clamped(length) == 64)
  {
  }

  /** The attempt of that number: a text of `n` draws, after the draws of those before it. */
  function Try(accepted: seq<int>, n: nat, k: nat): string
    requires 0 <= n * k && n * k + n <= |accepted|
  {
    Letters(accepted[n * k..n * k + n])
  }

  ghost predicate FirstToComply(accepted: seq<int>, n: nat, k: nat) {
    && 0 <= n * k && n * k + n <= |accepted| && CheckPassword(Try(accepted, n, k)) == []
    && forall j: nat :: j < k ==> Complains(accepted, n, j)
  }

  ghost predicate Complains(accepted: seq<int>, n: nat, j: nat) {
    0 <= n * j && n * j + n <= |accepted| && CheckPassword(Try(accepted, n, j)) != []
  }

  lemma Later(accepted: seq<int>, n: nat, k: nat)
    requires 0 < n <= |accepted|
    ensures n * (k + 1) == n + n * k && n * k >= 0
    ensures n * (k + 1) + n <= |accepted| <==> n * k + n <= |accepted[n..]|
    ensures n * (k + 1) + n <= |accepted| ==> Try(accepted, n, k + 1) == Try(accepted[n..], n, k)
  {
    assert n * (k + 1) == n + n * k;
    if n * (k + 1) + n <= |accepted| {
      assert accepted[n..][n * k..n * k + n] == accepted[n * (k + 1)..n * (k + 1) + n];
    }
  }

  lemma FirstAttempt(accepted: seq<int>, n: nat)
    requires n <= |accepted|
    ensures n * 0 == 0 && Try(accepted, n, 0) == Letters(accepted[..n])
  {
    assert n * 0 == 0 && accepted[n * 0..n * 0 + n] == accepted[..n];
  }

  lemma OneGivenUp(accepted: seq<int>, n: nat, k: nat)
    requires 0 < n <= |accepted| && Complains(accepted, n, 0) && FirstToComply(accepted[n..], n, k)
    ensures FirstToComply(accepted, n, k + 1)
  {
    Later(accepted, n, k);
    forall j: nat | j < k + 1 ensures Complains(accepted, n, j) {
      if j > 0 {
        Later(accepted, n, j - 1);
        assert Complains(accepted[n..], n, j - 1);
      }
    }
  }

  /** The password is the first of the attempts that complies, all before it having been given up. */
  lemma {:induction false} GeneratedIsFirst(accepted: seq<int>, n: nat)
    requires n > 0 && Generated(accepted, n).Some?
    ensures exists k: nat :: FirstToComply(accepted, n, k) && Generated(accepted, n).value == Try(accepted, n, k)
    decreases |accepted|
  {
    FirstAttempt(accepted, n);
    if CheckPassword(Letters(accepted[..n])) == [] {
      assert FirstToComply(accepted, n, 0);
    } else {
      GeneratedIsFirst(accepted[n..], n);
      var k: nat :| FirstToComply(accepted[n..], n, k) && Generated(accepted[n..], n).value == Try(accepted[n..], n, k);
      OneGivenUp(accepted, n, k);
      Later(accepted, n, k);
    }
  }

  /** No attempt complies, exactly when there is no password. */
  lemma {:induction false} NoneComplies(accepted: seq<int>, n: nat, k: nat)
    requires n > 0 && Generated(accepted, n).None? && n * k >= 0 && n * k + n <= |accepted|
    ensures CheckPassword(Try(accepted, n, k)) != []
    decreases k
  {
    if k == 0 {
      FirstAttempt(accepted, n);
    } else {
      assert n * k == n + n * (k - 1);
      Later(accepted, n, k - 1);
      NoneComplies(accepted[n..], n, k - 1);
    }
  }

  /** The draws are looked at one after the other; one is kept exactly when it is below the limit. */
  lemma {:induction false} AcceptedJoin(draws: seq<int>, more: seq<int>, n: nat)
    requires n > 0
    ensures Accepted(draws + more, n) == Accepted(draws, n) + Accepted(more, n)
    decreases |draws|
  {
    if draws == [] {
      assert draws + more == more;
    } else {
      AcceptedJoin(draws[1..], more, n);
      assert (draws + more)[1..] == draws[1..] + more;
    }
  }

  lemma AcceptedOne(d: int, n: nat)
    requires n > 0
    ensures Accepted([d], n) == if d < Limit(n) then [d] else []
  {
    assert [d][1..] == [];
  }

  /** `randomBelow`: the first draw below the limit, reduced; `next` is where the source then stands. */
  method RandomBelow(n: nat, draws: seq<int>, at: nat) returns (r: Option<nat>, next: nat)
    requires n > 0 && at <= |draws| && AreWords(draws)
    ensures at <= next <= |draws|
    ensures r.Some? ==> at < next && draws[next - 1] < Limit(n) && r.value == draws[next - 1] % n
    ensures Accepted(draws[at..], n) == (if r.Some? then [draws[next - 1]] + Accepted(draws[next..], n) else [])
  {
    next := at;
    while next < |draws|
      invariant at <= next <= |draws| && Accepted(draws[at..], n) == Accepted(draws[next..], n)
    {
      assert draws[next..][1..] == draws[next + 1..];
      next := next + 1;
      if draws[next - 1] < Limit(n) { return Some(draws[next - 1] % n), next; }
    }
    return None, next;
  }

  lemma LettersSnoc(taken: seq<int>, d: int)
    ensures Letters(taken + [d]) == Letters(taken) + [Letter(d % SIZE)]
  {}

  lemma TakeOne(taken: seq<int>, d: int, rest: seq<int>)
    ensures taken + ([d] + rest) == taken + [d] + rest
  {}

  lemma SplitHere(taken: seq<int>, rest: seq<int>)
    ensures (taken + rest)[..|taken|] == taken && (taken + rest)[|taken|..] == rest
  {}

  /** One attempt: so many characters, or `None` when the source runs out. */
  method Attempt(n: nat, draws: seq<int>, at: nat) returns (r: Option<string>, next: nat)
    requires n > 0 && at <= |draws| && AreWords(draws)
    ensures at <= next <= |draws|
    ensures var a := Accepted(draws[at..], SIZE);
            if |a| < n then r == None else r == Some(Letters(a[..n])) && Accepted(draws[next..], SIZE) == a[n..] && at < next
  {
    var s := "";
    ghost var taken: seq<int> := [];
    next := at;
    for i := 0 to n
      invariant at + i <= next <= |draws| && |taken| == i && s == Letters(taken)
      invariant Accepted(draws[at..], SIZE) == taken + Accepted(draws[next..], SIZE)
    {
      var v;
      v, next := RandomBelow(SIZE, draws, next);
      if v.None? { return None, next; }
      LettersSnoc(taken, draws[next - 1]);
      TakeOne(taken, draws[next - 1], Accepted(draws[next..], SIZE));
      s := s + [Letter(v.value)];
      taken := taken + [draws[next - 1]];
    }
    SplitHere(taken, Accepted(draws[next..], SIZE));
    r := Some(s);
  }

  /** `generatePassword`. */
  method GeneratePassword(length: Option<int>, draws: seq<int>) returns (r: Option<string>)
    requires AreWords(draws)
    ensures r == Generated(Accepted(draws, SIZE), Clamped(length))
    ensures r.Some? ==> |r.value| == Clamped(length) && CheckPassword(r.value) == [] && CheckDirected(r.value) == []
  {
    var n := Clamped(length);
    GeneratedComplies(Accepted(draws, SIZE), length);
    var at := 0;
    assert draws[0..] == draws;
    while true
      invariant at <= |draws|
      invariant Generated(Accepted(draws, SIZE), n) == Generated(Accepted(draws[at..], SIZE), n)
      decreases |draws| - at
    {
      var s, next := Attempt(n, draws, at);
      if s.None? { return None; }
      if CheckPassword(s.value) == [] { return s; }
      at := next;
    }
  }
}
