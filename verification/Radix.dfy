/** Numbers as digit sequences, most significant digit first, in any base. */
module Radix {
  import opened Basics

  predicate AreDigits(s: seq<int>, base: nat) {
    forall i :: 0 <= i < |s| ==> 0 <= s[i] < base
  }

  function Pow(base: nat, n: nat): nat {
    if n == 0 then 1 else base * Pow(base, n - 1)
  }

  /** The number that the digits spell. */
  function Num(s: seq<int>, base: nat): nat
    requires AreDigits(s, base)
  {
    if s == [] then 0 else Num(s[..|s| - 1], base) * base + s[|s| - 1]
  }

  /** The number in little-endian bytes. */
  function LeValue(b: seq<int>): nat
    requires AreDigits(b, 256)
  {
    if b == [] then 0 else b[0] + 256 * LeValue(b[1..])
  }

  /** The shortest digits of `n`: none for zero, and never a leading zero. */
  function ToDigits(n: nat, base: nat): (s: seq<int>)
    requires base >= 2
    ensures AreDigits(s, base)
    ensures s != [] ==> s[0] != 0
    ensures s == [] <==> n == 0
    decreases n
  {
    if n == 0 then []
    else
      QuotientIsSmaller(n, base);
      ToDigits(n / base, base) + [n % base]
  }

  function Zeros(n: nat): (z: seq<int>)
    ensures |z| == n
    ensures forall i :: 0 <= i < n ==> z[i] == 0
  {
    seq(n, _ => 0)
  }

  // ----- products of unknowns, one fact at a time ---------------------------------

  lemma MulMono(a: int, b: int, c: int)
    requires a <= b && 0 <= c
    ensures a * c <= b * c
  {}

  lemma MulSucc(a: int, c: int)
    ensures (a + 1) * c == a * c + c
  {}

  lemma MulAssoc(a: int, b: int, c: int)
    ensures (a * b) * c == a * (b * c)
  {}

  lemma Shift(x: int, p: int, y: int, base: int)
    ensures (x * p + y) * base == x * (base * p) + y * base
  {
    assert (x * p) * base == x * (base * p);
  }

  lemma QuotientUnique(q: int, r: int, d: int, m: int, base: int)
    requires 0 <= r < base && 0 <= m < base && q * base + r == d * base + m
    ensures q == d && r == m
  {
    if q < d {
      MulMono(q + 1, d, base);
      MulSucc(q, base);
    } else if d < q {
      MulMono(d + 1, q, base);
      MulSucc(d, base);
    }
  }

  lemma DivModLaw(n: int, base: nat)
    requires base > 0
    ensures n == (n / base) * base + n % base && 0 <= n % base < base
  {}

  lemma QuotientIsSmaller(n: nat, base: nat)
    requires base >= 2 && n > 0
    ensures 0 <= n / base < n
  {
    DivModLaw(n, base);
    MulMono(2, base, n / base);
    assert base * (n / base) == (n / base) * base;
  }

  lemma DivModUnique(q: int, r: int, base: nat)
    requires 0 <= r < base
    ensures (q * base + r) / base == q && (q * base + r) % base == r
  {
    var n := q * base + r;
    DivModLaw(n, base);
    QuotientUnique(q, r, n / base, n % base, base);
  }

  lemma {:induction false} PowPositive(base: nat, n: nat)
    requires base > 0
    ensures Pow(base, n) > 0
  {
    if n > 0 { PowPositive(base, n - 1); }
  }

  lemma {:induction false} PowAdd(base: nat, m: nat, n: nat)
    ensures Pow(base, m + n) == Pow(base, m) * Pow(base, n)
  {
    if m > 0 {
      PowAdd(base, m - 1, n);
      MulAssoc(base, Pow(base, m - 1), Pow(base, n));
    }
  }

  lemma {:induction false} NumConcat(a: seq<int>, b: seq<int>, base: nat)
    requires AreDigits(a, base) && AreDigits(b, base)
    ensures Num(a + b, base) == Num(a, base) * Pow(base, |b|) + Num(b, base)
  {
    if b == [] {
      assert a + b == a;
    } else {
      var init := b[..|b| - 1];
      assert (a + b)[..|a + b| - 1] == a + init;
      NumConcat(a, init, base);
      var p := Pow(base, |init|);
      Shift(Num(a, base), p, Num(init, base), base);
    }
  }

  lemma {:induction false} NumBound(s: seq<int>, base: nat)
    requires base > 0 && AreDigits(s, base)
    ensures Num(s, base) < Pow(base, |s|)
  {
    if s != [] {
      var init := s[..|s| - 1];
      NumBound(init, base);
      MulMono(Num(init, base) + 1, Pow(base, |init|), base);
      MulSucc(Num(init, base), base);
    }
  }

  lemma NumSingle(d: int, base: nat)
    requires 0 <= d < base
    ensures Num([d], base) == d
  {
    assert [d][..0] == [];
  }

  lemma {:induction false} NumZeros(n: nat, base: nat)
    requires base > 0
    ensures Num(Zeros(n), base) == 0
  {
    if n > 0 {
      assert Zeros(n)[..n - 1] == Zeros(n - 1);
      NumZeros(n - 1, base);
    }
  }

  lemma {:induction false} OnlyZeros(s: seq<int>, base: nat)
    requires base > 0 && AreDigits(s, base) && Num(s, base) == 0
    ensures forall i :: 0 <= i < |s| ==> s[i] == 0
  {
    if s != [] {
      var init := s[..|s| - 1];
      if Num(init, base) > 0 { MulMono(1, Num(init, base), base); }
      OnlyZeros(init, base);
      assert forall i :: 0 <= i < |init| ==> s[i] == init[i];
    }
  }

  /** Leading zeros do not change the number. */
  lemma NumLeadingZeros(n: nat, s: seq<int>, base: nat)
    requires base > 0 && AreDigits(s, base)
    ensures Num(Zeros(n) + s, base) == Num(s, base)
  {
    NumZeros(n, base);
    NumConcat(Zeros(n), s, base);
  }

  lemma {:induction false} NumOfDigits(n: nat, base: nat)
    requires base >= 2
    ensures Num(ToDigits(n, base), base) == n
    decreases n
  {
    if n > 0 {
      QuotientIsSmaller(n, base);
      NumOfDigits(n / base, base);
      var s := ToDigits(n, base);
      assert s[..|s| - 1] == ToDigits(n / base, base);
      DivModLaw(n, base);
    }
  }

  /** The shortest digits are the only ones without a leading zero. */
  lemma {:induction false} DigitsOfNum(s: seq<int>, base: nat)
    requires base >= 2 && AreDigits(s, base)
    requires s == [] || s[0] != 0
    ensures ToDigits(Num(s, base), base) == s
  {
    if s != [] {
      var init := s[..|s| - 1];
      DigitsOfNum(init, base);
      NumNonZero(s, base);
      DivModUnique(Num(init, base), s[|s| - 1], base);
      assert s == init + [s[|s| - 1]];
    }
  }

  lemma {:induction false} NumNonZero(s: seq<int>, base: nat)
    requires base >= 2 && AreDigits(s, base) && s != [] && s[0] != 0
    ensures Num(s, base) > 0
  {
    if |s| > 1 {
      NumNonZero(s[..|s| - 1], base);
      assert Num(s[..|s| - 1], base) * base >= 1;
    } else {
      assert s == [s[0]];
      NumSingle(s[0], base);
    }
  }

  /** Among digit sequences of one length, the lexicographic order is the order of the numbers. */
  lemma {:induction false} LexIsNumeric(a: seq<int>, b: seq<int>, base: nat)
    requires base > 0 && |a| == |b| && AreDigits(a, base) && AreDigits(b, base)
    ensures LexLess(a, b) <==> Num(a, base) < Num(b, base)
  {
    if a != [] {
      var p := Pow(base, |a| - 1);
      NumFirst(a, base);
      NumFirst(b, base);
      NumBound(a[1..], base);
      NumBound(b[1..], base);
      LexIsNumeric(a[1..], b[1..], base);
      if a[0] < b[0] {
        MulMono(a[0] + 1, b[0], p);
        MulSucc(a[0], p);
      } else if b[0] < a[0] {
        MulMono(b[0] + 1, a[0], p);
        MulSucc(b[0], p);
      }
    }
  }

  lemma NumFirst(s: seq<int>, base: nat)
    requires s != [] && AreDigits(s, base)
    ensures Num(s, base) == s[0] * Pow(base, |s| - 1) + Num(s[1..], base)
  {
    assert s == [s[0]] + s[1..];
    NumConcat([s[0]], s[1..], base);
    NumSingle(s[0], base);
  }

  /** Digit sequences of one length that spell the same number are equal. */
  lemma SameNumSameDigits(a: seq<int>, b: seq<int>, base: nat)
    requires base > 0 && |a| == |b| && AreDigits(a, base) && AreDigits(b, base)
    requires Num(a, base) == Num(b, base)
    ensures a == b
  {
    LexIsNumeric(a, b, base);
    LexIsNumeric(b, a, base);
    LexTotal(a, b);
  }

  // ----- changing the base, keeping leading zeros one for one ------------------------

  function LeadZeros(s: seq<int>): (n: nat)
    ensures n <= |s|
    ensures forall i :: 0 <= i < n ==> s[i] == 0
    ensures n < |s| ==> s[n] != 0
  {
    if s == [] || s[0] != 0 then 0
    else
      var n := LeadZeros(s[1..]);
      assert forall i :: 0 < i < n + 1 ==> s[i] == s[1..][i - 1];
      1 + n
  }

  function Convert(s: seq<int>, base: nat, base': nat): (r: seq<int>)
    requires base >= 2 && base' >= 2 && AreDigits(s, base)
    ensures AreDigits(r, base')
  {
    Zeros(LeadZeros(s)) + ToDigits(Num(s, base), base')
  }

  lemma LeadZerosOf(n: nat, s: seq<int>)
    requires s == [] || s[0] != 0
    ensures LeadZeros(Zeros(n) + s) == n
  {
    var z := Zeros(n) + s;
    var k := LeadZeros(z);
    assert forall i :: 0 <= i < n ==> z[i] == 0;
    assert n < |z| ==> z[n] == s[0];
  }

  /** The shortest digits are what is left of any digits without the leading zeros. */
  lemma StripZeros(s: seq<int>, base: nat)
    requires base >= 2 && AreDigits(s, base)
    ensures Zeros(LeadZeros(s)) + ToDigits(Num(s, base), base) == s
  {
    var n := LeadZeros(s);
    assert s == Zeros(n) + s[n..];
    NumLeadingZeros(n, s[n..], base);
    DigitsOfNum(s[n..], base);
  }

  /** Converting to another base and back gives the same digits. */
  lemma ConvertBack(s: seq<int>, base: nat, base': nat)
    requires base >= 2 && base' >= 2 && AreDigits(s, base)
    ensures Convert(Convert(s, base, base'), base', base) == s
  {
    var n := LeadZeros(s);
    var v := Num(s, base);
    LeadZerosOf(n, ToDigits(v, base'));
    NumLeadingZeros(n, ToDigits(v, base'), base');
    NumOfDigits(v, base');
    StripZeros(s, base);
  }

  lemma ConvertKeepsNum(s: seq<int>, base: nat, base': nat)
    requires base >= 2 && base' >= 2 && AreDigits(s, base)
    ensures Num(Convert(s, base, base'), base') == Num(s, base)
  {
    NumLeadingZeros(LeadZeros(s), ToDigits(Num(s, base), base'), base');
    NumOfDigits(Num(s, base), base');
  }

  /** A number below a power needs no more digits than the exponent. */
  lemma {:induction false} DigitsAreFew(n: nat, base: nat, k: nat)
    requires base >= 2 && n < Pow(base, k)
    ensures |ToDigits(n, base)| <= k
    decreases k
  {
    if n > 0 && k > 0 {
      DivModLaw(n, base);
      if n / base >= Pow(base, k - 1) { MulMono(Pow(base, k - 1), n / base, base); }
      DigitsAreFew(n / base, base, k - 1);
    }
  }
}
