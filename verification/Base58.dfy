/**
The two base58 decoders of the web client. `decodeBase58` of web/js/storage.js grows a
little-endian byte array in place; `decodeBase58` of web/js/app.js accumulates one big integer and
writes it as 32 bytes. The first makes the key under which shares are saved, the second the key
under which they are looked up.
*/
module Base58 {
  import opened Basics
  import opened Radix

  const ALPHABET: string :=
    "123456789" + "ABCDEFGH" + "JKLMN" + "PQRSTUVWXYZ" + "abcdefghijk" + "mnopqrstuvwxyz"

  /** The character of a digit. */
  function Letter(i: nat): char
    requires i < 58
  {
    (if i < 9 then 49 + i else if i < 17 then 56 + i else if i < 22 then 57 + i
     else if i < 33 then 58 + i else if i < 44 then 64 + i else 65 + i) as char
  }

  /** `alphabet.indexOf(ch)`, with the length of the alphabet for -1. */
  function Index(c: char): (i: nat)
    ensures i <= 58
  {
    if '1' <= c <= '9' then c as int - 49
    else if 'A' <= c <= 'H' then c as int - 56
    else if 'J' <= c <= 'N' then c as int - 57
    else if 'P' <= c <= 'Z' then c as int - 58
    else if 'a' <= c <= 'k' then c as int - 64
    else if 'm' <= c <= 'z' then c as int - 65
    else 58
  }

  predicate Spelled(i: nat)
    requires i <= 58
    decreases 58 - i
  {
    i == 58 || (ALPHABET[i] == Letter(i) && Spelled(i + 1))
  }

  lemma {:induction false} SpelledAt(i: nat, k: nat)
    requires i <= k < 58 && Spelled(i)
    ensures ALPHABET[k] == Letter(k)
    decreases k - i
  {
    if i < k { SpelledAt(i + 1, k); }
  }

  lemma SpelledFrom30()
    ensures Spelled(30)
  {
    assert Spelled(50);
    assert Spelled(40);
  }

  lemma AlphabetIsSpelled()
    ensures Spelled(0)
  {
    SpelledFrom30();
    assert Spelled(20);
    assert Spelled(10);
  }

  lemma LetterIndex(i: nat, c: char)
    ensures i < 58 ==> Index(Letter(i)) == i
    ensures Index(c) < 58 ==> Letter(Index(c)) == c && c as int < 128
  {}

  /** The index is the one place of the alphabet where the character stands. */
  lemma IndexIsThePlace(c: char, k: nat)
    requires k < 58
    ensures ALPHABET[k] == c <==> Index(c) == k
  {
    AlphabetIsSpelled();
    SpelledAt(0, k);
    LetterIndex(k, c);
  }

  predicate IsBase58(s: string) { forall i :: 0 <= i < |s| ==> Index(s[i]) < 58 }

  /** The digits of a text, most significant first. */
  function DigitsOf(s: string): (d: seq<int>)
    requires IsBase58(s)
    ensures |d| == |s| && AreDigits(d, 58)
    ensures forall i :: 0 <= i < |s| ==> d[i] == Index(s[i])
  {
    seq(|s|, i requires 0 <= i < |s| => Index(s[i]))
  }

  /** How many characters `1`, the digit zero, a text starts with. */
  function LeadingOnes(s: string): (n: nat)
    ensures n <= |s|
    ensures forall i :: 0 <= i < n ==> s[i] == '1'
    ensures n < |s| ==> s[n] != '1'
  {
    if s == [] || s[0] != '1' then 0
    else
      var n := LeadingOnes(s[1..]);
      assert forall i :: 0 < i < n + 1 ==> s[i] == s[1..][i - 1];
      1 + n
  }

  /** The number a text spells. */
  function Value(s: string): nat
    requires IsBase58(s)
  {
    Num(DigitsOf(s), 58)
  }

  /** What base58 means: a zero byte for each leading `1`, then the number in as few bytes as it takes. */
  function Bytes58(s: string): seq<int>
    requires IsBase58(s)
  {
    Zeros(LeadingOnes(s)) + ToDigits(Value(s), 256)
  }

  // ----- the array decoder ---------------------------------------------------------------

  function Reverse(s: seq<int>): (r: seq<int>)
    ensures |r| == |s|
    ensures forall i :: 0 <= i < |s| ==> r[i] == s[|s| - 1 - i]
  {
    seq(|s|, i requires 0 <= i < |s| => s[|s| - 1 - i])
  }

  lemma {:induction false} LeValueIsReversed(b: seq<int>)
    requires AreDigits(b, 256)
    ensures Num(Reverse(b), 256) == LeValue(b)
  {
    if b != [] {
      var r := Reverse(b);
      assert r[..|r| - 1] == Reverse(b[1..]);
      LeValueIsReversed(b[1..]);
    }
  }

  /** The shortest array of a number, except that zero is one zero byte. */
  ghost predicate Minimal(b: seq<int>) { |b| >= 1 && (|b| == 1 || b[|b| - 1] != 0) }

  /** The byte that stays where 58 times a byte and the carry are put, and what is carried on. */
  function Low(b: int, carry: nat): int { (carry + b * 58) % 256 }

  function High(b: int, carry: nat): (c: nat)
    requires 0 <= b < 256 && carry < 58
    ensures c < 58
  {
    (carry + b * 58) / 256
  }

  /** 58 times the number plus `carry`, byte by byte. */
  ghost function MulAdd(b: seq<int>, carry: nat): (r: seq<int>)
    requires AreDigits(b, 256) && carry < 58
    ensures AreDigits(r, 256)
  {
    if b == [] then (if carry > 0 then [carry] else [])
    else [Low(b[0], carry)] + MulAdd(b[1..], High(b[0], carry))
  }

  lemma {:induction false} MulAddLaws(b: seq<int>, carry: nat)
    requires AreDigits(b, 256) && carry < 58
    ensures LeValue(MulAdd(b, carry)) == 58 * LeValue(b) + carry
    ensures |b| <= |MulAdd(b, carry)| <= |b| + 1
  {
    var r := MulAdd(b, carry);
    if b == [] {
      if carry > 0 { assert r[1..] == []; }
    } else {
      MulAddLaws(b[1..], High(b[0], carry));
      assert r[1..] == MulAdd(b[1..], High(b[0], carry));
    }
  }

  lemma {:induction false} MulAddTop(b: seq<int>, carry: nat)
    requires AreDigits(b, 256) && carry < 58 && b != [] && b[|b| - 1] != 0
    ensures var r := MulAdd(b, carry);
            r != [] && r[|r| - 1] != 0
  {
    if |b| == 1 {
      assert b[1..] == [];
    } else {
      MulAddTop(b[1..], High(b[0], carry));
    }
  }

  lemma MulAddMinimal(b: seq<int>, carry: nat)
    requires AreDigits(b, 256) && carry < 58 && Minimal(b)
    ensures Minimal(MulAdd(b, carry))
  {
    if b[|b| - 1] != 0 {
      MulAddTop(b, carry);
    } else {
      assert b[1..] == [];
    }
  }

  /**
  One character: multiply by 58 and add, carrying in place. The carry stays below 58, so the array
  grows by at most one byte, and it stays as short as its number allows.
  */
  method PushDigit(bytes: seq<int>, value: nat) returns (out: seq<int>)
    requires AreDigits(bytes, 256) && Minimal(bytes) && value < 58
    ensures AreDigits(out, 256) && Minimal(out)
    ensures LeValue(out) == 58 * LeValue(bytes) + value
    ensures |bytes| <= |out| <= |bytes| + 1
  {
    var carry;
    out, carry := CarryPass(bytes, value);
    while carry > 0
      invariant 0 <= carry <= 57
      invariant out + MulAdd([], carry) == MulAdd(bytes, value)
    {
      out := out + [carry % 256];
      carry := carry / 256;
    }
    assert out == MulAdd(bytes, value);
    MulAddLaws(bytes, value);
    MulAddMinimal(bytes, value);
  }

  method CarryByte(b: int, carry: nat) returns (low: int, next: nat)
    requires 0 <= b < 256 && carry < 58
    ensures low == Low(b, carry) && next == High(b, carry)
  {
    next := carry + b * 58;
    low := next % 256;
    next := next / 256;
  }

  /** The inner loop over the bytes there are. */
  method CarryPass(bytes: seq<int>, value: nat) returns (out: seq<int>, carry: nat)
    requires AreDigits(bytes, 256) && value < 58
    ensures carry <= 57
    ensures out + MulAdd([], carry) == MulAdd(bytes, value)
  {
    carry := value;
    out := bytes;
    ghost var done: seq<int> := [];
    for j := 0 to |bytes|
      invariant |done| == j && out == done + bytes[j..]
      invariant 0 <= carry <= 57
      invariant done + MulAdd(bytes[j..], carry) == MulAdd(bytes, value)
    {
      SetNext(done, bytes, j, Low(bytes[j], carry));
      ghost var before := carry;
      var low;
      low, carry := CarryByte(out[j], carry);
      out := out[j := low];
      MulAddTurn(done, bytes, j, before);
      done := done + [low];
    }
    assert bytes[|bytes|..] == [] && out == done;
  }

  lemma SetNext(done: seq<int>, bytes: seq<int>, j: nat, v: int)
    requires |done| == j < |bytes|
    ensures (done + bytes[j..])[j] == bytes[j] && (done + bytes[j..])[j := v] == done + [v] + bytes[j + 1..]
  {}

  lemma MulAddTurn(done: seq<int>, bytes: seq<int>, j: nat, carry: nat)
    requires AreDigits(bytes, 256) && j < |bytes| && carry < 58
    ensures done + MulAdd(bytes[j..], carry) == done + [Low(bytes[j], carry)] + MulAdd(bytes[j + 1..], High(bytes[j], carry))
  {
    assert bytes[j..][1..] == bytes[j + 1..];
  }

  /** The array decoder as a function. */
  function ArrayDecode(s: string): Option<seq<int>> {
    if !IsBase58(s) then None else if s == [] then Some([0]) else Some(Bytes58(s))
  }

  /** `decodeBase58` of web/js/storage.js; a character outside the alphabet is an error. */
  method DecodeArray(s: string) returns (r: Option<seq<int>>)
    ensures r == ArrayDecode(s)
  {
    var bytes := [0];
    assert LeValue([0]) == 0 by { assert [0][1..] == []; }
    for i := 0 to |s|
      invariant IsBase58(s[..i])
      invariant AreDigits(bytes, 256) && Minimal(bytes)
      invariant LeValue(bytes) == Value(s[..i])
    {
      var value := Index(s[i]);
      if value == 58 {
        return None;
      }
      ValueStep(s, i);
      bytes := PushDigit(bytes, value);
    }
    assert s[..|s|] == s;
    var i := 0;
    ghost var digits := bytes;
    while i < |s| - 1 && s[i] == '1'
      invariant 0 <= i && (i <= |s| - 1 || i == 0)
      invariant forall k :: 0 <= k < i ==> s[k] == '1'
      invariant bytes == digits + Zeros(i)
    {
      bytes := bytes + [0];
      i := i + 1;
    }
    r := Some(Reverse(bytes));
    if s != [] {
      ArrayIsBytes(s, digits, i);
    } else {
      NothingIsZero(digits);
    }
  }

  lemma NothingIsZero(digits: seq<int>)
    requires AreDigits(digits, 256) && Minimal(digits) && LeValue(digits) == 0
    ensures Reverse(digits + Zeros(0)) == [0]
  {
    MinimalZero(digits);
  }

  lemma ValueStep(s: string, i: nat)
    requires i < |s| && IsBase58(s[..i]) && Index(s[i]) < 58
    ensures IsBase58(s[..i + 1])
    ensures Value(s[..i + 1]) == Value(s[..i]) * 58 + Index(s[i])
  {
    var d := DigitsOf(s[..i + 1]);
    assert d[..i] == DigitsOf(s[..i]);
  }

  lemma MinimalZero(b: seq<int>)
    requires AreDigits(b, 256) && Minimal(b) && LeValue(b) == 0
    ensures b == [0]
  {
    LeValueIsReversed(b);
    if |b| > 1 { NumNonZero(Reverse(b), 256); } else { assert b[1..] == []; }
  }

  /** The finished array, reversed, is what base58 means. */
  lemma ArrayIsBytes(s: string, digits: seq<int>, ones: nat)
    requires IsBase58(s) && s != []
    requires AreDigits(digits, 256) && Minimal(digits) && LeValue(digits) == Value(s)
    requires ones <= |s| - 1 && (forall k :: 0 <= k < ones ==> s[k] == '1') && (ones < |s| - 1 ==> s[ones] != '1')
    ensures Reverse(digits + Zeros(ones)) == Bytes58(s)
  {
    assert Reverse(digits + Zeros(ones)) == Zeros(ones) + Reverse(digits);
    LeValueIsReversed(digits);
    if Value(s) == 0 {
      MinimalZero(digits);
      AllOnes(s);
      assert Reverse(digits) == [0];
      assert Zeros(ones) + [0] == Zeros(ones + 1) + [];
    } else {
      if |digits| == 1 { assert digits[1..] == [] && digits[0] != 0; }
      DigitsOfNum(Reverse(digits), 256);
      if LeadingOnes(s) == |s| { OnesAreZero(s); }
    }
  }

  lemma OneIsZero(c: char)
    ensures c == '1' <==> Index(c) == 0
  {
  }

  lemma OnesAreZero(s: string)
    requires IsBase58(s) && LeadingOnes(s) == |s|
    ensures Value(s) == 0
  {
    forall i | 0 <= i < |s| ensures DigitsOf(s)[i] == 0 { OneIsZero(s[i]); }
    assert DigitsOf(s) == Zeros(|s|);
    NumZeros(|s|, 58);
  }

  lemma AllOnes(s: string)
    requires IsBase58(s) && Value(s) == 0
    ensures LeadingOnes(s) == |s|
  {
    OnlyZeros(DigitsOf(s), 58);
    var n := LeadingOnes(s);
    if n < |s| {
      assert DigitsOf(s)[n] == Index(s[n]);
      OneIsZero(s[n]);
    }
  }
}
