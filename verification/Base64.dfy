/**
Base64 as browsers have it: `btoa` pads with `=`, `atob` is forgiving (it drops white space, accepts
missing padding and ignores unused low bits). A binary string is the sequence of its character codes.
*/
module Base64 {
  import opened Basics
  import opened Radix

  // ----- bytes and groups of six bits -------------------------------------------------------

  // The sextets of three bytes, and the bytes of four sextets.
  function E0(a: int): int { a / 4 }
  function E1(a: int, b: int): int { a % 4 * 16 + b / 16 }
  function E2(b: int, c: int): int { b % 16 * 4 + c / 64 }
  function E3(c: int): int { c % 64 }
  function D0(p: int, q: int): int { p * 4 + q / 16 }
  function D1(q: int, r: int): int { q % 16 * 16 + r / 4 }
  function D2(r: int, s: int): int { r % 4 * 64 + s }

  /** Digit `i`, or zero past the end. */
  function At(s: seq<int>, i: nat): int { if i < |s| then s[i] else 0 }

  function SextetAt(b: seq<int>, g: nat, r: nat): int
    requires r < 4
  {
    if r == 0 then E0(At(b, 3 * g))
    else if r == 1 then E1(At(b, 3 * g), At(b, 3 * g + 1))
    else if r == 2 then E2(At(b, 3 * g + 1), At(b, 3 * g + 2))
    else E3(At(b, 3 * g + 2))
  }

  function OctetAt(s: seq<int>, g: nat, r: nat): int
    requires r < 3
  {
    if r == 0 then D0(At(s, 4 * g), At(s, 4 * g + 1))
    else if r == 1 then D1(At(s, 4 * g + 1), At(s, 4 * g + 2))
    else D2(At(s, 4 * g + 2), At(s, 4 * g + 3))
  }

  /** The ceiling of 4n/3. */
  function TextLength(n: nat): nat { (4 * n + 2) / 3 }

  /** Bytes as groups of six bits, the last one filled with zero bits. */
  function Sextets(b: seq<int>): (s: seq<int>)
    requires AreDigits(b, 256)
    ensures |s| == TextLength(|b|) && AreDigits(s, 64)
  {
    seq(TextLength(|b|), j requires 0 <= j < TextLength(|b|) => SextetAt(b, j / 4, j % 4))
  }

  /** The whole bytes in groups of six bits; bits left over are dropped. */
  function Octets(s: seq<int>): (b: seq<int>)
    requires AreDigits(s, 64)
    ensures |b| == |s| * 3 / 4 && AreDigits(b, 256)
  {
    seq(|s| * 3 / 4, k requires 0 <= k < |s| * 3 / 4 => OctetAt(s, k / 3, k % 3))
  }

  /** The bits of the last sextet that belong to no byte are zero. */
  predicate TrailingBitsZero(s: seq<int>)
    requires AreDigits(s, 64)
  {
    && (|s| % 4 == 2 ==> s[|s| - 1] % 16 == 0)
    && (|s| % 4 == 3 ==> s[|s| - 1] % 4 == 0)
  }

  // ----- the arithmetic, one fact at a time ---------------------------------------------

  lemma GroupOf(j: nat, k: nat)
    requires k > 0
    ensures j == k * (j / k) + j % k && j % k < k
  {}

  lemma InGroup(g: nat, r: nat, k: nat)
    requires r < k
    ensures (k * g + r) / k == g && (k * g + r) % k == r
  {
    DivModUnique(g, r, k);
  }

  lemma DecodeFirst(a: int, b: int)
    requires 0 <= a < 256 && 0 <= b < 256
    ensures D0(E0(a), E1(a, b)) == a
  {
    DivModUnique(a % 4, b / 16, 16);
  }

  lemma DecodeSecond(a: int, b: int, c: int)
    requires 0 <= a < 256 && 0 <= b < 256 && 0 <= c < 256
    ensures D1(E1(a, b), E2(b, c)) == b
  {
    DivModUnique(a % 4, b / 16, 16);
    DivModUnique(b % 16, c / 64, 4);
  }

  lemma DecodeThird(b: int, c: int)
    requires 0 <= b < 256 && 0 <= c < 256
    ensures D2(E2(b, c), E3(c)) == c
  {
    DivModUnique(b % 16, c / 64, 4);
  }

  lemma EncodeFirst(p: int, q: int)
    requires 0 <= p < 64 && 0 <= q < 64
    ensures E0(D0(p, q)) == p
  {
    DivModUnique(p, q / 16, 4);
  }

  lemma EncodeSecond(p: int, q: int, r: int)
    requires 0 <= p < 64 && 0 <= q < 64 && 0 <= r < 64
    ensures E1(D0(p, q), D1(q, r)) == q && E1(D0(p, q), 0) == q - q % 16
  {
    DivModUnique(p, q / 16, 4);
    DivModUnique(q % 16, r / 4, 16);
  }

  lemma EncodeThird(q: int, r: int, s: int)
    requires 0 <= q < 64 && 0 <= r < 64 && 0 <= s < 64
    ensures E2(D1(q, r), D2(r, s)) == r && E2(D1(q, r), 0) == r - r % 4
  {
    DivModUnique(q % 16, r / 4, 16);
    DivModUnique(r % 4, s, 64);
  }

  lemma EncodeFourth(r: int, s: int)
    requires 0 <= r < 64 && 0 <= s < 64
    ensures E3(D2(r, s)) == s
  {
    DivModUnique(r % 4, s, 64);
  }

  /** Which bytes there are when sextet `4g` exists. */
  lemma Room(m: nat, g: nat)
    requires m % 4 != 1 && 4 * g < m
    ensures 4 * g + 1 < m && 3 * g < m * 3 / 4
    ensures 3 * g + 1 < m * 3 / 4 <==> 4 * g + 2 < m
    ensures 3 * g + 2 < m * 3 / 4 <==> 4 * g + 3 < m
  {
    InGroup(g, 0, 4);
  }

  // ----- decoding undoes encoding -----------------------------------------------------------

  lemma SextetsIn(b: seq<int>, g: nat, r: nat)
    requires AreDigits(b, 256) && r < 4 && 4 * g + r < TextLength(|b|)
    ensures At(Sextets(b), 4 * g + r) == SextetAt(b, g, r)
  {
    InGroup(g, r, 4);
  }

  lemma OctetsIn(s: seq<int>, g: nat, r: nat)
    requires AreDigits(s, 64) && r < 3 && 3 * g + r < |s| * 3 / 4
    ensures At(Octets(s), 3 * g + r) == OctetAt(s, g, r)
  {
    InGroup(g, r, 3);
  }

  /** Which sextets there are when a byte exists. */
  lemma TextRoom(n: nat, g: nat)
    ensures 3 * g < n ==> 4 * g + 1 < TextLength(n)
    ensures 3 * g + 1 < n ==> 4 * g + 2 < TextLength(n)
    ensures 3 * g + 2 < n ==> 4 * g + 3 < TextLength(n)
  {
    DivModLaw(4 * n + 2, 3);
  }

  lemma FirstOctet(b: seq<int>, g: nat)
    requires AreDigits(b, 256) && 3 * g < |b|
    ensures OctetAt(Sextets(b), g, 0) == b[3 * g]
  {
    TextRoom(|b|, g);
    SextetsIn(b, g, 0);
    SextetsIn(b, g, 1);
    DecodeFirst(At(b, 3 * g), At(b, 3 * g + 1));
  }

  lemma SecondOctet(b: seq<int>, g: nat)
    requires AreDigits(b, 256) && 3 * g + 1 < |b|
    ensures OctetAt(Sextets(b), g, 1) == b[3 * g + 1]
  {
    TextRoom(|b|, g);
    SextetsIn(b, g, 1);
    SextetsIn(b, g, 2);
    DecodeSecond(At(b, 3 * g), At(b, 3 * g + 1), At(b, 3 * g + 2));
  }

  lemma ThirdOctet(b: seq<int>, g: nat)
    requires AreDigits(b, 256) && 3 * g + 2 < |b|
    ensures OctetAt(Sextets(b), g, 2) == b[3 * g + 2]
  {
    TextRoom(|b|, g);
    SextetsIn(b, g, 2);
    SextetsIn(b, g, 3);
    DecodeThird(At(b, 3 * g + 1), At(b, 3 * g + 2));
  }

  /** Decoding undoes encoding. */
  lemma OctetsOfSextets(b: seq<int>)
    requires AreDigits(b, 256)
    ensures Octets(Sextets(b)) == b
  {
    assert TextLength(|b|) * 3 / 4 == |b|;
    forall k | 0 <= k < |b| ensures Octets(Sextets(b))[k] == b[k] {
      GroupOf(k, 3);
      if k % 3 == 0 { FirstOctet(b, k / 3); } else if k % 3 == 1 { SecondOctet(b, k / 3); } else { ThirdOctet(b, k / 3); }
    }
  }

  // ----- encoding undoes decoding of canonical groups ------------------------------------------

  /** Sextet `4g + r` without the bits that `Octets` drops. */
  function Kept(s: seq<int>, g: nat, r: nat): int
    requires r < 4 && 4 * g + r < |s|
  {
    var x := s[4 * g + r];
    if 4 * g + r + 1 < |s| then x
    else if r == 1 then x - x % 16
    else if r == 2 then x - x % 4
    else x
  }

  lemma FirstSextet(s: seq<int>, g: nat)
    requires AreDigits(s, 64) && |s| % 4 != 1 && 4 * g < |s|
    ensures SextetAt(Octets(s), g, 0) == Kept(s, g, 0)
  {
    Room(|s|, g);
    OctetsIn(s, g, 0);
    EncodeFirst(At(s, 4 * g), At(s, 4 * g + 1));
  }

  lemma SecondSextet(s: seq<int>, g: nat)
    requires AreDigits(s, 64) && |s| % 4 != 1 && 4 * g + 1 < |s|
    ensures SextetAt(Octets(s), g, 1) == Kept(s, g, 1)
  {
    Room(|s|, g);
    OctetsIn(s, g, 0);
    if 4 * g + 2 < |s| { OctetsIn(s, g, 1); }
    EncodeSecond(At(s, 4 * g), At(s, 4 * g + 1), At(s, 4 * g + 2));
  }

  lemma ThirdSextet(s: seq<int>, g: nat)
    requires AreDigits(s, 64) && |s| % 4 != 1 && 4 * g + 2 < |s|
    ensures SextetAt(Octets(s), g, 2) == Kept(s, g, 2)
  {
    Room(|s|, g);
    OctetsIn(s, g, 1);
    if 4 * g + 3 < |s| { OctetsIn(s, g, 2); }
    EncodeThird(At(s, 4 * g + 1), At(s, 4 * g + 2), At(s, 4 * g + 3));
  }

  lemma FourthSextet(s: seq<int>, g: nat)
    requires AreDigits(s, 64) && |s| % 4 != 1 && 4 * g + 3 < |s|
    ensures SextetAt(Octets(s), g, 3) == Kept(s, g, 3)
  {
    Room(|s|, g);
    OctetsIn(s, g, 2);
    EncodeFourth(At(s, 4 * g + 2), At(s, 4 * g + 3));
  }

  lemma SextetOfOctets(s: seq<int>, g: nat, r: nat)
    requires AreDigits(s, 64) && |s| % 4 != 1 && r < 4 && 4 * g + r < |s|
    ensures SextetAt(Octets(s), g, r) == Kept(s, g, r)
  {
    if r == 0 { FirstSextet(s, g); }
    else if r == 1 { SecondSextet(s, g); }
    else if r == 2 { ThirdSextet(s, g); }
    else { FourthSextet(s, g); }
  }

  /** Encoding undoes decoding exactly for the canonical sextets. */
  lemma SextetsOfOctets(s: seq<int>)
    requires AreDigits(s, 64) && |s| % 4 != 1
    ensures Sextets(Octets(s)) == s <==> TrailingBitsZero(s)
  {
    SextetsKept(s);
    KeptEquals(s, Sextets(Octets(s)));
  }

  lemma SextetsKept(s: seq<int>)
    requires AreDigits(s, 64) && |s| % 4 != 1
    ensures |Sextets(Octets(s))| == |s|
    ensures forall i :: 0 <= i < |s| ==> Sextets(Octets(s))[i] == KeptAt(s, i)
  {
    LengthsAgree(|s|);
    forall i | 0 <= i < |s| ensures Sextets(Octets(s))[i] == KeptAt(s, i) {
      GroupOf(i, 4);
      SextetOfOctets(s, i / 4, i % 4);
    }
  }

  function KeptAt(s: seq<int>, i: nat): int
    requires i < |s|
  {
    GroupOf(i, 4);
    Kept(s, i / 4, i % 4)
  }

  lemma KeptEquals(s: seq<int>, t: seq<int>)
    requires AreDigits(s, 64) && |s| % 4 != 1 && |t| == |s|
    requires forall i :: 0 <= i < |s| ==> t[i] == KeptAt(s, i)
    ensures t == s <==> TrailingBitsZero(s)
  {
    if s != [] {
      LastKept(s);
      forall i | 0 <= i < |s| - 1 ensures t[i] == s[i] { GroupOf(i, 4); }
    }
  }

  lemma LengthsAgree(m: nat)
    requires m % 4 != 1
    ensures TextLength(m * 3 / 4) == m
  {}

  /** Only the last sextet can lose bits, and it loses none exactly when they are zero. */
  lemma LastKept(s: seq<int>)
    requires AreDigits(s, 64) && |s| % 4 != 1 && s != []
    ensures var i := |s| - 1;
            KeptAt(s, i) == s[i] <==> TrailingBitsZero(s)
  {
    var i := |s| - 1;
    GroupOf(i, 4);
    LastInGroup(i);
  }

  lemma LastInGroup(i: nat)
    ensures (i + 1) % 4 == 2 <==> i % 4 == 1
    ensures (i + 1) % 4 == 3 <==> i % 4 == 2
  {}

  // ----- the standard alphabet -----------------------------------------------------------------

  /** A-Z, a-z, 0-9, then the two given characters. */
  function CharOf(n: int, c62: char, c63: char): char
    requires 0 <= n < 64
  {
    if n < 26 then (65 + n) as char
    else if n < 52 then (71 + n) as char
    else if n < 62 then (n - 4) as char
    else if n == 62 then c62 else c63
  }

  /** The value of a character, or 64. */
  function IndexOf(c: char, c62: char, c63: char): (n: int)
    ensures 0 <= n <= 64
  {
    if 'A' <= c <= 'Z' then c as int - 65
    else if 'a' <= c <= 'z' then c as int - 71
    else if '0' <= c <= '9' then c as int + 4
    else if c == c62 then 62
    else if c == c63 then 63
    else 64
  }

  predicate InAlphabet(t: string, c62: char, c63: char) {
    forall i :: 0 <= i < |t| ==> IndexOf(t[i], c62, c63) < 64
  }

  function TextOf(s: seq<int>, c62: char, c63: char): (t: string)
    requires AreDigits(s, 64)
    ensures |t| == |s|
    ensures forall i :: 0 <= i < |s| ==> t[i] == CharOf(s[i], c62, c63)
  {
    seq(|s|, i requires 0 <= i < |s| => CharOf(s[i], c62, c63))
  }

  function SextetsOf(t: string, c62: char, c63: char): (s: seq<int>)
    requires InAlphabet(t, c62, c63)
    ensures |s| == |t| && AreDigits(s, 64)
    ensures forall i :: 0 <= i < |t| ==> s[i] == IndexOf(t[i], c62, c63)
  {
    seq(|t|, i requires 0 <= i < |t| => IndexOf(t[i], c62, c63))
  }

  lemma TextRoundTrip(s: seq<int>, c62: char, c63: char)
    requires AreDigits(s, 64) && ((c62 == '+' && c63 == '/') || (c62 == '-' && c63 == '_'))
    ensures InAlphabet(TextOf(s, c62, c63), c62, c63) && SextetsOf(TextOf(s, c62, c63), c62, c63) == s
  {}

  lemma SextetsRoundTrip(t: string, c62: char, c63: char)
    requires InAlphabet(t, c62, c63)
    ensures TextOf(SextetsOf(t, c62, c63), c62, c63) == t
  {}

  // ----- btoa and atob ----------------------------------------------------------------------------

  function Equals(n: nat): (e: string)
    ensures |e| == n && forall i :: 0 <= i < n ==> e[i] == '='
  {
    seq(n, _ => '=')
  }

  /** How many `=` fill a text up to a multiple of four: `(4 - n % 4) % 4`. */
  function PadOf(n: nat): (k: nat)
    ensures k < 4 && (n + k) % 4 == 0
  {
    if n % 4 == 0 then 0 else 4 - n % 4
  }

  function Btoa(b: seq<int>): string
    requires AreDigits(b, 256)
  {
    var t := TextOf(Sextets(b), '+', '/');
    t + Equals(PadOf(|t|))
  }

  predicate IsSpace(c: char) { c == ' ' || c == '\t' || c == '\n' || c == '\r' || c as int == 12 }

  function DropSpaces(t: string): string {
    if t == [] then [] else (if IsSpace(t[0]) then [] else [t[0]]) + DropSpaces(t[1..])
  }

  /** Up to two trailing `=`, and only when the length is a multiple of four. */
  function Unpad(t: string): string {
    var n := |t|;
    if n % 4 == 0 && n >= 1 && t[n - 1] == '=' then
      if t[n - 2] == '=' then t[..n - 2] else t[..n - 1]
    else t
  }

  function Atob(text: string): (r: Option<seq<int>>)
    ensures r.Some? ==> AreDigits(r.value, 256)
  {
    var t := Unpad(DropSpaces(text));
    if |t| % 4 == 1 || !InAlphabet(t, '+', '/') then None
    else Some(Octets(SextetsOf(t, '+', '/')))
  }

  lemma {:induction false} NothingToDrop(t: string)
    requires forall i :: 0 <= i < |t| ==> !IsSpace(t[i])
    ensures DropSpaces(t) == t
  {
    if t != [] { NothingToDrop(t[1..]); }
  }

  lemma PlainChar(c: char)
    requires IndexOf(c, '+', '/') < 64
    ensures !IsSpace(c) && c != '='
  {}

  /** Padding what has no padding yet is what `atob` undoes first. */
  lemma UnpadOfPadded(t: string, k: nat)
    requires InAlphabet(t, '+', '/') && k <= 2 && (|t| + k) % 4 == 0 && (t == [] ==> k == 0)
    ensures Unpad(DropSpaces(t + Equals(k))) == t
  {
    var p := t + Equals(k);
    forall i | 0 <= i < |p| ensures !IsSpace(p[i]) {
      if i < |t| { PlainChar(t[i]); }
    }
    NothingToDrop(p);
    if t != [] { PlainChar(t[|t| - 1]); }
    UnpadEquals(t, k);
  }

  lemma UnpadEquals(t: string, k: nat)
    requires k <= 2 && (|t| + k) % 4 == 0 && (t == [] ==> k == 0) && (t != [] ==> t[|t| - 1] != '=')
    ensures Unpad(t + Equals(k)) == t
  {
    var p := t + Equals(k);
    assert p[..|t|] == t;
    if k == 0 { assert p == t; }
  }

  lemma AtobPadded(t: string)
    requires InAlphabet(t, '+', '/') && |t| % 4 != 1
    ensures Atob(t + Equals(PadOf(|t|))) == Some(Octets(SextetsOf(t, '+', '/')))
  {
    UnpadOfPadded(t, PadOf(|t|));
  }

  lemma TextLengthIsWhole(n: nat)
    ensures TextLength(n) % 4 != 1
  {}

  /** `atob` undoes `btoa`. */
  lemma AtobOfBtoa(b: seq<int>)
    requires AreDigits(b, 256)
    ensures Atob(Btoa(b)) == Some(b)
  {
    OctetsOfSextets(b);
    TextLengthIsWhole(|b|);
    TextRoundTrip(Sextets(b), '+', '/');
    AtobPadded(TextOf(Sextets(b), '+', '/'));
  }
}
