/** That the base64 of the model is that of RFC 4648, and in what `atob` is forgiving. */
module Base64Laws {
  import opened Basics
  import opened Radix
  import opened Base64

  predicate IsLetter(c: char) { 'A' <= c <= 'Z' || 'a' <= c <= 'z' || '0' <= c <= '9' || c == '+' || c == '/' }

  /** Four sextets spell the number that the three bytes spell, most significant first. */
  lemma GroupSpellsTheSame(b: seq<int>, g: nat)
    requires AreDigits(b, 256) && 3 * g + 2 < |b|
    ensures 65536 * b[3 * g] + 256 * b[3 * g + 1] + b[3 * g + 2] ==
            262144 * SextetAt(b, g, 0) + 4096 * SextetAt(b, g, 1) + 64 * SextetAt(b, g, 2) + SextetAt(b, g, 3)
  {
  }

  /** Where bytes are missing at the end, the bits are zero. */
  lemma LastGroup(b: seq<int>, g: nat)
    requires AreDigits(b, 256) && 3 * g < |b|
    ensures |b| == 3 * g + 1 ==> 16 * b[3 * g] == 64 * SextetAt(b, g, 0) + SextetAt(b, g, 1)
    ensures |b| == 3 * g + 2 ==> 4 * (256 * b[3 * g] + b[3 * g + 1]) == 4096 * SextetAt(b, g, 0) + 64 * SextetAt(b, g, 1) + SextetAt(b, g, 2)
  {
  }

  /** The sextets of a text are those of its groups, in order. */
  lemma SextetsInOrder(b: seq<int>, j: nat)
    requires AreDigits(b, 256) && j < |Sextets(b)|
    ensures Sextets(b)[j] == SextetAt(b, j / 4, j % 4)
  {
  }

  /** Sextet `k` is written as in the alphabet A-Z, a-z, 0-9; the two alphabets differ in the last two characters. */
  lemma AlphabetIs(k: nat, c62: char, c63: char)
    requires k < 64
    ensures k < 26 ==> CharOf(k, c62, c63) as int == 'A' as int + k
    ensures 26 <= k < 52 ==> CharOf(k, c62, c63) as int == 'a' as int + (k - 26)
    ensures 52 <= k < 62 ==> CharOf(k, c62, c63) as int == '0' as int + (k - 52)
    ensures k == 62 ==> CharOf(k, c62, c63) == c62
    ensures k == 63 ==> CharOf(k, c62, c63) == c63
  {
  }

  // ----- atob ----------------------------------------------------------------------------------------

  lemma {:induction false} DropSpacesJoin(a: string, b: string)
    ensures DropSpaces(a + b) == DropSpaces(a) + DropSpaces(b)
  {
    if a == [] {
      assert a + b == b;
    } else {
      DropSpacesJoin(a[1..], b);
      assert (a + b)[1..] == a[1..] + b;
    }
  }

  /** White space may stand anywhere. */
  lemma SpaceDoesNotCount(a: string, c: char, b: string)
    requires c == ' ' || c == '\t' || c == '\n' || c == '\r' || c as int == 12
    ensures Atob(a + [c] + b) == Atob(a + b)
  {
    assert DropSpaces(a + [c] + b) == DropSpaces(a + b) by {
      DropSpacesJoin(a, [c]);
      DropSpacesJoin(a + [c], b);
      DropSpacesJoin(a, b);
      assert DropSpaces([c]) == [] by { assert [c][1..] == []; }
      assert DropSpaces(a) + [] == DropSpaces(a);
    }
  }

  /** The padding may be missing. */
  lemma PaddingMayBeMissing(b: seq<int>)
    requires AreDigits(b, 256)
    ensures Atob(TextOf(Sextets(b), '+', '/')) == Some(b)
  {
    var t := TextOf(Sextets(b), '+', '/');
    TextLengthIsWhole(|b|);
    TextRoundTrip(Sextets(b), '+', '/');
    OctetsOfSextets(b);
    forall i | 0 <= i < |t| ensures !IsSpace(t[i]) && t[i] != '=' { PlainChar(t[i]); }
    NothingToDrop(t);
    assert Unpad(t) == t;
  }

  /** The length of what is left without white space is not one more than a multiple of four. */
  lemma AtobRefusesLength(t: string)
    requires (forall i :: 0 <= i < |t| ==> !IsSpace(t[i])) && |t| % 4 == 1
    ensures Atob(t) == None
  {
    NothingToDrop(t);
  }

  /** Only letters of the alphabet may stand before the last two places, and there too unless they are padding. */
  lemma AtobRefusesOthers(t: string, i: nat)
    requires (forall k :: 0 <= k < |t| ==> !IsSpace(t[k])) && i < |t| && !IsLetter(t[i]) && (i < |t| - 2 || |t| % 4 != 0 || t[i] != '=')
    ensures Atob(t) == None
  {
    NothingToDrop(t);
    var u := Unpad(t);
    if i < |u| { assert u[i] == t[i] && IndexOf(u[i], '+', '/') == 64; }
  }
}
