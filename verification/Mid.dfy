/** The prefix key of a MID: made by web/js/storage.js when shares are saved, by web/js/app.js when they are looked up. */
module Mid {
  import opened Basics
  import opened Radix
  import opened Base58
  import opened Base58Laws

  const SCHEME: string := "miasma:"

  // ----- hexadecimal text ------------------------------------------------------------------

  function HexDigit(n: int): char
    requires 0 <= n < 16
  {
    if n < 10 then (48 + n) as char else (87 + n) as char
  }

  /** Two lower-case digits for each byte. */
  function Hex(b: seq<int>): (s: string)
    requires AreDigits(b, 256)
    ensures |s| == 2 * |b|
  {
    if b == [] then [] else [HexDigit(b[0] / 16), HexDigit(b[0] % 16)] + Hex(b[1..])
  }

  const HEX_DIGITS: string := "0123456789abcdef"

  /** The text is made of hexadecimal digits, and byte `i` is what the digits at `2i` and `2i + 1` stand for. */
  lemma {:induction false} HexSpells(b: seq<int>, i: nat)
    requires AreDigits(b, 256) && i < |b|
    ensures 0 <= b[i] / 16 < 16 && Hex(b)[2 * i] == HEX_DIGITS[b[i] / 16] && Hex(b)[2 * i + 1] == HEX_DIGITS[b[i] % 16]
    ensures b[i] == b[i] / 16 * 16 + b[i] % 16
    decreases |b|
  {
    if i == 0 {
      HexDigitIs(b[0] / 16);
      HexDigitIs(b[0] % 16);
    } else {
      HexSpells(b[1..], i - 1);
      assert Hex(b)[2..] == Hex(b[1..]);
      assert Hex(b)[2 * i] == Hex(b)[2..][2 * (i - 1)] && Hex(b)[2 * i + 1] == Hex(b)[2..][2 * (i - 1) + 1];
    }
  }

  lemma HexDigitIs(d: int)
    requires 0 <= d < 16
    ensures HexDigit(d) == HEX_DIGITS[d]
  {
  }

  lemma {:induction false} HexInjective(a: seq<int>, b: seq<int>)
    requires AreDigits(a, 256) && AreDigits(b, 256) && Hex(a) == Hex(b)
    ensures a == b
  {
    if a != [] {
      assert Hex(a)[0] == Hex(b)[0] && Hex(a)[1] == Hex(b)[1];
      assert Hex(a)[2..] == Hex(a[1..]) && Hex(b)[2..] == Hex(b[1..]);
      HexInjective(a[1..], b[1..]);
      assert a == [a[0]] + a[1..] && b == [b[0]] + b[1..];
    }
  }

  // ----- the two keys ----------------------------------------------------------------------

  datatype MidError = InvalidMid | InvalidBase58 | DigestTooShort

  predicate HasScheme(mid: string) { SCHEME <= mid }

  /** `midPrefixHexFromMid`. */
  function SavePrefix(mid: string): Result<string, MidError> {
    if !HasScheme(mid) then Err(InvalidMid)
    else match ArrayDecode(mid[7..])
      case None => Err(InvalidBase58)
      case Some(b) =>
        ArrayDecodeBytes(mid[7..]);
        if |b| < 8 then Err(DigestTooShort) else Ok(Hex(b[..8]))
  }

  /** The key computed in `handleMidInput`; without one nothing is looked up. */
  function LookupPrefix(mid: string): Option<string> {
    if !HasScheme(mid) then None
    else match BigDecode(mid[7..])
      case None => None
      case Some(b) => Some(Hex(b[..8]))
  }

  lemma ArrayDecodeBytes(s: string)
    ensures ArrayDecode(s).Some? ==> AreDigits(ArrayDecode(s).value, 256)
  {
    if IsBase58(s) { BytesAreConverted(s); }
  }

  /** The text of a MID: the scheme and the digest in base58. */
  function MidText(digest: seq<int>): string
    requires AreDigits(digest, 256)
  {
    SCHEME + Encode58(digest)
  }

  /** For every 32-byte digest, its shares are saved and looked up under its first eight bytes. */
  lemma OneKeyPerMid(digest: seq<int>)
    requires AreDigits(digest, 256) && |digest| == 32
    ensures SavePrefix(MidText(digest)) == Ok(Hex(digest[..8]))
    ensures LookupPrefix(MidText(digest)) == Some(Hex(digest[..8]))
  {
    var s := Encode58(digest);
    assert MidText(digest)[7..] == s;
    DecodeEncode58(digest);
    DecodersAgree(s);
  }

  /** Which texts give no key: no `miasma:` in front, a character outside the alphabet, fewer than eight bytes. */
  lemma WhoHasAKey(mid: string)
    ensures SavePrefix(mid) == Err(InvalidMid) <==> !("miasma:" <= mid)
    ensures SavePrefix(mid) == Err(InvalidBase58) <==> "miasma:" <= mid && !IsBase58(mid[7..])
    ensures SavePrefix(mid) == Err(DigestTooShort) <==> "miasma:" <= mid && IsBase58(mid[7..]) && |Bytes58(mid[7..])| < 8
    ensures LookupPrefix(mid).Some? <==> "miasma:" <= mid && IsBase58(mid[7..])
  {
    NothingFromNothing();
    if "miasma:" <= mid && mid[7..] == [] { BytesAreConverted(mid[7..]); }
  }

  ghost predicate ZeroBytes(b: seq<int>, n: int) { forall i :: 0 <= i < n && i < |b| ==> b[i] == 0 }

  /** When the first eight bytes of a text are also the first eight of what the other decoder makes of it. */
  ghost predicate SameFirstEight(b: seq<int>) {
    if |b| <= 32 then |b| == 32 || ZeroBytes(b, 8)
    else if ZeroBytes(b, |b| - 32) then ZeroBytes(b, |b| - 24)
    else b[0] >= 16
  }

  /**
  For every text that can be saved, that is, of at least eight bytes, both keys exist, and they are
  the same exactly when: there are 32 bytes; or fewer, the first eight of them zero; or more, and
  either the ones that do not fit and the next eight are zero, or one that does not fit is not zero
  and the first byte takes both of its hexadecimal digits.
  */
  lemma KeysAgreeExactlyWhen(s: string)
    requires IsBase58(s) && |Bytes58(s)| >= 8
    ensures AreDigits(Bytes58(s), 256)
    ensures var mid := SCHEME + s;
            SavePrefix(mid).Ok? && LookupPrefix(mid).Some?
            && (SavePrefix(mid).value == LookupPrefix(mid).value <==> SameFirstEight(Bytes58(s)))
  {
    NonEmpty(s);
    var b := Bytes58(s);
    BytesAreConverted(s);
    if |b| <= 32 {
      ShortKeys(s);
    } else if ZeroBytes(b, |b| - 32) {
      PaddedKeys(s);
    } else {
      var i :| 0 <= i < |b| - 32 && b[i] != 0;
      LongKeys(s, i);
    }
  }

  lemma NonEmpty(s: string)
    requires IsBase58(s) && |Bytes58(s)| >= 8
    ensures s != []
  {
    NothingFromNothing();
    BytesAreConverted(s);
  }

  lemma SameHex(a: seq<int>, b: seq<int>)
    requires AreDigits(a, 256) && AreDigits(b, 256)
    ensures Hex(a) == Hex(b) <==> a == b
  {
    if Hex(a) == Hex(b) { HexInjective(a, b); }
  }

  /** Both keys, from the bytes of the two decoders. */
  lemma BothKeys(s: string, big: seq<int>)
    requires IsBase58(s) && s != [] && |Bytes58(s)| >= 8 && AreDigits(Bytes58(s), 256)
    requires AreDigits(big, 256) && |big| == 32 && BigDecode(s) == Some(big)
    ensures SavePrefix(SCHEME + s) == Ok(Hex(Bytes58(s)[..8])) && LookupPrefix(SCHEME + s) == Some(Hex(big[..8]))
    ensures Hex(Bytes58(s)[..8]) == Hex(big[..8]) <==> Bytes58(s)[..8] == big[..8]
  {
    assert (SCHEME + s)[7..] == s;
    SameHex(Bytes58(s)[..8], big[..8]);
  }

  /** The two keys exist, and are equal exactly when the condition holds. */
  ghost predicate AgreeExactly(s: string, condition: bool) {
    && SavePrefix(SCHEME + s).Ok? && LookupPrefix(SCHEME + s).Some?
    && (SavePrefix(SCHEME + s).value == LookupPrefix(SCHEME + s).value <==> condition)
  }

  lemma ShortKeys(s: string)
    requires IsBase58(s) && s != [] && 8 <= |Bytes58(s)| <= 32 && AreDigits(Bytes58(s), 256)
    ensures AgreeExactly(s, |Bytes58(s)| == 32 || ZeroBytes(Bytes58(s), 8))
  {
    var b := Bytes58(s);
    BigDecodeFills(s);
    BothKeys(s, Zeros(32 - |b|) + b);
    ShiftedPrefix(b, 32 - |b|);
  }

  lemma PaddedKeys(s: string)
    requires IsBase58(s) && s != [] && |Bytes58(s)| > 32 && AreDigits(Bytes58(s), 256)
    requires ZeroBytes(Bytes58(s), |Bytes58(s)| - 32)
    ensures AgreeExactly(s, ZeroBytes(Bytes58(s), |Bytes58(s)| - 24))
  {
    var b := Bytes58(s);
    var d := |b| - 32;
    BigDecodeDrops(s);
    BothKeys(s, b[d..]);
    assert b == Zeros(d) + b[d..];
    ShiftedPrefix(b[d..], d);
    assert forall i :: 0 <= i < 8 ==> b[d..][i] == b[d + i];
    assert ZeroBytes(b, d + 8) <==> ZeroBytes(b[d..], 8) by {
      if ZeroBytes(b[d..], 8) {
        forall i | 0 <= i < d + 8 ensures b[i] == 0 { if i >= d { assert b[d..][i - d] == 0; } }
      }
    }
  }

  lemma LongKeys(s: string, i: nat)
    requires IsBase58(s) && s != [] && |Bytes58(s)| > 32 && AreDigits(Bytes58(s), 256)
    requires i < |Bytes58(s)| - 32 && Bytes58(s)[i] != 0
    ensures AgreeExactly(s, Bytes58(s)[0] >= 16)
  {
    var b := Bytes58(s);
    BigDecodeLong(s, i);
    var big := BigDecode(s).value;
    BothKeys(s, big);
    assert b[..8][0] == b[0] && big[..8][0] == big[0];
  }

  /** Pushing bytes back by zeros keeps the first eight exactly when they are zero. */
  lemma ShiftedPrefix(b: seq<int>, k: nat)
    requires |b| >= 8
    ensures b[..8] == (Zeros(k) + b)[..8] <==> k == 0 || forall i :: 0 <= i < 8 ==> b[i] == 0
  {
    var filled := Zeros(k) + b;
    if k == 0 {
      assert filled == b;
    } else if b[..8] == filled[..8] {
      forall i | 0 <= i < 8 ensures b[i] == 0 { ZeroAt(b, k, i); }
    }
  }

  lemma {:induction false} ZeroAt(b: seq<int>, k: nat, i: nat)
    requires k > 0 && |b| >= 8 && i < 8 && b[..8] == (Zeros(k) + b)[..8]
    ensures b[i] == 0
    decreases i
  {
    assert b[i] == b[..8][i] == (Zeros(k) + b)[i];
    if i >= k { ZeroAt(b, k, i - k); }
  }

  /** Every shorter digest whose first eight bytes are not all zero is saved under one key and looked up under another. */
  lemma ShortMidHasTwoKeys(digest: seq<int>, i: nat)
    requires AreDigits(digest, 256) && 8 <= |digest| < 32 && i < 8 && digest[i] != 0
    ensures var mid := MidText(digest);
            SavePrefix(mid).Ok? && LookupPrefix(mid).Some? && SavePrefix(mid).value != LookupPrefix(mid).value
  {
    DecodeEncode58(digest);
    KeysDiffer(Encode58(digest), digest, i);
  }

  lemma KeysDiffer(s: string, digest: seq<int>, i: nat)
    requires IsBase58(s) && Bytes58(s) == digest && 8 <= |digest| < 32 && i < 8 && digest[i] != 0
    ensures var mid := SCHEME + s;
            SavePrefix(mid).Ok? && LookupPrefix(mid).Some? && SavePrefix(mid).value != LookupPrefix(mid).value
  {
    KeysAgreeExactlyWhen(s);
    assert !ZeroBytes(digest, 8);
  }
}
