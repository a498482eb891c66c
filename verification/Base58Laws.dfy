/** Base58 decoding is a bijection, and the two decoders agree on every MID. */
module Base58Laws {
  import opened Basics
  import opened Radix
  import opened Base58

  // ----- the reference encoder ------------------------------------------------------------

  function CharsOf(d: seq<int>): (s: string)
    requires AreDigits(d, 58)
    ensures |s| == |d|
    ensures forall i :: 0 <= i < |d| ==> s[i] == Letter(d[i])
  {
    seq(|d|, i requires 0 <= i < |d| => Letter(d[i]))
  }

  /** `bs58::encode`: a `1` for each leading zero byte, then the number in base 58. */
  function Encode58(b: seq<int>): string
    requires AreDigits(b, 256)
  {
    CharsOf(Convert(b, 256, 58))
  }

  lemma DigitsOfChars(d: seq<int>)
    requires AreDigits(d, 58)
    ensures IsBase58(CharsOf(d)) && DigitsOf(CharsOf(d)) == d
  {
    var s := CharsOf(d);
    forall i | 0 <= i < |s| ensures Index(s[i]) == d[i] { LetterIndex(d[i], s[i]); }
  }

  lemma CharsOfDigits(s: string)
    requires IsBase58(s)
    ensures CharsOf(DigitsOf(s)) == s
  {}

  lemma OnesAreLeadZeros(s: string)
    requires IsBase58(s)
    ensures LeadingOnes(s) == LeadZeros(DigitsOf(s))
  {
    var d, n := DigitsOf(s), LeadingOnes(s);
    forall i | 0 <= i < |s| ensures s[i] == '1' <==> d[i] == 0 { OneIsZero(s[i]); }
    var k := LeadZeros(d);
    assert k < |d| ==> (s[k] == '1' <==> d[k] == 0);
    assert n < |s| ==> (s[n] == '1' <==> d[n] == 0);
  }

  lemma BytesAreConverted(s: string)
    requires IsBase58(s)
    ensures Bytes58(s) == Convert(DigitsOf(s), 58, 256)
  {
    OnesAreLeadZeros(s);
  }

  lemma NothingFromNothing()
    ensures Convert([], 58, 256) == []
  {}

  /** Decoding undoes encoding, for every byte string. */
  lemma DecodeEncode58(b: seq<int>)
    requires AreDigits(b, 256)
    ensures IsBase58(Encode58(b)) && Bytes58(Encode58(b)) == b
    ensures ArrayDecode(Encode58(b)) == Some(if b == [] then [0] else b)
  {
    var d := Convert(b, 256, 58);
    DigitsOfChars(d);
    BytesAreConverted(Encode58(b));
    ConvertBack(b, 256, 58);
    NothingFromNothing();
    assert Encode58(b) == [] ==> d == [];
  }

  /** Encoding undoes decoding, for every base58 text: no two texts decode to the same bytes. */
  lemma EncodeDecode58(s: string)
    requires IsBase58(s)
    ensures AreDigits(Bytes58(s), 256) && Encode58(Bytes58(s)) == s
  {
    BytesAreConverted(s);
    ConvertBack(DigitsOf(s), 58, 256);
    CharsOfDigits(s);
  }

  // ----- the big-integer decoder -------------------------------------------------------------

  /** `num.toString(16)`, as digit values. */
  function HexDigits(n: nat): (h: seq<int>)
    ensures AreDigits(h, 16)
  {
    if n == 0 then [0] else ToDigits(n, 16)
  }

  /** `padStart(n, '0')`. */
  function PadTo(h: seq<int>, n: nat): (p: seq<int>)
    requires AreDigits(h, 16)
    ensures AreDigits(p, 16) && |p| >= n
  {
    if |h| >= n then h else Zeros(n - |h|) + h
  }

  /** The first pairs of hexadecimal digits. */
  function Pairs(h: seq<int>, n: nat): (b: seq<int>)
    requires AreDigits(h, 16) && 2 * n <= |h|
    ensures |b| == n && AreDigits(b, 256)
    ensures forall i :: 0 <= i < n ==> b[i] == h[2 * i] * 16 + h[2 * i + 1]
  {
    seq(n, i requires 0 <= i < n => h[2 * i] * 16 + h[2 * i + 1])
  }

  function BigDecode(s: string): Option<seq<int>> {
    if !IsBase58(s) then None else Some(Pairs(PadTo(HexDigits(Value(s)), 64), 32))
  }

  /** The characters of the text, multiplied into one big number. */
  method AddUp(s: string) returns (num: Option<nat>)
    ensures num == if IsBase58(s) then Some(Value(s)) else None
  {
    var n := 0;
    for i := 0 to |s|
      invariant IsBase58(s[..i]) && n == Value(s[..i])
    {
      var idx := Index(s[i]);
      if idx == 58 {
        return None;
      }
      ValueStep(s, i);
      n := n * 58 + idx;
    }
    assert s[..|s|] == s;
    num := Some(n);
  }

  /** `decodeBase58` of web/js/app.js; null is `None`. */
  method DecodeBigInt(s: string) returns (r: Option<seq<int>>)
    ensures r == BigDecode(s)
  {
    var num := AddUp(s);
    if num.None? { return None; }
    var hex := PadTo(HexDigits(num.value), 64);
    var bytes := new int[32];
    for i := 0 to 32
      invariant forall k :: 0 <= k < i ==> bytes[k] == hex[2 * k] * 16 + hex[2 * k + 1]
    {
      bytes[i] := hex[2 * i] * 16 + hex[2 * i + 1];
    }
    assert bytes[..] == Pairs(hex, 32);
    r := Some(bytes[..]);
  }

  lemma {:induction false} PairsSpellTheSame(h: seq<int>, n: nat)
    requires AreDigits(h, 16) && |h| == 2 * n
    ensures Num(Pairs(h, n), 256) == Num(h, 16)
  {
    if n > 0 {
      var init := h[..2 * n - 2];
      PairsSpellTheSame(init, n - 1);
      assert Pairs(h, n)[..n - 1] == Pairs(init, n - 1);
      assert h[..|h| - 1][..2 * n - 2] == init;
      assert Num(h[..|h| - 1], 16) == Num(init, 16) * 16 + h[2 * n - 2];
    }
  }

  lemma {:induction false} SixteenSquared(n: nat)
    ensures Pow(16, 2 * n) == Pow(256, n)
  {
    if n > 0 {
      SixteenSquared(n - 1);
      assert Pow(16, 2 * n) == 16 * Pow(16, 2 * n - 1) && Pow(16, 2 * n - 1) == 16 * Pow(16, 2 * n - 2);
    }
  }

  lemma PadSpells(n: nat, k: nat)
    requires k > 0 && n < Pow(256, k)
    ensures |PadTo(HexDigits(n), 2 * k)| == 2 * k && Num(PadTo(HexDigits(n), 2 * k), 16) == n
  {
    SixteenSquared(k);
    DigitsAreFew(n, 16, 2 * k);
    HexDigitsSpell(n);
    var h := HexDigits(n);
    NumLeadingZeros(2 * k - |h|, h, 16);
  }

  /** Padded to the right length, the hexadecimal digits of a number pair up to its bytes. */
  lemma HexPairsUp(n: nat, filled: seq<int>, k: nat)
    requires AreDigits(filled, 256) && |filled| == k > 0 && Num(filled, 256) == n
    ensures |PadTo(HexDigits(n), 2 * k)| == 2 * k && Pairs(PadTo(HexDigits(n), 2 * k), k) == filled
  {
    NumBound(filled, 256);
    PadSpells(n, k);
    var padded := PadTo(HexDigits(n), 2 * k);
    PairsSpellTheSame(padded, k);
    SameNumSameDigits(Pairs(padded, k), filled, 256);
  }

  lemma HexDigitsSpell(n: nat)
    ensures Num(HexDigits(n), 16) == n
  {
    NumOfDigits(n, 16);
    NumSingle(0, 16);
  }

  lemma BytesSpell(s: string)
    requires IsBase58(s)
    ensures AreDigits(Bytes58(s), 256) && Num(Bytes58(s), 256) == Value(s)
  {
    BytesAreConverted(s);
    ConvertKeepsNum(DigitsOf(s), 58, 256);
  }

  lemma BigDecodeOf(s: string, filled: seq<int>)
    requires IsBase58(s) && AreDigits(filled, 256) && |filled| == 32 && Num(filled, 256) == Value(s)
    ensures BigDecode(s) == Some(filled)
  {
    HexPairsUp(Value(s), filled, 32);
  }

  lemma FilledSpells(b: seq<int>, k: nat)
    requires AreDigits(b, 256) && |b| <= k
    ensures var filled := Zeros(k - |b|) + b; AreDigits(filled, 256) && |filled| == k && Num(filled, 256) == Num(b, 256)
  {
    NumLeadingZeros(k - |b|, b, 256);
  }

  /** A text of at most 32 bytes comes out of the big-integer decoder filled up with zeros in front. */
  lemma BigDecodeFills(s: string)
    requires IsBase58(s) && |Bytes58(s)| <= 32
    ensures BigDecode(s) == Some(Zeros(32 - |Bytes58(s)|) + Bytes58(s))
  {
    BytesSpell(s);
    FilledSpells(Bytes58(s), 32);
    BigDecodeOf(s, Zeros(32 - |Bytes58(s)|) + Bytes58(s));
  }

  // ----- texts of more than 32 bytes ------------------------------------------------------------

  /** Both hexadecimal digits of every byte. */
  function Nibbles(b: seq<int>): (h: seq<int>)
    requires AreDigits(b, 256)
    ensures |h| == 2 * |b| && AreDigits(h, 16)
    ensures forall i :: 0 <= i < |b| ==> h[2 * i] == b[i] / 16 && h[2 * i + 1] == b[i] % 16
  {
    seq(2 * |b|, j requires 0 <= j < 2 * |b| => if j % 2 == 0 then b[j / 2] / 16 else b[j / 2] % 16)
  }

  lemma PairsOfNibbles(b: seq<int>)
    requires AreDigits(b, 256)
    ensures Pairs(Nibbles(b), |b|) == b
  {
    forall i | 0 <= i < |b| ensures Pairs(Nibbles(b), |b|)[i] == b[i] { DivModLaw(b[i], 16); }
  }

  lemma NibblesSpell(b: seq<int>)
    requires AreDigits(b, 256)
    ensures Num(Nibbles(b), 16) == Num(b, 256)
  {
    PairsOfNibbles(b);
    PairsSpellTheSame(Nibbles(b), |b|);
  }

  /** The hexadecimal digits of a number are those of its bytes without the leading zeros. */
  lemma HexOfBytes(b: seq<int>)
    requires AreDigits(b, 256) && Num(b, 256) > 0
    ensures Nibbles(b) == Zeros(LeadZeros(Nibbles(b))) + HexDigits(Num(b, 256))
    ensures HexDigits(Num(b, 256))[0] != 0
  {
    NibblesSpell(b);
    StripZeros(Nibbles(b), 16);
  }

  /** A byte among the first that do not fit leaves more than 64 hexadecimal digits. */
  lemma LongHex(b: seq<int>, i: nat)
    requires AreDigits(b, 256) && |b| > 32 && i < |b| - 32 && b[i] != 0
    ensures Num(b, 256) > 0 && |HexDigits(Num(b, 256))| > 64
  {
    if Num(b, 256) == 0 { OnlyZeros(b, 256); }
    HexOfBytes(b);
    var x := Nibbles(b);
    assert x[2 * i] != 0 || x[2 * i + 1] != 0;
    assert LeadZeros(x) <= 2 * i + 1;
  }

  /** The big-integer decoder then reads the number from its first digit on, wherever in a byte that stands. */
  lemma BigDecodeLong(s: string, i: nat)
    requires IsBase58(s) && AreDigits(Bytes58(s), 256)
    requires |Bytes58(s)| > 32 && i < |Bytes58(s)| - 32 && Bytes58(s)[i] != 0
    ensures BigDecode(s).Some? && |BigDecode(s).value| == 32
    ensures if Bytes58(s)[0] >= 16 then BigDecode(s).value[..8] == Bytes58(s)[..8] else BigDecode(s).value[0] >= 16
  {
    var b := Bytes58(s);
    BytesSpell(s);
    LongHex(b, i);
    HexOfBytes(b);
    FirstPairs(b, HexDigits(Value(s)));
  }

  lemma FirstPairs(b: seq<int>, h: seq<int>)
    requires AreDigits(b, 256) && AreDigits(h, 16) && |b| > 32 && |h| > 64 && h[0] != 0
    requires Nibbles(b) == Zeros(LeadZeros(Nibbles(b))) + h
    ensures if b[0] >= 16 then Pairs(h, 32)[..8] == b[..8] else Pairs(h, 32)[0] >= 16
  {
    if b[0] >= 16 {
      HighNibble(b[0]);
      assert Nibbles(b)[0] != 0;
      assert Nibbles(b) == h;
      PairsOfNibbles(b);
      assert forall i :: 0 <= i < 8 ==> Pairs(h, 32)[i] == Pairs(h, |b|)[i];
    }
  }

  lemma HighNibble(x: int)
    requires 0 <= x < 256
    ensures x / 16 != 0 <==> x >= 16
  {}

  /** Leading zero bytes that do not fit are dropped. */
  lemma BigDecodeDrops(s: string)
    requires IsBase58(s) && AreDigits(Bytes58(s), 256) && |Bytes58(s)| > 32
    requires forall i :: 0 <= i < |Bytes58(s)| - 32 ==> Bytes58(s)[i] == 0
    ensures BigDecode(s) == Some(Bytes58(s)[|Bytes58(s)| - 32..])
  {
    var b := Bytes58(s);
    var d := |b| - 32;
    BytesSpell(s);
    assert b == Zeros(d) + b[d..];
    NumLeadingZeros(d, b[d..], 256);
    HexPairsUp(Value(s), b[d..], 32);
  }

  // ----- one key for saving and looking up ----------------------------------------------------

  /**
  The two decoders give the same bytes for a non-empty text exactly when the array decoder gives
  32 of them.
  */
  lemma DecodersAgree(s: string)
    requires IsBase58(s) && s != []
    ensures ArrayDecode(s) == BigDecode(s) <==> |Bytes58(s)| == 32
  {
    if |Bytes58(s)| == 32 {
      BigDecodeFills(s);
      assert Zeros(0) + Bytes58(s) == Bytes58(s);
    }
  }
}
