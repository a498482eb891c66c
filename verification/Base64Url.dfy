/** The base64url codec of web/js/websig.js: unpadded, strict, one spelling per value (RFC 4648, sections 3.5 and 5). */
module Base64Url {
  import opened Basics
  import opened Radix
  import opened Base64

  // ----- encoding ------------------------------------------------------------------------

  /** `replace(/\+/g, '-').replace(/\//g, '_')`. */
  function ToUrl(t: string): (u: string)
    ensures |u| == |t|
    ensures forall i :: 0 <= i < |t| ==> u[i] == (if t[i] == '+' then '-' else if t[i] == '/' then '_' else t[i])
  {
    seq(|t|, i requires 0 <= i < |t| => if t[i] == '+' then '-' else if t[i] == '/' then '_' else t[i])
  }

  /** `replace(/=+$/, '')`. */
  function StripEquals(t: string): string {
    if t != [] && t[|t| - 1] == '=' then StripEquals(t[..|t| - 1]) else t
  }

  /** What `b64urlEncode` returns. */
  function UrlEncode(b: seq<int>): string
    requires AreDigits(b, 256)
  {
    StripEquals(ToUrl(Btoa(b)))
  }

  lemma {:induction false} StripPadding(t: string, k: nat)
    requires t == [] || t[|t| - 1] != '='
    ensures StripEquals(t + Equals(k)) == t
  {
    var p := t + Equals(k);
    if k > 0 {
      assert p[..|p| - 1] == t + Equals(k - 1);
      StripPadding(t, k - 1);
    } else {
      assert p == t;
    }
  }

  /** The result is the text of the sextets in the URL alphabet, with no padding. */
  lemma UrlEncodeIs(b: seq<int>)
    requires AreDigits(b, 256)
    ensures UrlEncode(b) == TextOf(Sextets(b), '-', '_')
  {
    var s := Sextets(b);
    var t := TextOf(s, '+', '/');
    var u := TextOf(s, '-', '_');
    assert ToUrl(t + Equals(PadOf(|t|))) == u + Equals(PadOf(|t|));
    StripPadding(u, PadOf(|t|));
  }

  /** `b64urlEncode`: the bytes become a binary string, character by character. */
  method B64UrlEncode(view: seq<int>) returns (text: string)
    requires AreDigits(view, 256)
    ensures text == UrlEncode(view)
    ensures |text| == TextLength(|view|)
  {
    var binary: seq<int> := [];
    for i := 0 to |view|
      invariant binary == view[..i]
    {
      binary := binary + [view[i]];
    }
    assert binary == view;
    text := StripEquals(ToUrl(Btoa(binary)));
    UrlEncodeIs(view);
  }

  // ----- decoding -------------------------------------------------------------------------

  /** `replace(/-/g, '+').replace(/_/g, '/')`. */
  function FromUrl(t: string): (u: string)
    ensures |u| == |t|
    ensures forall i :: 0 <= i < |t| ==> u[i] == (if t[i] == '-' then '+' else if t[i] == '_' then '/' else t[i])
  {
    seq(|t|, i requires 0 <= i < |t| => if t[i] == '-' then '+' else if t[i] == '_' then '/' else t[i])
  }

  /** What `b64urlDecode` returns; an exception is `None`. */
  function UrlDecode(text: string): Option<seq<int>> {
    if !InAlphabet(text, '-', '_') || |text| % 4 == 1 then None
    else
      var out := Atob(FromUrl(text) + Equals(PadOf(|text|)));
      if out.None? || UrlEncode(out.value) != text then None else out
  }

  /** `b64urlDecode`. */
  method B64UrlDecode(text: string) returns (r: Option<seq<int>>)
    ensures r == UrlDecode(text)
  {
    if !InAlphabet(text, '-', '_') || |text| % 4 == 1 {
      return None;
    }
    var padded := FromUrl(text) + Equals(PadOf(|text|));
    var binary := Atob(padded);
    if binary.None? {
      return None;
    }
    var out := BytesOf(binary.value);
    var again := B64UrlEncode(out);
    if again != text {
      return None;
    }
    r := Some(out);
  }

  /** The characters of a binary string, one by one, in a buffer. */
  method BytesOf(binary: seq<int>) returns (bytes: seq<int>)
    ensures bytes == binary
  {
    var out := new int[|binary|];
    for i := 0 to |binary|
      invariant forall k :: 0 <= k < i ==> out[k] == binary[k]
    {
      out[i] := binary[i];
    }
    bytes := out[..];
  }

  lemma FromUrlSextets(t: string)
    requires InAlphabet(t, '-', '_')
    ensures InAlphabet(FromUrl(t), '+', '/') && SextetsOf(FromUrl(t), '+', '/') == SextetsOf(t, '-', '_')
  {}

  /** What `atob` makes of an acceptable text. */
  lemma UrlDecodeIs(text: string)
    requires InAlphabet(text, '-', '_') && |text| % 4 != 1
    ensures var s := SextetsOf(text, '-', '_');
            && Atob(FromUrl(text) + Equals(PadOf(|text|))) == Some(Octets(s))
            && (UrlEncode(Octets(s)) == text <==> TrailingBitsZero(s))
  {
    var s := SextetsOf(text, '-', '_');
    FromUrlSextets(text);
    AtobPadded(FromUrl(text));
    UrlEncodeIs(Octets(s));
    SextetsOfOctets(s);
    SextetsRoundTrip(text, '-', '_');
    TextRoundTrip(Sextets(Octets(s)), '-', '_');
  }

  // ----- the main theorems --------------------------------------------------------------------

  /** The texts RFC 4648 allows: the URL alphabet, no impossible length, and unused bits zero. */
  predicate Canonical(text: string) {
    InAlphabet(text, '-', '_') && |text| % 4 != 1 && TrailingBitsZero(SextetsOf(text, '-', '_'))
  }

  /** Encoding and strict decoding are inverse to each other, on bytes and on accepted texts. */
  lemma Base64UrlBijection(b: seq<int>, text: string)
    requires AreDigits(b, 256)
    ensures UrlDecode(text) == Some(b) <==> UrlEncode(b) == text
    ensures |UrlEncode(b)| == TextLength(|b|)
  {
    UrlEncodeIs(b);
    if UrlEncode(b) == text {
      var s := Sextets(b);
      TextRoundTrip(s, '-', '_');
      TextLengthIsWhole(|b|);
      UrlDecodeIs(text);
      OctetsOfSextets(b);
    }
  }

  /** Exactly the canonical texts are accepted. */
  lemma AcceptsExactlyCanonical(text: string)
    ensures UrlDecode(text).Some? <==> Canonical(text)
  {
    if InAlphabet(text, '-', '_') && |text| % 4 != 1 { UrlDecodeIs(text); }
  }
}
