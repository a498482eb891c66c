/** The `Authorization` header of the signed-request scheme: printer, strict parser, and that each undoes the other. */
module WebSigHeader {
  import opened Basics
  import opened WebSig
  import opened Texts

  const SCHEME_AND_SID: string := "MiasmaSig v=1, sid="
  const TS: string := ", ts="
  const N: string := ", n="
  const SIG: string := ", sig="

  datatype Header = Header(sid: string, ts: string, nonce: string, sig: string)

  predicate IsHeader(h: Header) {
    FixedB64(h.sid, SID_BYTES) && IsTsText(h.ts) && FixedB64(h.nonce, NONCE_BYTES) && FixedB64(h.sig, SIG_BYTES)
  }

  function Layout(h: Header): string {
    SCHEME_AND_SID + (h.sid + (TS + (h.ts + (N + (h.nonce + (SIG + h.sig))))))
  }

  /** `authorizationHeader`; an exception is `None`. */
  function PrintHeader(sid: string, ts: Ts, nonce: string, sig: string): Option<string> {
    var t := TsText(ts);
    if t.None? || !IsHeader(Header(sid, t.value, nonce, sig)) then None
    else
      var value := Layout(Header(sid, t.value, nonce, sig));
      if |value| > HEADER_MAX_BYTES then None else Some(value)
  }

  // ----- the regular expression of the parser, piece by piece ----------------------------------

  /** A literal at the start. */
  function Eat(s: string, lit: string): Option<string> {
    if lit <= s then Some(s[|lit|..]) else None
  }

  /** How many characters at the start belong to a class. */
  function Span(s: string, p: char -> bool): (n: nat)
    ensures n <= |s|
    ensures forall i :: 0 <= i < n ==> p(s[i])
    ensures n < |s| ==> !p(s[n])
  {
    if s == [] || !p(s[0]) then 0
    else
      var n := Span(s[1..], p);
      assert forall i :: 0 < i < n + 1 ==> s[i] == s[1..][i - 1];
      1 + n
  }

  /**
  `([class]+)`: the longest run, which is the only one that can match, since what follows it
  in the expression is a comma or the end, and a comma is in none of the classes.
  */
  function EatRun(s: string, p: char -> bool): Option<(string, string)> {
    var n := Span(s, p);
    if n == 0 then None else Some((s[..n], s[n..]))
  }

  /** A group and the literal before it. */
  function Field(s: string, lit: string, p: char -> bool): Option<(string, string)> {
    var rest := Eat(s, lit);
    if rest.None? then None else EatRun(rest.value, p)
  }

  /** `parseAuthorizationHeader`; null is `None`. */
  function ParseHeader(value: string): Option<Header> {
    if |value| > HEADER_MAX_BYTES then None
    else
      var sid := Field(value, SCHEME_AND_SID, IsUrlChar);
      if sid.None? then None
      else
        var ts := Field(sid.value.1, TS, IsDigitChar);
        if ts.None? then None
        else
          var nonce := Field(ts.value.1, N, IsUrlChar);
          if nonce.None? then None
          else
            var sig := Field(nonce.value.1, SIG, IsUrlChar);
            if sig.None? || sig.value.1 != [] then None
            else
              var h := Header(sid.value.0, ts.value.0, nonce.value.0, sig.value.0);
              if IsHeader(h) then Some(h) else None
  }

  lemma FieldOf(lit: string, a: string, rest: string, p: char -> bool)
    requires a != [] && All(a, p) && (rest == [] || !p(rest[0]))
    ensures Field(lit + (a + rest), lit, p) == Some((a, rest))
  {
    var s := a + rest;
    assert lit <= lit + s && (lit + s)[|lit|..] == s;
    var n := Span(s, p);
    assert forall i :: 0 <= i < |a| ==> p(s[i]);
    assert |a| < |s| ==> s[|a|] == rest[0];
    assert s[..|a|] == a && s[|a|..] == rest;
  }

  lemma FieldBack(s: string, lit: string, p: char -> bool)
    requires Field(s, lit, p).Some?
    ensures s == lit + (Field(s, lit, p).value.0 + Field(s, lit, p).value.1)
  {
    var t := s[|lit|..];
    assert s == lit + t;
    assert t == t[..Span(t, p)] + t[Span(t, p)..];
  }

  /** A valid header is at most 180 characters long, so the limit of 256 never refuses one. */
  lemma HeaderIsShort(h: Header)
    requires IsHeader(h)
    ensures |Layout(h)| == 164 + |h.ts| <= 180
  {}

  /** Cut at the commas, a header is the scheme and version, then session, time, nonce and signature, each with its name. */
  lemma HeaderPieceByPiece(sid: string, ts: Ts, nonce: string, sig: string)
    requires PrintHeader(sid, ts, nonce, sig).Some?
    ensures Split(PrintHeader(sid, ts, nonce, sig).value, ',') ==
            ["MiasmaSig v=1", " sid=" + sid, " ts=" + TsText(ts).value, " n=" + nonce, " sig=" + sig]
  {
    var t := TsText(ts).value;
    var pieces := ["MiasmaSig v=1", " sid=" + sid, " ts=" + t, " n=" + nonce, " sig=" + sig];
    PlainPieces(sid, t, nonce, sig);
    LayoutIsJoined(Header(sid, t, nonce, sig));
    SplitOfJoin(pieces, ',');
  }

  lemma PlainPieces(sid: string, t: string, nonce: string, sig: string)
    requires All(sid, IsUrlChar) && All(t, IsDigitChar) && All(nonce, IsUrlChar) && All(sig, IsUrlChar)
    ensures forall p :: p in ["MiasmaSig v=1", " sid=" + sid, " ts=" + t, " n=" + nonce, " sig=" + sig] ==> ',' !in p
  {
    assert !IsUrlChar(',') && !IsDigitChar(',');
    assert ',' !in sid && ',' !in t && ',' !in nonce && ',' !in sig;
  }

  lemma JoinFive(a: string, b: string, c: string, d: string, e: string)
    ensures Join([a, b, c, d, e], ',') == a + "," + (b + "," + (c + "," + (d + "," + e)))
  {
    assert [a, b, c, d, e][1..] == [b, c, d, e] && [b, c, d, e][1..] == [c, d, e] && [c, d, e][1..] == [d, e] && [d, e][1..] == [e];
    assert Join([d, e], ',') == d + "," + e;
    assert Join([c, d, e], ',') == c + "," + (d + "," + e);
    assert Join([b, c, d, e], ',') == b + "," + (c + "," + (d + "," + e));
  }

  /** Four literals with a comma in them, each before its field, cut at the commas. */
  lemma CutAtCommas(front: string, n0: string, n1: string, n2: string, n3: string, f0: string, f1: string, f2: string, f3: string)
    ensures front + "," + n0 + (f0 + ("," + n1 + (f1 + ("," + n2 + (f2 + ("," + n3 + f3)))))) ==
            Join([front, n0 + f0, n1 + f1, n2 + f2, n3 + f3], ',')
  {
    var s3 := "," + (n3 + f3);
    var s2 := "," + ((n2 + f2) + s3);
    var s1 := "," + ((n1 + f1) + s2);
    assert "," + n3 + f3 == s3;
    assert "," + n2 + (f2 + s3) == s2;
    assert "," + n1 + (f1 + s2) == s1;
    assert front + "," + n0 + (f0 + s1) == front + "," + ((n0 + f0) + s1);
    JoinFive(front, n0 + f0, n1 + f1, n2 + f2, n3 + f3);
  }

  lemma Literals()
    ensures SCHEME_AND_SID == "MiasmaSig v=1" + "," + " sid=" && TS == "," + " ts=" && N == "," + " n=" && SIG == "," + " sig="
  {
  }

  lemma LayoutIsJoined(h: Header)
    ensures Layout(h) == Join(["MiasmaSig v=1", " sid=" + h.sid, " ts=" + h.ts, " n=" + h.nonce, " sig=" + h.sig], ',')
  {
    Literals();
    CutAtCommas("MiasmaSig v=1", " sid=", " ts=", " n=", " sig=", h.sid, h.ts, h.nonce, h.sig);
  }

  /** What is printed is parsed back, times as text. */
  lemma ParsePrinted(sid: string, ts: Ts, nonce: string, sig: string)
    requires TsText(ts).Some? && IsHeader(Header(sid, TsText(ts).value, nonce, sig))
    ensures PrintHeader(sid, ts, nonce, sig).Some?
    ensures ParseHeader(PrintHeader(sid, ts, nonce, sig).value) == Some(Header(sid, TsText(ts).value, nonce, sig))
  {
    var h := Header(sid, TsText(ts).value, nonce, sig);
    HeaderIsShort(h);
    ParseLayout(h);
  }

  lemma ParseLayout(h: Header)
    requires IsHeader(h) && |Layout(h)| <= HEADER_MAX_BYTES
    ensures ParseHeader(Layout(h)) == Some(h)
  {
    var s3 := SIG + h.sig;
    var s2 := N + (h.nonce + s3);
    var s1 := TS + (h.ts + s2);
    assert Field(Layout(h), SCHEME_AND_SID, IsUrlChar) == Some((h.sid, s1)) by {
      assert s1[0] == ',';
      FieldOf(SCHEME_AND_SID, h.sid, s1, IsUrlChar);
    }
    assert Field(s1, TS, IsDigitChar) == Some((h.ts, s2)) by {
      assert s2[0] == ',';
      FieldOf(TS, h.ts, s2, IsDigitChar);
    }
    assert Field(s2, N, IsUrlChar) == Some((h.nonce, s3)) by {
      assert s3[0] == ',';
      FieldOf(N, h.nonce, s3, IsUrlChar);
    }
    assert Field(s3, SIG, IsUrlChar) == Some((h.sig, "")) by {
      assert h.sig + "" == h.sig;
      FieldOf(SIG, h.sig, "", IsUrlChar);
    }
  }

  /** What is parsed is printed back: the parser accepts nothing but printed headers. */
  lemma PrintParsed(value: string)
    requires ParseHeader(value).Some?
    ensures var h := ParseHeader(value).value;
            PrintHeader(h.sid, Text(h.ts), h.nonce, h.sig) == Some(value)
  {
    ParsedLayout(value);
    PrintIsLayout(ParseHeader(value).value);
  }

  lemma PrintIsLayout(h: Header)
    requires IsHeader(h)
    ensures PrintHeader(h.sid, Text(h.ts), h.nonce, h.sig) == Some(Layout(h))
  {
    HeaderIsShort(h);
  }

  lemma ParsedLayout(value: string)
    requires ParseHeader(value).Some?
    ensures IsHeader(ParseHeader(value).value) && value == Layout(ParseHeader(value).value)
  {
    var f0 := Field(value, SCHEME_AND_SID, IsUrlChar).value;
    var f1 := Field(f0.1, TS, IsDigitChar).value;
    var f2 := Field(f1.1, N, IsUrlChar).value;
    var f3 := Field(f2.1, SIG, IsUrlChar).value;
    assert value == SCHEME_AND_SID + (f0.0 + f0.1) by { FieldBack(value, SCHEME_AND_SID, IsUrlChar); }
    assert f0.1 == TS + (f1.0 + f1.1) by { FieldBack(f0.1, TS, IsDigitChar); }
    assert f1.1 == N + (f2.0 + f2.1) by { FieldBack(f1.1, N, IsUrlChar); }
    assert f2.1 == SIG + f3.0 by { FieldBack(f2.1, SIG, IsUrlChar); assert f3.0 + "" == f3.0; }
  }

  /** Parsing and printing are inverse: a text is the header of exactly the fields it parses to. */
  lemma HeaderBijection(h: Header, value: string)
    ensures ParseHeader(value) == Some(h) <==> PrintHeader(h.sid, Text(h.ts), h.nonce, h.sig) == Some(value)
  {
    if ParseHeader(value) == Some(h) { PrintParsed(value); }
    if PrintHeader(h.sid, Text(h.ts), h.nonce, h.sig) == Some(value) { ParsePrinted(h.sid, Text(h.ts), h.nonce, h.sig); }
  }
}
