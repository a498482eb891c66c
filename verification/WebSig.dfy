/**
The strings of the signed-request scheme (web/js/websig.js): what is signed, and the
`Authorization` header with its parser. A field that is refused (an exception) gives `None`.
*/
module WebSig {
  import opened Basics
  import Decimal
  import opened Base64
  import opened Texts

  const REQUEST_PREFIX: string := "miasma-web-sig-v1"
  const REGISTER_PREFIX: string := "miasma-web-register-v1"
  const HEADER_MAX_BYTES: nat := 256
  const SID_BYTES: nat := 16
  const NONCE_BYTES: nat := 16
  const BOOT_BYTES: nat := 32
  const SIG_BYTES: nat := 64
  const PUB_BYTES: nat := 65
  const MAX_SAFE_INTEGER: int := 9007199254740991

  // ----- fields ------------------------------------------------------------------------------

  predicate IsUrlChar(c: char) { IndexOf(c, '-', '_') < 64 }
  predicate IsDigitChar(c: char) { '0' <= c <= '9' }
  predicate IsUpper(c: char) { 'A' <= c <= 'Z' }
  predicate IsHexChar(c: char) { '0' <= c <= '9' || 'a' <= c <= 'f' }
  predicate IsBreak(c: char) { c == '\r' || c == '\n' }

  predicate All(s: string, p: char -> bool) { forall i :: 0 <= i < |s| ==> p(s[i]) }

  predicate NoBreak(s: string) { All(s, c => !IsBreak(c)) }

  /** `fixedB64`: the right length for so many bytes, and the right characters. */
  predicate FixedB64(s: string, bytes: nat) { |s| == TextLength(bytes) && All(s, IsUrlChar) }

  /** `oneLine`. */
  predicate OneLine(s: string) { s != [] && NoBreak(s) }

  /** A timestamp may be given as an integer, as a number that is none, or as text. */
  datatype Ts = Number(n: int) | NotAnInteger | Text(s: string)

  function ToText(b: seq<byte>): (s: string)
    ensures |s| == |b|
    ensures forall i :: 0 <= i < |b| ==> s[i] == b[i] as char
  {
    seq(|b|, i requires 0 <= i < |b| => b[i] as char)
  }

  predicate IsTsText(s: string) { 1 <= |s| <= 16 && All(s, IsDigitChar) }

  /** `timestamp`: a safe non-negative integer is written in decimal; the text must be 1 to 16 digits. */
  function TsText(ts: Ts): (r: Option<string>)
    ensures r.Some? ==> IsTsText(r.value)
  {
    match ts
    case Number(n) =>
      if 0 <= n <= MAX_SAFE_INTEGER then
        SafeIntegerIsShort(n);
        Some(ToText(Decimal.PrintNat(n)))
      else None
    case NotAnInteger => None
    case Text(s) => if IsTsText(s) then Some(s) else None
  }

  lemma {:induction false} PrintedDigits(n: nat, k: nat, bound: nat)
    requires n < bound && bound == Tens(k) && k > 0
    ensures |Decimal.PrintNat(n)| <= k
    decreases k
  {
    if n >= 10 {
      assert k > 1;
      PrintedDigits(n / 10, k - 1, Tens(k - 1));
    }
  }

  ghost function Tens(k: nat): nat { if k == 0 then 1 else 10 * Tens(k - 1) }

  lemma SafeIntegerIsShort(n: nat)
    requires n <= MAX_SAFE_INTEGER
    ensures IsTsText(ToText(Decimal.PrintNat(n)))
  {
    assert Tens(4) == 10_000;
    assert Tens(8) == 100_000_000;
    assert Tens(12) == 1_000_000_000_000;
    assert Tens(16) == 10_000_000_000_000_000;
    PrintedDigits(n, 16, Tens(16));
    var b := Decimal.PrintNat(n);
    assert forall i :: 0 <= i < |b| ==> Decimal.IsDigit(b[i]);
  }

  // ----- the strings that are signed ------------------------------------------------------------

  datatype Request = Request(meth: string, target: string, origin: string, sid: string, ts: Ts, nonce: string, bodyHash: string)

  function RequestLines(f: Request): Option<seq<string>> {
    var ts := TsText(f.ts);
    if f.meth == [] || !All(f.meth, IsUpper) then None
    else if !("/" <= f.target) || !NoBreak(f.target) then None
    else if |f.bodyHash| != 64 || !All(f.bodyHash, IsHexChar) then None
    else if !OneLine(f.origin) || !FixedB64(f.sid, SID_BYTES) || ts.None? || !FixedB64(f.nonce, NONCE_BYTES) then None
    else Some([REQUEST_PREFIX, f.meth, f.target, f.origin, f.sid, ts.value, f.nonce, f.bodyHash])
  }

  /** `canonicalRequest`. */
  function CanonicalRequest(f: Request): Option<string> {
    var lines := RequestLines(f);
    if lines.None? then None else Some(Join(lines.value, '\n'))
  }

  datatype Registration = Registration(origin: string, boot: string, pub: string, ts: Ts)

  function RegistrationLines(f: Registration): Option<seq<string>> {
    var ts := TsText(f.ts);
    if !OneLine(f.origin) || !FixedB64(f.boot, BOOT_BYTES) || !FixedB64(f.pub, PUB_BYTES) || ts.None? then None
    else Some([REGISTER_PREFIX, f.origin, f.boot, f.pub, ts.value])
  }

  /** `registrationProof`. */
  function RegistrationProof(f: Registration): Option<string> {
    var lines := RegistrationLines(f);
    if lines.None? then None else Some(Join(lines.value, '\n'))
  }

  // ----- joined lines determine the lines -----------------------------------------------------------

  predicate NoNewline(s: string) { '\n' !in s }

  lemma JoinInjective(a: seq<string>, b: seq<string>)
    requires a != [] && b != []
    requires (forall l :: l in a ==> NoNewline(l)) && (forall l :: l in b ==> NoNewline(l))
    requires Join(a, '\n') == Join(b, '\n')
    ensures a == b
  {
    SplitOfJoin(a, '\n');
    SplitOfJoin(b, '\n');
  }

  lemma PlainLine(s: string)
    requires NoBreak(s) || All(s, IsUrlChar) || All(s, IsDigitChar) || All(s, IsUpper) || All(s, IsHexChar)
    ensures NoNewline(s)
  {
    assert IsBreak('\n') && !IsUrlChar('\n') && !IsDigitChar('\n') && !IsUpper('\n') && !IsHexChar('\n');
  }

  lemma RequestLinesPlain(f: Request)
    requires RequestLines(f).Some?
    ensures forall l :: l in RequestLines(f).value ==> NoNewline(l)
  {
    PlainLine(f.meth);
    PlainLine(f.target);
    PlainLine(f.origin);
    PlainLine(f.sid);
    PlainLine(TsText(f.ts).value);
    PlainLine(f.nonce);
    PlainLine(f.bodyHash);
    assert NoNewline(REQUEST_PREFIX);
  }

  lemma RegistrationLinesPlain(f: Registration)
    requires RegistrationLines(f).Some?
    ensures forall l :: l in RegistrationLines(f).value ==> NoNewline(l)
  {
    PlainLine(f.origin);
    PlainLine(f.boot);
    PlainLine(f.pub);
    PlainLine(TsText(f.ts).value);
    assert NoNewline(REGISTER_PREFIX);
  }

  /** Line by line, the string of a request is the scheme, the method, the target, the origin, the session, the time, the nonce and the hash. */
  lemma RequestLineByLine(f: Request)
    requires CanonicalRequest(f).Some?
    ensures Split(CanonicalRequest(f).value, '\n') ==
            ["miasma-web-sig-v1", f.meth, f.target, f.origin, f.sid, TsText(f.ts).value, f.nonce, f.bodyHash]
  {
    RequestLinesPlain(f);
    SplitOfJoin(RequestLines(f).value, '\n');
  }

  /** Line by line, the string of a registration is the scheme, the origin, the boot value, the key and the time. */
  lemma RegistrationLineByLine(f: Registration)
    requires RegistrationProof(f).Some?
    ensures Split(RegistrationProof(f).value, '\n') == ["miasma-web-register-v1", f.origin, f.boot, f.pub, TsText(f.ts).value]
  {
    RegistrationLinesPlain(f);
    SplitOfJoin(RegistrationLines(f).value, '\n');
  }

  /** Which requests are refused: what is not of the form of its line. */
  lemma RequestFields(f: Request)
    ensures CanonicalRequest(f).Some? <==>
            && |f.meth| > 0 && (forall c :: c in f.meth ==> 'A' <= c <= 'Z')
            && |f.target| > 0 && f.target[0] == '/' && '\r' !in f.target && '\n' !in f.target
            && |f.origin| > 0 && '\r' !in f.origin && '\n' !in f.origin
            && |f.sid| == 22 && (forall c :: c in f.sid ==> IsUrlChar(c))
            && IsTime(f.ts)
            && |f.nonce| == 22 && (forall c :: c in f.nonce ==> IsUrlChar(c))
            && |f.bodyHash| == 64 && (forall c :: c in f.bodyHash ==> '0' <= c <= '9' || 'a' <= c <= 'f')
  {
    AllIs(f.meth, IsUpper);
    AllIs(f.sid, IsUrlChar);
    AllIs(f.nonce, IsUrlChar);
    AllIs(f.bodyHash, IsHexChar);
    NoBreakIs(f.target);
    NoBreakIs(f.origin);
    TimeIs(f.ts);
  }

  lemma RegistrationFields(f: Registration)
    ensures RegistrationProof(f).Some? <==>
            && |f.origin| > 0 && '\r' !in f.origin && '\n' !in f.origin
            && |f.boot| == 43 && (forall c :: c in f.boot ==> IsUrlChar(c))
            && |f.pub| == 87 && (forall c :: c in f.pub ==> IsUrlChar(c))
            && IsTime(f.ts)
  {
    AllIs(f.boot, IsUrlChar);
    AllIs(f.pub, IsUrlChar);
    NoBreakIs(f.origin);
    TimeIs(f.ts);
  }

  /** A non-negative safe integer, or a text of 1 to 16 digits. */
  ghost predicate IsTime(ts: Ts) {
    match ts
    case Number(n) => 0 <= n <= 9_007_199_254_740_991
    case NotAnInteger => false
    case Text(s) => 1 <= |s| <= 16 && forall c :: c in s ==> '0' <= c <= '9'
  }

  lemma AllIs(s: string, p: char -> bool)
    ensures All(s, p) <==> forall c :: c in s ==> p(c)
  {
    if forall c :: c in s ==> p(c) { forall i | 0 <= i < |s| ensures p(s[i]) { assert s[i] in s; } }
  }

  lemma NoBreakIs(s: string)
    ensures NoBreak(s) <==> '\r' !in s && '\n' !in s
  {
    assert IsBreak('\r') && IsBreak('\n');
  }

  lemma TimeIs(ts: Ts)
    ensures TsText(ts).Some? <==> IsTime(ts)
  {
    if ts.Text? { AllIs(ts.s, IsDigitChar); }
  }

  /** The characters of base64url, and what a time is written as. */
  lemma UrlCharsAre(c: char)
    ensures IsUrlChar(c) <==> 'A' <= c <= 'Z' || 'a' <= c <= 'z' || '0' <= c <= '9' || c == '-' || c == '_'
  {
  }

  lemma NumberIsWritten(n: int)
    requires 0 <= n <= MAX_SAFE_INTEGER
    ensures TsText(Number(n)).Some? && |TsText(Number(n)).value| == |Decimal.PrintNat(n)|
    ensures forall i :: 0 <= i < |Decimal.PrintNat(n)| ==> TsText(Number(n)).value[i] as int == Decimal.PrintNat(n)[i]
  {
  }

  /** Two requests are signed over the same string only if they agree in every field, times compared as text. */
  lemma RequestInjective(f: Request, g: Request)
    requires CanonicalRequest(f).Some? && CanonicalRequest(f) == CanonicalRequest(g)
    ensures f.(ts := g.ts) == g && TsText(f.ts) == TsText(g.ts)
  {
    RequestLinesPlain(f);
    RequestLinesPlain(g);
    var a, b := RequestLines(f).value, RequestLines(g).value;
    JoinInjective(a, b);
    assert a[1] == b[1] && a[2] == b[2] && a[3] == b[3] && a[4] == b[4] && a[5] == b[5] && a[6] == b[6] && a[7] == b[7];
  }

  lemma RegistrationInjective(f: Registration, g: Registration)
    requires RegistrationProof(f).Some? && RegistrationProof(f) == RegistrationProof(g)
    ensures f.(ts := g.ts) == g && TsText(f.ts) == TsText(g.ts)
  {
    RegistrationLinesPlain(f);
    RegistrationLinesPlain(g);
    var a, b := RegistrationLines(f).value, RegistrationLines(g).value;
    JoinInjective(a, b);
    assert a[1] == b[1] && a[2] == b[2] && a[3] == b[3] && a[4] == b[4];
  }

  /** A signature over a request is never one over a registration. */
  lemma RequestIsNoRegistration(f: Request, g: Registration)
    requires CanonicalRequest(f).Some? && RegistrationProof(g).Some?
    ensures CanonicalRequest(f) != RegistrationProof(g)
  {
    if CanonicalRequest(f) == RegistrationProof(g) {
      RequestLinesPlain(f);
      RegistrationLinesPlain(g);
      JoinInjective(RequestLines(f).value, RegistrationLines(g).value);
    }
  }
}
