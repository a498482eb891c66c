/**
The bundle in which the WebAssembly module hands a dissolved file to the page: written by
crates/miasma-wasm/src/lib.rs, read by web/js/storage.js.
*/
module DissolveBundle {
  import opened Basics
  import opened Radix
  import opened Frames
  import opened Mid
  import opened ShareRows
  import opened ShareBundle

  /** The largest length that 32 bits can say. */
  const MAX_LENGTH: nat := 0xffff_ffff
  const MDB1: Bytes := [0x4d, 0x44, 0x42, 0x31]

  // ----- text ----------------------------------------------------------------------------------

  predicate IsAscii(s: string) { forall i :: 0 <= i < |s| ==> s[i] as int < 128 }

  function AsciiBytes(s: string): (b: Bytes)
    requires IsAscii(s)
    ensures |b| == |s| && AreDigits(b, 256)
    ensures forall i :: 0 <= i < |s| ==> b[i] == s[i] as int
  {
    seq(|s|, i requires 0 <= i < |s| => s[i] as int)
  }

  const BOM: Bytes := [0xef, 0xbb, 0xbf]

  /**
  What is used of `TextDecoder`: it drops one byte order mark, ASCII bytes stand for themselves, and
  any other byte leads to a character that is not ASCII.
  */
  ghost predicate IsTextDecoder(utf8: Bytes -> string) {
    && (forall s: string :: IsAscii(s) ==> utf8(AsciiBytes(s)) == s && utf8(BOM + AsciiBytes(s)) == s)
    && (forall b: Bytes :: IsAscii(utf8(b)) ==> b == AsciiBytes(utf8(b)) || b == BOM + AsciiBytes(utf8(b)))
  }

  // ----- writing ---------------------------------------------------------------------------------

  function HeadOf(raw: Bytes, k: nat, n: nat, count: nat): Bytes {
    MDB1 + Le16(|raw|) + raw + (Le16(k) + Le16(n) + Le16(count))
  }

  /** The whole bundle, for the bytes of the MID text. */
  function BundleOf(raw: Bytes, k: nat, n: nat, parts: seq<Bytes>): Bytes
    requires AreBytes(parts)
  {
    HeadOf(raw, k, n, |parts|) + Layout(parts)
  }

  datatype EncodeError = TooManyShares | MidTooLong | ShareTooLarge

  /** What `encode_dissolve_bundle` returns for shares already in bytes. */
  function EncodeBundle(mid: string, k: nat, n: nat, parts: seq<Bytes>): Result<Bytes, EncodeError>
    requires IsAscii(mid) && AreBytes(parts)
  {
    if |parts| > 65535 then Err(TooManyShares)
    else if |mid| > 65535 then Err(MidTooLong)
    else if exists i :: 0 <= i < |parts| && |parts[i]| >= U32 then Err(ShareTooLarge)
    else Ok(BundleOf(AsciiBytes(mid), k, n, parts))
  }

  /** `encode_dissolve_bundle`. */
  method EncodeDissolveBundle(mid: string, k: nat, n: nat, parts: seq<Bytes>) returns (r: Result<Bytes, EncodeError>)
    requires IsAscii(mid) && AreBytes(parts)
    ensures r == EncodeBundle(mid, k, n, parts)
  {
    if |parts| > 65535 { return Err(TooManyShares); }
    if |mid| > 65535 { return Err(MidTooLong); }
    for i := 0 to |parts|
      invariant forall j :: 0 <= j < i ==> |parts[j]| < U32
    {
      if |parts[i]| > U32 - 1 { return Err(ShareTooLarge); }
    }
    var head := HeadOf(AsciiBytes(mid), k, n, |parts|);
    var out := head;
    for i := 0 to |parts|
      invariant out == head + Layout(parts[..i])
    {
      FramesSnoc(parts[..i], parts[i]);
      assert parts[..i + 1] == parts[..i] + [parts[i]];
      Regroup(head, Layout(parts[..i]), Le32(|parts[i]|) + parts[i]);
      out := out + (Le32(|parts[i]|) + parts[i]);
    }
    assert parts[..|parts|] == parts;
    r := Ok(out);
  }

  // ----- reading ---------------------------------------------------------------------------------

  datatype Bundle = Bundle(mid: string, shares: seq<Share>, dataShards: nat, totalShards: nat)

  datatype ParseError =
    | InvalidHeader | TruncatedBundle | InvalidMetadata | BadMid(error: MidError)
    | TruncatedLength | TruncatedShare | TrailingBytes

  function ShareAt(prefix: string, i: nat, part: Bytes): Share {
    Share(Some(1), Some(prefix), Some(0), Some(i), Some(0), Some(0), Some(part), None)
  }

  function SharesOf(prefix: string, parts: seq<Bytes>): (shares: seq<Share>)
    ensures |shares| == |parts| && forall i :: 0 <= i < |parts| ==> shares[i] == ShareAt(prefix, i, parts[i])
  {
    seq(|parts|, i requires 0 <= i < |parts| => ShareAt(prefix, i, parts[i]))
  }

  lemma SharesSnoc(prefix: string, parts: seq<Bytes>, part: Bytes)
    ensures SharesOf(prefix, parts + [part]) == SharesOf(prefix, parts) + [ShareAt(prefix, |parts|, part)]
  {}

  function Any(b: Bytes): bool { true }

  /** How the page words a failure to read the parts. */
  function Worded(e: FrameError): ParseError {
    match e
    case NoLength => TruncatedLength
    case Trailing => TrailingBytes
    case _ => TruncatedShare
  }

  /** The parts as shares of that prefix, or the failure as the page words it. */
  function Presented(prefix: string, r: Result<seq<Bytes>, FrameError>): Result<seq<Share>, ParseError> {
    match r
    case Err(e) => Err(Worded(e))
    case Ok(parts) => Ok(SharesOf(prefix, parts))
  }

  /** Where the part after the MID text begins. */
  function MidEnd(b: Bytes): nat
    requires AreDigits(b, 256) && |b| >= 12
  {
    6 + Get16(b, 4)
  }

  /** What `parseDissolveBundle` returns or throws. */
  function Parse(b: Bytes, utf8: Bytes -> string): Result<Bundle, ParseError>
    requires AreDigits(b, 256)
  {
    if |b| < 12 || b[..4] != MDB1 then Err(InvalidHeader)
    else if MidEnd(b) + 6 > |b| then Err(TruncatedBundle)
    else
      var off := MidEnd(b);
      var mid := utf8(b[6..off]);
      var (k, n, count) := (Get16(b, off), Get16(b, off + 2), Get16(b, off + 4));
      if !HasScheme(mid) || count == 0 || count > 512 || count != n then Err(InvalidMetadata)
      else match SavePrefix(mid)
        case Err(e) => Err(BadMid(e))
        case Ok(prefix) =>
          match Presented(prefix, ReadFrames(b, off + 6, count, MAX_LENGTH, Any))
          case Err(e) => Err(e)
          case Ok(shares) => Ok(Bundle(mid, shares, k, n))
  }

  /** The page's test for a part is the reader's, since no length exceeds 32 bits. */
  lemma NextShare(b: Bytes, off: nat)
    requires AreDigits(b, 256) && off + 4 <= |b|
    ensures var (len, next) := (Get32(b, off), NextFrame(b, off, MAX_LENGTH, Any));
            if len == 0 || off + 4 + len > |b| then next.Err? && Worded(next.error) == TruncatedShare
            else next == Ok(off + 4 + len)
  {
    Le32OfGet(b, off);
  }

  /** The loop of `parseDissolveBundle`, which builds a share for each part. */
  method ParseShares(b: Bytes, start: nat, count: nat, prefix: string) returns (r: Result<seq<Share>, ParseError>)
    requires AreDigits(b, 256) && start <= |b|
    ensures r == Presented(prefix, ReadFrames(b, start, count, MAX_LENGTH, Any))
  {
    var off: nat, shares: seq<Share> := start, [];
    ghost var parts: seq<Bytes> := [];
    OntoNone(ReadFrames(b, start, count, MAX_LENGTH, Any));
    for i := 0 to count
      invariant off <= |b| && |parts| == i && shares == SharesOf(prefix, parts)
      invariant Onto(parts, ReadFrames(b, off, count - i, MAX_LENGTH, Any)) == ReadFrames(b, start, count, MAX_LENGTH, Any)
    {
      if off + 4 > |b| { return Err(TruncatedLength); }
      var len := Get32(b, off);
      NextShare(b, off);
      if len == 0 || off + 4 + len > |b| { return Err(TruncatedShare); }
      ReadMore(parts, b, off, off + 4 + len, count - i, MAX_LENGTH, Any);
      var part := b[off + 4..off + 4 + len];
      SharesSnoc(prefix, parts, part);
      shares := shares + [ShareAt(prefix, i, part)];
      parts := parts + [part];
      off := off + 4 + len;
    }
    assert parts + [] == parts;
    if off != |b| { return Err(TrailingBytes); }
    r := Ok(shares);
  }

  /** `parseDissolveBundle`. */
  method ParseDissolveBundle(b: Bytes, utf8: Bytes -> string) returns (r: Result<Bundle, ParseError>)
    requires AreDigits(b, 256)
    ensures r == Parse(b, utf8)
  {
    if |b| < 12 || b[0] != 0x4d || b[1] != 0x44 || b[2] != 0x42 || b[3] != 0x31 { return Err(InvalidHeader); }
    var midLen := Get16(b, 4);
    var off := 6;
    if off + midLen + 6 > |b| { return Err(TruncatedBundle); }
    var mid := utf8(b[off..off + midLen]);
    off := off + midLen;
    var dataShards := Get16(b, off);
    off := off + 2;
    var totalShards := Get16(b, off);
    off := off + 2;
    var count := Get16(b, off);
    off := off + 2;
    if !HasScheme(mid) || count == 0 || count > 512 || count != totalShards { return Err(InvalidMetadata); }
    var prefix := SavePrefix(mid);
    if prefix.Err? { return Err(BadMid(prefix.error)); }
    var shares := ParseShares(b, off, count, prefix.value);
    match shares
    case Err(e) => r := Err(e);
    case Ok(s) => r := Ok(Bundle(mid, s, dataShards, totalShards));
  }
}
