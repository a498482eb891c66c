/** The two ends of the dissolve bundle agree: what is written is read, and only that. */
module DissolveLaws {
  import opened Basics
  import opened Radix
  import opened Frames
  import opened Base58
  import opened Mid
  import opened ShareBundle
  import opened DissolveBundle

  // ----- the pieces of a bundle ------------------------------------------------------------------

  lemma Pieces(magic: Bytes, l: Bytes, raw: Bytes, k: Bytes, n: Bytes, c: Bytes, rest: Bytes)
    requires |magic| == 4 && |l| == 2 && |k| == 2 && |n| == 2 && |c| == 2
    ensures var b := magic + l + raw + (k + n + c) + rest;
            var off := 6 + |raw|;
            && |b| == off + 6 + |rest|
            && b[..4] == magic && b[4..6] == l && b[6..off] == raw
            && b[off..off + 2] == k && b[off + 2..off + 4] == n && b[off + 4..off + 6] == c && b[off + 6..] == rest
  {}

  lemma Joined(b: Bytes, off: nat)
    requires 6 <= off <= |b| - 6
    ensures b == b[..4] + b[4..6] + b[6..off] + (b[off..off + 2] + b[off + 2..off + 4] + b[off + 4..off + 6]) + b[off + 6..]
  {}

  lemma BundleDigits(raw: Bytes, k: nat, n: nat, parts: seq<Bytes>)
    requires AreBytes(parts) && AreDigits(raw, 256)
    ensures AreDigits(BundleOf(raw, k, n, parts), 256)
  {}

  lemma Get16Is(b: Bytes, off: nat, n: nat)
    requires AreDigits(b, 256) && off + 2 <= |b| && b[off..off + 2] == Le16(n) && n < 65536
    ensures Get16(b, off) == n
  {
    Get16Of(b, off, n);
    SmallMod(n, 65536);
  }

  /** The head of a bundle says what was put into it. */
  lemma HeadReads(raw: Bytes, k: nat, n: nat, parts: seq<Bytes>)
    requires AreBytes(parts) && AreDigits(raw, 256)
    requires |raw| < 65536 && k < 65536 && n < 65536 && |parts| < 65536
    ensures var b := BundleOf(raw, k, n, parts);
            var off := 6 + |raw|;
            && AreDigits(b, 256) && |b| >= 12 && b[..4] == MDB1 && MidEnd(b) == off <= |b| - 6 && b[6..off] == raw
            && Get16(b, off) == k && Get16(b, off + 2) == n && Get16(b, off + 4) == |parts| && b[off + 6..] == Layout(parts)
  {
    var b := BundleOf(raw, k, n, parts);
    var off := 6 + |raw|;
    Pieces(MDB1, Le16(|raw|), raw, Le16(k), Le16(n), Le16(|parts|), Layout(parts));
    BundleDigits(raw, k, n, parts);
    Get16Is(b, 4, |raw|);
    Get16Is(b, off, k);
    Get16Is(b, off + 2, n);
    Get16Is(b, off + 4, |parts|);
  }

  /** Parts a bundle can carry: as many as allowed, none of them empty or too long to say. */
  ghost predicate Carried(parts: seq<Bytes>) {
    1 <= |parts| <= 512 && Fitting(parts, |parts|, MAX_LENGTH, Any)
  }

  /** Every bundle of a usable MID text is read back; and of other parts or totals none. */
  lemma BundleIsParsed(raw: Bytes, k: nat, n: nat, parts: seq<Bytes>, utf8: Bytes -> string)
    requires AreBytes(parts) && AreDigits(raw, 256)
    requires |raw| < 65536 && k < 65536 && n < 65536 && |parts| < 65536 && SavePrefix(utf8(raw)).Ok?
    ensures AreDigits(BundleOf(raw, k, n, parts), 256)
    ensures Parse(BundleOf(raw, k, n, parts), utf8) ==
              Ok(Bundle(utf8(raw), SharesOf(SavePrefix(utf8(raw)).value, parts), k, n))
            <==> Carried(parts) && n == |parts|
  {
    HeadReads(raw, k, n, parts);
    var b := BundleOf(raw, k, n, parts);
    var off := 6 + |raw|;
    var prefix := SavePrefix(utf8(raw)).value;
    ReadsExactlyLayouts(b, off + 6, parts, MAX_LENGTH, Any);
    var read := ReadFrames(b, off + 6, |parts|, MAX_LENGTH, Any);
    if read.Ok? && SharesOf(prefix, read.value) == SharesOf(prefix, parts) { SameShares(prefix, read.value, parts); }
  }

  lemma SameShares(prefix: string, a: seq<Bytes>, b: seq<Bytes>)
    requires SharesOf(prefix, a) == SharesOf(prefix, b)
    ensures a == b
  {
    forall i | 0 <= i < |a| ensures a[i] == b[i] {
      assert ShareAt(prefix, i, a[i]) == SharesOf(prefix, b)[i];
    }
  }

  /** Why a bundle is not written, and why one is not read, each in the order of the tests; `MDB1` are the first four bytes. */
  lemma WriteErrors(mid: string, k: nat, n: nat, parts: seq<Bytes>)
    requires IsAscii(mid) && AreBytes(parts)
    ensures var r := EncodeBundle(mid, k, n, parts);
            && (r == Err(TooManyShares) <==> |parts| > 65535)
            && (r == Err(MidTooLong) <==> |parts| <= 65535 && |mid| > 65535)
            && (r == Err(ShareTooLarge) <==> |parts| <= 65535 && |mid| <= 65535 && exists i :: 0 <= i < |parts| && |parts[i]| > 0xffff_ffff)
            && (r.Ok? ==> |r.value| >= 12 && r.value[..4] == ['M' as int, 'D' as int, 'B' as int, '1' as int])
  {
    if EncodeBundle(mid, k, n, parts).Ok? {
      var raw := AsciiBytes(mid);
      Pieces(MDB1, Le16(|raw|), raw, Le16(k), Le16(n), Le16(|parts|), Layout(parts));
    }
  }

  lemma HeaderErrors(b: Bytes, utf8: Bytes -> string)
    requires AreDigits(b, 256)
    ensures Parse(b, utf8) == Err(InvalidHeader) <==> |b| < 12 || b[..4] != ['M' as int, 'D' as int, 'B' as int, '1' as int]
    ensures Parse(b, utf8) == Err(TruncatedBundle) <==>
            |b| >= 12 && b[..4] == ['M' as int, 'D' as int, 'B' as int, '1' as int] && 12 + b[4] + 256 * b[5] > |b|
  {
    if |b| >= 12 { CountIs(b, 4); }
  }

  /** Past the header: the MID text, the numbers after it, then the parts. */
  lemma ReadErrors(b: Bytes, off: nat, mid: string, count: nat, n: nat, parts: Result<seq<Bytes>, FrameError>, utf8: Bytes -> string)
    requires AreDigits(b, 256) && |b| >= 12 && b[..4] == MDB1 && off == MidEnd(b) <= |b| - 6
    requires mid == utf8(b[6..off]) && n == Get16(b, off + 2) && count == Get16(b, off + 4)
    requires parts == ReadFrames(b, off + 6, count, 0xffff_ffff, Any)
    ensures var r := Parse(b, utf8);
            && (r == Err(InvalidMetadata) <==> !("miasma:" <= mid && 1 <= count <= 512 && count == n))
            && ("miasma:" <= mid && 1 <= count <= 512 && count == n ==>
                  && (SavePrefix(mid).Err? ==> r == Err(BadMid(SavePrefix(mid).error)))
                  && (SavePrefix(mid).Ok? ==> (r == Err(TruncatedLength) <==> parts == Err(NoLength)))
                  && (SavePrefix(mid).Ok? ==> (r == Err(TrailingBytes) <==> parts == Err(Trailing)))
                  && (SavePrefix(mid).Ok? ==> (r == Err(TruncatedShare) <==> parts.Err? && parts != Err(NoLength) && parts != Err(Trailing))))
  {
  }

  /** A header and a layout make a bundle: what the numbers in the header say is what stands there. */
  lemma HeaderStands(b: Bytes, parts: seq<Bytes>)
    requires AreDigits(b, 256) && |b| >= 12 && b[..4] == MDB1 && MidEnd(b) <= |b| - 6
    requires AreBytes(parts) && |parts| == Get16(b, MidEnd(b) + 4) && b[MidEnd(b) + 6..] == Layout(parts)
    ensures b == BundleOf(b[6..MidEnd(b)], Get16(b, MidEnd(b)), Get16(b, MidEnd(b) + 2), parts)
  {
    var off := MidEnd(b);
    var raw, l, k, n, c := b[6..off], b[4..6], b[off..off + 2], b[off + 2..off + 4], b[off + 4..off + 6];
    assert Le16(|raw|) == l by { Le16OfGet(b, 4); }
    assert Le16(Get16(b, off)) == k by { Le16OfGet(b, off); }
    assert Le16(Get16(b, off + 2)) == n by { Le16OfGet(b, off + 2); }
    assert Le16(|parts|) == c by { Le16OfGet(b, off + 4); }
    assert b == MDB1 + l + raw + (k + n + c) + Layout(parts) by { Joined(b, off); }
  }

  /** Only bundles are read: the input is the one written for the MID text and the parts that come out. */
  lemma ParsedIsBundle(b: Bytes, utf8: Bytes -> string)
    requires AreDigits(b, 256) && Parse(b, utf8).Ok?
    ensures var d := Parse(b, utf8).value;
            var raw := b[6..MidEnd(b)];
            && utf8(raw) == d.mid && SavePrefix(d.mid).Ok?
            && exists parts :: Carried(parts) && |parts| == d.totalShards && d.shares == SharesOf(SavePrefix(d.mid).value, parts)
                 && b == BundleOf(raw, d.dataShards, d.totalShards, parts)
  {
    var off := MidEnd(b);
    var count := Get16(b, off + 4);
    var parts := ReadFrames(b, off + 6, count, MAX_LENGTH, Any).value;
    ReadIsLayout(b, off + 6, count, MAX_LENGTH, Any);
    HeaderStands(b, parts);
  }

  // ----- the text of the MID ------------------------------------------------------------------------

  lemma Base58IsAscii(s: string)
    requires IsBase58(s)
    ensures IsAscii(s)
  {
    forall i | 0 <= i < |s| ensures s[i] as int < 128 { LetterIndex(0, s[i]); }
  }

  lemma SchemeIsAscii(s: string)
    requires IsAscii(s)
    ensures IsAscii(SCHEME + s)
  {
    assert IsAscii(SCHEME);
  }

  lemma UsableIsAscii(mid: string)
    requires SavePrefix(mid).Ok?
    ensures IsAscii(mid) && mid != [] && mid[0] == 'm'
  {
    assert mid == SCHEME + mid[7..];
    Base58IsAscii(mid[7..]);
    SchemeIsAscii(mid[7..]);
  }

  /** A text is spelled in one way, or in one more with a byte order mark before it. */
  lemma MidIsSpelled(raw: Bytes, utf8: Bytes -> string)
    requires IsTextDecoder(utf8) && SavePrefix(utf8(raw)).Ok?
    ensures IsAscii(utf8(raw)) && (raw == AsciiBytes(utf8(raw)) || raw == BOM + AsciiBytes(utf8(raw)))
  {
    UsableIsAscii(utf8(raw));
  }

  // ----- one spelling and one more ------------------------------------------------------------------

  /** The bundle of a result: everything in it comes from the result, but for the mark before the MID text. */
  ghost predicate IsPrintOf(b: Bytes, marked: bool, d: Bundle, parts: seq<Bytes>) {
    && SavePrefix(d.mid).Ok? && IsAscii(d.mid) && Carried(parts) && d.totalShards == |parts|
    && d.shares == SharesOf(SavePrefix(d.mid).value, parts)
    && b == BundleOf((if marked then BOM else []) + AsciiBytes(d.mid), d.dataShards, d.totalShards, parts)
  }

  /** Bytes of a text in ASCII never begin with a byte order mark. */
  lemma TextStart(raw: Bytes, mid: string)
    requires IsAscii(mid) && mid != [] && (raw == AsciiBytes(mid) || raw == BOM + AsciiBytes(mid))
    ensures raw == BOM + AsciiBytes(mid) <==> |raw| >= 3 && raw[..3] == BOM
  {
    assert |raw| >= 3 ==> raw[..3][0] == raw[0];
  }

  lemma BundleStart(raw: Bytes, k: nat, n: nat, parts: seq<Bytes>)
    requires AreBytes(parts) && |raw| >= 3
    ensures |BundleOf(raw, k, n, parts)| >= 9 && BundleOf(raw, k, n, parts)[6..9] == raw[..3]
  {
    Pieces(MDB1, Le16(|raw|), raw, Le16(k), Le16(n), Le16(|parts|), Layout(parts));
    var b := BundleOf(raw, k, n, parts);
    assert b[6..9] == b[6..6 + |raw|][..3];
  }

  /**
  The parser accepts the print of its result and nothing else, but for a byte order mark before the
  MID text: the input is the print exactly when there is none at offset 6, and else the marked print.
  */
  lemma ParsesOnlyPrints(b: Bytes, utf8: Bytes -> string)
    requires AreDigits(b, 256) && IsTextDecoder(utf8) && Parse(b, utf8).Ok?
    ensures var d := Parse(b, utf8).value;
            && |b| >= 9
            && (b[6..9] == BOM ==> exists parts :: IsPrintOf(b, true, d, parts))
            && ((exists parts :: IsPrintOf(b, false, d, parts)) <==> b[6..9] != BOM)
  {
    var d := Parse(b, utf8).value;
    var raw := b[6..MidEnd(b)];
    ParsedIsBundle(b, utf8);
    var parts :| Carried(parts) && |parts| == d.totalShards && d.shares == SharesOf(SavePrefix(d.mid).value, parts)
                 && b == BundleOf(raw, d.dataShards, d.totalShards, parts);
    MidIsSpelled(raw, utf8);
    UsableIsAscii(d.mid);
    assert |SCHEME| <= |d.mid| <= |raw|;
    TextStart(raw, d.mid);
    BundleStart(raw, d.dataShards, d.totalShards, parts);
    assert [] + AsciiBytes(d.mid) == AsciiBytes(d.mid);
    if b[6..9] == BOM { assert IsPrintOf(b, true, d, parts); } else { assert IsPrintOf(b, false, d, parts); }
    forall other | IsPrintOf(b, false, d, other) ensures b[6..9] != BOM {
      BundleStart(AsciiBytes(d.mid), d.dataShards, d.totalShards, other);
      TextStart(AsciiBytes(d.mid), d.mid);
      assert AsciiBytes(d.mid)[..3] != BOM by { assert AsciiBytes(d.mid)[..3][0] == 109; }
    }
  }

  lemma PrintIsParsed(raw: Bytes, mid: string, k: nat, parts: seq<Bytes>, utf8: Bytes -> string)
    requires utf8(raw) == mid && SavePrefix(mid).Ok? && AreDigits(raw, 256) && |raw| < 65536 && k < 65536 && Carried(parts)
    ensures var b := BundleOf(raw, k, |parts|, parts);
            AreDigits(b, 256) && Parse(b, utf8) == Ok(Bundle(mid, SharesOf(SavePrefix(mid).value, parts), k, |parts|))
  {
    BundleIsParsed(raw, k, |parts|, parts, utf8);
  }

  lemma MarkedDigits(raw: Bytes)
    requires AreDigits(raw, 256)
    ensures AreDigits(BOM + raw, 256)
  {
    assert AreDigits(BOM, 256);
  }

  /** Each print has a second spelling, with the mark, that is parsed to the same result. */
  lemma MarkedPrintIsParsedAlike(mid: string, k: nat, parts: seq<Bytes>, utf8: Bytes -> string)
    requires IsTextDecoder(utf8) && SavePrefix(mid).Ok? && |mid| < 65533 && k < 65536 && Carried(parts)
    ensures IsAscii(mid)
    ensures var (plain, marked) := (BundleOf(AsciiBytes(mid), k, |parts|, parts), BundleOf(BOM + AsciiBytes(mid), k, |parts|, parts));
            && plain != marked && AreDigits(plain, 256) && AreDigits(marked, 256)
            && Parse(plain, utf8) == Parse(marked, utf8) == Ok(Bundle(mid, SharesOf(SavePrefix(mid).value, parts), k, |parts|))
  {
    UsableIsAscii(mid);
    var raw := AsciiBytes(mid);
    assert utf8(raw) == mid && utf8(BOM + raw) == mid;
    PrintIsParsed(raw, mid, k, parts, utf8);
    MarkedDigits(raw);
    PrintIsParsed(BOM + raw, mid, k, parts, utf8);
    PrintsDiffer(mid, k, parts);
  }

  lemma PrintsDiffer(mid: string, k: nat, parts: seq<Bytes>)
    requires SavePrefix(mid).Ok? && IsAscii(mid) && AreBytes(parts)
    ensures BundleOf(AsciiBytes(mid), k, |parts|, parts) != BundleOf(BOM + AsciiBytes(mid), k, |parts|, parts)
  {
    UsableIsAscii(mid);
    var raw := AsciiBytes(mid);
    assert |raw| >= |SCHEME|;
    BundleStart(raw, k, |parts|, parts);
    BundleStart(BOM + raw, k, |parts|, parts);
    assert raw[..3][0] == 109 && (BOM + raw)[..3][0] == 239;
  }

  /**
  A dissolved file comes through: for every 32-byte digest the page reads what the module wrote,
  exactly when there are 1 to 512 shares, none of them empty, and the total says how many.
  */
  lemma DissolveComesThrough(digest: Bytes, k: nat, n: nat, parts: seq<Bytes>, utf8: Bytes -> string)
    requires AreDigits(digest, 256) && |digest| == 32 && AreBytes(parts) && k < 65536 && n < 65536 && IsTextDecoder(utf8)
    ensures IsAscii(MidText(digest))
    ensures var e := EncodeBundle(MidText(digest), k, n, parts);
            e.Ok? ==>
              && AreDigits(e.value, 256)
              && (Parse(e.value, utf8) == Ok(Bundle(MidText(digest), SharesOf(Hex(digest[..8]), parts), k, n)) <==>
                  Carried(parts) && n == |parts|)
  {
    var mid := MidText(digest);
    OneKeyPerMid(digest);
    UsableIsAscii(mid);
    var e := EncodeBundle(mid, k, n, parts);
    if e.Ok? {
      assert utf8(AsciiBytes(mid)) == mid;
      BundleIsParsed(AsciiBytes(mid), k, n, parts, utf8);
    }
  }
}
