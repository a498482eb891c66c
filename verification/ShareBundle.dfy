/**
The bundle of shares handed back to the WebAssembly module: written by web/js/storage.js into one
buffer, read by crates/miasma-wasm/src/lib.rs.
*/
module ShareBundle {
  import opened Basics
  import opened Radix
  import opened Frames
  import opened ShareRows

  const MSB1: Bytes := [0x4d, 0x53, 0x42, 0x31]
  const MAX_SHARE_COUNT: nat := 512
  const MAX_BINCODE_SIZE: nat := 1024 * 1024

  // ----- writing -----------------------------------------------------------------------------

  datatype PackError = BadShareCount | NotBinary

  predicate BytesInside(shares: seq<Share>) { forall i :: 0 <= i < |shares| ==> BytesOnly(shares[i]) }

  /** Every share has bytes, and at least one. */
  predicate AllBinary(shares: seq<Share>) {
    forall i :: 0 <= i < |shares| ==> ShareBinaryBytes(shares[i]).Some? && |ShareBinaryBytes(shares[i]).value| > 0
  }

  function PartsOf(shares: seq<Share>): (parts: seq<Bytes>)
    requires BytesInside(shares) && AllBinary(shares)
    ensures |parts| == |shares| && AreBytes(parts)
    ensures forall i :: 0 <= i < |parts| ==> Some(parts[i]) == ShareBinaryBytes(shares[i]) && |parts[i]| > 0
  {
    seq(|shares|, i requires 0 <= i < |shares| => ShareBinaryBytes(shares[i]).value)
  }

  function Packed(parts: seq<Bytes>): Bytes
    requires AreBytes(parts)
  {
    MSB1 + Le16(|parts|) + Layout(parts)
  }

  /** What `packShareBundle` returns or throws. */
  function Pack(shares: seq<Share>): Result<Bytes, PackError>
    requires BytesInside(shares)
  {
    if |shares| == 0 || |shares| > 512 then Err(BadShareCount)
    else if !AllBinary(shares) then Err(NotBinary)
    else Ok(Packed(PartsOf(shares)))
  }

  /** `setUint32(off, n, true)`. */
  method SetUint32(out: array<int>, off: nat, n: nat)
    requires off + 4 <= out.Length
    modifies out
    ensures out[..off + 4] == old(out[..off]) + Le32(n)
  {
    out[off] := n % 256;
    out[off + 1] := n / 256 % 256;
    out[off + 2] := n / 256 / 256 % 256;
    out[off + 3] := n / 256 / 256 / 256 % 256;
    FourBytes(n);
  }

  lemma FourBytes(n: nat)
    ensures Le32(n) == [n % 256, n / 256 % 256, n / 256 / 256 % 256, n / 256 / 256 / 256 % 256]
  {
    var a := n / 256;
    var b := a / 256;
    var c := b / 256;
    assert Le(c, 1) == [c % 256] + Le(c / 256, 0);
    assert Le(b, 2) == [b % 256] + Le(c, 1);
    assert Le(a, 3) == [a % 256] + Le(b, 2);
    assert Le(n, 4) == [n % 256] + Le(a, 3);
  }

  lemma TwoBytes(n: nat)
    ensures Le16(n) == [n % 256, n / 256 % 256]
  {
    assert Le(n / 256, 1) == [n / 256 % 256] + Le(n / 256 / 256, 0);
    assert Le(n, 2) == [n % 256] + Le(n / 256, 1);
  }

  /** `out.set(p, off)`. */
  method SetBytes(out: array<int>, off: nat, p: Bytes)
    requires off + |p| <= out.Length
    modifies out
    ensures out[..off + |p|] == old(out[..off]) + p
  {
    for j := 0 to |p|
      invariant out[..off + j] == old(out[..off]) + p[..j]
    {
      out[off + j] := p[j];
    }
  }

  lemma {:induction false} FramesSnoc(parts: seq<Bytes>, part: Bytes)
    requires AreBytes(parts) && AreDigits(part, 256)
    ensures AreBytes(parts + [part]) && Layout(parts + [part]) == Layout(parts) + (Le32(|part|) + part)
    decreases |parts|
  {
    var all := parts + [part];
    if parts != [] {
      FramesSnoc(parts[1..], part);
      assert all[1..] == parts[1..] + [part] && all[0] == parts[0];
      Regroup(Le32(|parts[0]|) + parts[0], Layout(parts[1..]), Le32(|part|) + part);
    } else {
      assert all[1..] == [] && all[0] == part;
    }
  }

  /** The size of the buffer: the header and, for each part, four bytes and the part. */
  function SizeOf(parts: seq<Bytes>): nat { if parts == [] then 6 else SizeOf(parts[..|parts| - 1]) + 4 + |parts[|parts| - 1]| }

  lemma {:induction false} SizeGrows(parts: seq<Bytes>, i: nat)
    requires i < |parts|
    ensures SizeOf(parts[..i]) + 4 + |parts[i]| <= SizeOf(parts)
    decreases |parts|
  {
    var n := |parts| - 1;
    if i < n {
      SizeGrows(parts[..n], i);
      assert parts[..n][..i] == parts[..i];
    }
  }

  lemma TakeMore(parts: seq<Bytes>, i: nat)
    requires i < |parts|
    ensures parts[..i + 1] == parts[..i] + [parts[i]] && SizeOf(parts[..i + 1]) == SizeOf(parts[..i]) + 4 + |parts[i]|
  {
    assert parts[..i + 1][..i] == parts[..i];
  }

  method TotalSize(parts: seq<Bytes>) returns (total: nat)
    ensures total == SizeOf(parts)
  {
    total := 6;
    for i := 0 to |parts|
      invariant total == SizeOf(parts[..i])
    {
      TakeMore(parts, i);
      total := total + 4 + |parts[i]|;
    }
    assert parts[..|parts|] == parts;
  }

  method WriteHeader(out: array<int>, count: nat)
    requires out.Length >= 6
    modifies out
    ensures out[..6] == MSB1 + Le16(count)
  {
    SetBytes(out, 0, MSB1);
    assert out[..4] == MSB1;
    TwoBytes(count);
    SetBytes(out, 4, [count % 256, count / 256 % 256]);
  }

  /** The length of a part and the part. */
  method WriteFrame(out: array<int>, off: nat, part: Bytes)
    requires off + 4 + |part| <= out.Length
    modifies out
    ensures out[..off + 4 + |part|] == old(out[..off]) + (Le32(|part|) + part)
  {
    SetUint32(out, off, |part|);
    SetBytes(out, off + 4, part);
    Regroup(old(out[..off]), Le32(|part|), part);
  }

  method WritePart(out: array<int>, off: nat, parts: seq<Bytes>, i: nat, ghost head: Bytes)
    requires AreBytes(parts) && i < |parts| && off == SizeOf(parts[..i]) <= out.Length == SizeOf(parts)
    requires out[..off] == head + Layout(parts[..i])
    modifies out
    ensures off + 4 + |parts[i]| == SizeOf(parts[..i + 1]) <= out.Length
    ensures out[..off + 4 + |parts[i]|] == head + Layout(parts[..i + 1])
  {
    SizeGrows(parts, i);
    TakeMore(parts, i);
    FramesSnoc(parts[..i], parts[i]);
    Regroup(head, Layout(parts[..i]), Le32(|parts[i]|) + parts[i]);
    WriteFrame(out, off, parts[i]);
  }

  /** The buffer of the right size is filled from the header on, part after part, to its very end. */
  method PackParts(parts: seq<Bytes>) returns (b: Bytes)
    requires AreBytes(parts)
    ensures b == Packed(parts)
  {
    var total := TotalSize(parts);
    var out := new int[total];
    assert SizeOf(parts[..0]) == 6;
    if |parts| > 0 { SizeGrows(parts, 0); }
    WriteHeader(out, |parts|);
    ghost var head := MSB1 + Le16(|parts|);
    var off := 6;
    for i := 0 to |parts|
      invariant 6 <= off == SizeOf(parts[..i]) <= out.Length == SizeOf(parts)
      invariant out[..off] == head + Layout(parts[..i])
    {
      WritePart(out, off, parts, i, head);
      off := off + 4 + |parts[i]|;
    }
    assert parts[..|parts|] == parts;
    b := out[..];
    assert out[..off] == out[..];
  }

  lemma OneMoreBinary(shares: seq<Share>, i: nat)
    requires i < |shares| && BytesInside(shares) && AllBinary(shares[..i])
    requires ShareBinaryBytes(shares[i]).Some? && |ShareBinaryBytes(shares[i]).value| > 0
    ensures AllBinary(shares[..i + 1]) && PartsOf(shares[..i + 1]) == PartsOf(shares[..i]) + [ShareBinaryBytes(shares[i]).value]
  {
    assert shares[..i + 1] == shares[..i] + [shares[i]];
  }

  /** `packShareBundle`. */
  method PackShareBundle(shares: seq<Share>) returns (r: Result<Bytes, PackError>)
    requires BytesInside(shares)
    ensures r == Pack(shares)
  {
    if |shares| == 0 || |shares| > 512 { return Err(BadShareCount); }
    var parts: seq<Bytes> := [];
    for i := 0 to |shares|
      invariant AllBinary(shares[..i]) && parts == PartsOf(shares[..i])
    {
      var p := ShareBinaryBytes(shares[i]);
      if p.None? || |p.value| == 0 { return Err(NotBinary); }
      OneMoreBinary(shares, i);
      parts := parts + [p.value];
    }
    assert shares[..|shares|] == shares;
    var b := PackParts(parts);
    r := Ok(b);
  }

  // ----- reading -----------------------------------------------------------------------------

  datatype UnpackError = BadHeader | BadCount | Frame(error: FrameError)

  /** What `decode_share_bundle` returns, up to the decoding of each share: `accept` says which bytes are one. */
  function Unpack(b: Bytes, accept: Bytes -> bool): Result<seq<Bytes>, UnpackError>
    requires AreDigits(b, 256)
  {
    if |b| < 6 || b[..4] != MSB1 then Err(BadHeader)
    else
      var count := Get16(b, 4);
      if count == 0 || count > MAX_SHARE_COUNT then Err(BadCount)
      else match ReadFrames(b, 6, count, MAX_BINCODE_SIZE, accept)
        case Ok(parts) => Ok(parts)
        case Err(e) => Err(Frame(e))
  }

  /** The loop of `decode_share_bundle`. */
  method ReadShares(b: Bytes, count: nat, accept: Bytes -> bool) returns (r: Result<seq<Bytes>, FrameError>)
    requires AreDigits(b, 256) && |b| >= 6
    ensures r == ReadFrames(b, 6, count, MAX_BINCODE_SIZE, accept)
  {
    var off: nat, shares: seq<Bytes> := 6, [];
    OntoNone(ReadFrames(b, 6, count, MAX_BINCODE_SIZE, accept));
    for i := 0 to count
      invariant off <= |b|
      invariant Onto(shares, ReadFrames(b, off, count - i, MAX_BINCODE_SIZE, accept)) ==
                ReadFrames(b, 6, count, MAX_BINCODE_SIZE, accept)
    {
      if off + 4 > |b| { return Err(NoLength); }
      var len := Get32(b, off);
      if len == 0 || len > MAX_BINCODE_SIZE { return Err(BadLength); }
      off := off + 4;
      if off + len > |b| { return Err(ShortPart); }
      if !accept(b[off..off + len]) { return Err(Refused); }
      ReadMore(shares, b, off - 4, off + len, count - i, MAX_BINCODE_SIZE, accept);
      shares := shares + [b[off..off + len]];
      off := off + len;
    }
    if off != |b| { return Err(Trailing); }
    r := Ok(shares);
    assert shares + [] == shares;
  }

  /** `decode_share_bundle`. */
  method UnpackShareBundle(b: Bytes, accept: Bytes -> bool) returns (r: Result<seq<Bytes>, UnpackError>)
    requires AreDigits(b, 256)
    ensures r == Unpack(b, accept)
  {
    if |b| < 6 || b[..4] != MSB1 { return Err(BadHeader); }
    var count := Get16(b, 4);
    if count == 0 || count > MAX_SHARE_COUNT { return Err(BadCount); }
    var read := ReadShares(b, count, accept);
    match read
    case Ok(shares) => r := Ok(shares);
    case Err(e) => r := Err(Frame(e));
  }

  /** What is not packed, and what is no bundle at all; `MSB1` are the first four bytes. */
  lemma BundleErrors(shares: seq<Share>, b: Bytes, accept: Bytes -> bool)
    requires BytesInside(shares) && AreDigits(b, 256)
    ensures Pack(shares) == Err(BadShareCount) <==> !(1 <= |shares| <= 512)
    ensures Pack(shares) == Err(NotBinary) <==> 1 <= |shares| <= 512 && exists i :: 0 <= i < |shares| && HasNoBytes(shares[i])
    ensures Unpack(b, accept) == Err(BadHeader) <==> |b| < 6 || b[..4] != ['M' as int, 'S' as int, 'B' as int, '1' as int]
    ensures Unpack(b, accept) == Err(BadCount) <==>
            |b| >= 6 && b[..4] == ['M' as int, 'S' as int, 'B' as int, '1' as int] && !(1 <= b[4] + 256 * b[5] <= 512)
  {
    if |b| >= 6 { CountIs(b, 4); }
    assert AllBinary(shares) <==> forall i :: 0 <= i < |shares| ==> !HasNoBytes(shares[i]);
  }

  predicate HasNoBytes(share: Share) { ShareBinaryBytes(share) == None || ShareBinaryBytes(share) == Some([]) }

  lemma CountIs(b: Bytes, off: nat)
    requires AreDigits(b, 256) && off + 2 <= |b|
    ensures Get16(b, off) == b[off] + 256 * b[off + 1]
  {
    var s := b[off..off + 2];
    assert s[1..][1..] == [] && LeValue(s[1..]) == s[1];
  }

  /** The errors of the parts are those of the bundle. */
  lemma PartErrorsComeThrough(b: Bytes, accept: Bytes -> bool)
    requires AreDigits(b, 256) && |b| >= 6 && b[..4] == MSB1 && 1 <= Get16(b, 4) <= 512
    requires ReadFrames(b, 6, Get16(b, 4), 1_048_576, accept).Err?
    ensures Unpack(b, accept) == Err(Frame(ReadFrames(b, 6, Get16(b, 4), 1_048_576, accept).error))
  {
  }

  /**
  What the page packs is what the module unpacks, exactly when every part has at most a mebibyte and
  is a share; and whatever the module unpacks is a bundle the page would write for those parts.
  */
  lemma PackUnpack(parts: seq<Bytes>, accept: Bytes -> bool)
    requires AreBytes(parts) && 1 <= |parts| <= 512 && forall i :: 0 <= i < |parts| ==> |parts[i]| > 0
    ensures AreDigits(Packed(parts), 256)
    ensures Unpack(Packed(parts), accept) == Ok(parts) <==>
            forall i :: 0 <= i < |parts| ==> |parts[i]| <= MAX_BINCODE_SIZE && accept(parts[i])
  {
    var b := Packed(parts);
    HeaderOf(MSB1, Le16(|parts|), Layout(parts));
    Get16Of(b, 4, |parts|);
    SmallMod(|parts|, 65536);
    ReadsExactlyLayouts(b, 6, parts, MAX_BINCODE_SIZE, accept);
  }

  lemma HeaderOf(magic: Bytes, count: Bytes, rest: Bytes)
    requires |magic| == 4 && |count| == 2
    ensures var b := magic + count + rest; b[..4] == magic && b[4..6] == count && b[6..] == rest
  {}

  lemma UnpackIsPacked(b: Bytes, accept: Bytes -> bool)
    requires AreDigits(b, 256) && Unpack(b, accept).Ok?
    ensures AreBytes(Unpack(b, accept).value) && b == Packed(Unpack(b, accept).value)
  {
    var parts := Unpack(b, accept).value;
    ReadIsLayout(b, 6, Get16(b, 4), MAX_BINCODE_SIZE, accept);
    Le16OfGet(b, 4);
    assert b == b[..4] + b[4..6] + b[6..];
  }
}
