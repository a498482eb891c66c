/**
Length-prefixed byte strings, the common part of the two transfer formats between the browser and
the WebAssembly module: little-endian numbers, and parts that each follow their 32-bit length.
*/
module Frames {
  import opened Basics
  import opened Radix

  const U32: nat := 0x1_0000_0000

  // ----- little-endian numbers ---------------------------------------------------------------

  /** The low `k` bytes of a number, the lowest first. */
  function Le(n: nat, k: nat): (b: seq<int>)
    ensures |b| == k && AreDigits(b, 256)
    decreases k, n
  {
    if k == 0 then [] else [n % 256] + Le(n / 256, k - 1)
  }

  lemma ModStep(n: nat, p: nat)
    requires p > 0
    ensures n % (256 * p) == n % 256 + 256 * (n / 256 % p)
  {
    var q, r := n / 256, n % 256;
    var s, t := q / p, q % p;
    DivModLaw(q, p);
    assert n == s * (256 * p) + (t * 256 + r) by {
      MulAssoc(s, p, 256);
      assert 256 * p == p * 256;
    }
    DivModUnique(s, t * 256 + r, 256 * p);
  }

  /** What is written is read back, but for the bits that do not fit. */
  lemma {:induction false} LeValueOfLe(n: nat, k: nat)
    ensures Pow(256, k) > 0 && LeValue(Le(n, k)) == n % Pow(256, k)
    decreases k
  {
    if k > 0 {
      LeValueOfLe(n / 256, k - 1);
      ModStep(n, Pow(256, k - 1));
      assert Le(n, k)[1..] == Le(n / 256, k - 1);
    }
  }

  lemma LowByte(a: int, m: nat)
    requires 0 <= a < 256
    ensures (a + 256 * m) % 256 == a && (a + 256 * m) / 256 == m
  {}

  lemma {:induction false} LeOfLeValue(b: seq<int>)
    requires AreDigits(b, 256)
    ensures Le(LeValue(b), |b|) == b
  {
    if b != [] {
      LeOfLeValue(b[1..]);
      LowByte(b[0], LeValue(b[1..]));
    }
  }

  lemma {:induction false} LeValueBound(b: seq<int>)
    requires AreDigits(b, 256)
    ensures LeValue(b) < Pow(256, |b|)
  {
    if b != [] { LeValueBound(b[1..]); }
  }

  lemma Widths()
    ensures Pow(256, 2) == 65536 && Pow(256, 4) == U32
  {
    assert Pow(256, 1) == 256 && Pow(256, 3) == 16777216;
  }

  function Le16(n: nat): (b: seq<int>)
    ensures |b| == 2 && AreDigits(b, 256)
  {
    Le(n, 2)
  }

  function Le32(n: nat): (b: seq<int>)
    ensures |b| == 4 && AreDigits(b, 256)
  {
    Le(n, 4)
  }

  function Get16(b: seq<int>, off: nat): nat
    requires AreDigits(b, 256) && off + 2 <= |b|
  {
    LeValue(b[off..off + 2])
  }

  function Get32(b: seq<int>, off: nat): nat
    requires AreDigits(b, 256) && off + 4 <= |b|
  {
    LeValue(b[off..off + 4])
  }

  lemma Le16OfGet(b: seq<int>, off: nat)
    requires AreDigits(b, 256) && off + 2 <= |b|
    ensures Get16(b, off) < 65536 && Le16(Get16(b, off)) == b[off..off + 2]
  {
    LeValueBound(b[off..off + 2]);
    LeOfLeValue(b[off..off + 2]);
    Widths();
  }

  lemma Le32OfGet(b: seq<int>, off: nat)
    requires AreDigits(b, 256) && off + 4 <= |b|
    ensures Get32(b, off) < U32 && Le32(Get32(b, off)) == b[off..off + 4]
  {
    LeValueBound(b[off..off + 4]);
    LeOfLeValue(b[off..off + 4]);
    Widths();
  }

  lemma Get16Of(b: seq<int>, off: nat, n: nat)
    requires AreDigits(b, 256) && off + 2 <= |b| && b[off..off + 2] == Le16(n)
    ensures Get16(b, off) == n % 65536
  {
    LeValueOfLe(n, 2);
    Widths();
  }

  lemma Get32Of(b: seq<int>, off: nat, n: nat)
    requires AreDigits(b, 256) && off + 4 <= |b| && b[off..off + 4] == Le32(n)
    ensures Get32(b, off) == n % U32
  {
    LeValueOfLe(n, 4);
    Widths();
  }

  // ----- parts -----------------------------------------------------------------------------------

  type Bytes = seq<int>

  predicate AreBytes(parts: seq<Bytes>) { forall i :: 0 <= i < |parts| ==> AreDigits(parts[i], 256) }

  /** Every part after its length. */
  function Layout(parts: seq<Bytes>): (b: Bytes)
    requires AreBytes(parts)
    ensures AreDigits(b, 256)
  {
    if parts == [] then [] else Le32(|parts[0]|) + parts[0] + Layout(parts[1..])
  }

  datatype FrameError = NoLength | BadLength | ShortPart | Refused | Trailing

  /** One part: where it ends, or why it is not taken. */
  function NextFrame(b: Bytes, off: nat, max: nat, accept: Bytes -> bool): (r: Result<nat, FrameError>)
    requires AreDigits(b, 256) && off <= |b|
    ensures r.Ok? ==> off + 4 < r.value <= |b|
  {
    if off + 4 > |b| then Err(NoLength)
    else
      var len := Get32(b, off);
      if len == 0 || len > max then Err(BadLength)
      else if off + 4 + len > |b| then Err(ShortPart)
      else if !accept(b[off + 4..off + 4 + len]) then Err(Refused)
      else Ok(off + 4 + len)
  }

  /** Reads so many parts, each of 1 to `max` bytes and accepted, up to the very end of the input. */
  function ReadFrames(b: Bytes, off: nat, count: nat, max: nat, accept: Bytes -> bool): Result<seq<Bytes>, FrameError>
    requires AreDigits(b, 256) && off <= |b|
    decreases count
  {
    if count == 0 then if off == |b| then Ok([]) else Err(Trailing)
    else match NextFrame(b, off, max, accept)
      case Err(e) => Err(e)
      case Ok(end) => Onto([b[off + 4..end]], ReadFrames(b, end, count - 1, max, accept))
  }

  /** The parts read so far, before what is still to be read. */
  function Onto(done: seq<Bytes>, r: Result<seq<Bytes>, FrameError>): Result<seq<Bytes>, FrameError> {
    match r case Ok(rest) => Ok(done + rest) case Err(e) => Err(e)
  }

  lemma OntoNone(r: Result<seq<Bytes>, FrameError>)
    ensures Onto([], r) == r
  {
    if r.Ok? { assert [] + r.value == r.value; }
  }

  /** A loop that has read some parts and reads one more. */
  lemma ReadMore(done: seq<Bytes>, b: Bytes, off: nat, end: nat, count: nat, max: nat, accept: Bytes -> bool)
    requires AreDigits(b, 256) && off <= |b| && count > 0 && NextFrame(b, off, max, accept) == Ok(end)
    ensures Onto(done, ReadFrames(b, off, count, max, accept)) ==
            Onto(done + [b[off + 4..end]], ReadFrames(b, end, count - 1, max, accept))
  {
    var part, r := b[off + 4..end], ReadFrames(b, end, count - 1, max, accept);
    if r.Ok? { assert done + ([part] + r.value) == done + [part] + r.value; }
  }

  /** Why a part is not taken, in the order of the tests. */
  lemma PartErrors(b: Bytes, off: nat, max: nat, accept: Bytes -> bool)
    requires AreDigits(b, 256) && off <= |b|
    ensures var r := NextFrame(b, off, max, accept);
            && (r == Err(NoLength) <==> |b| - off < 4)
            && (|b| - off >= 4 ==>
                  var len := Get32(b, off);
                  && (r == Err(BadLength) <==> !(1 <= len <= max))
                  && (r == Err(ShortPart) <==> 1 <= len <= max && |b| - off - 4 < len)
                  && (1 <= len <= max && |b| - off - 4 >= len ==>
                        && (r == Err(Refused) <==> !accept(b[off + 4..off + 4 + len]))
                        && (r.Ok? ==> r.value == off + 4 + len)))
  {
  }

  /** After parts that are taken, what is wrong with the next part is what is wrong with the input; bytes left over are wrong too. */
  lemma ErrorsComeThrough(parts: seq<Bytes>, rest: Bytes, b: Bytes, off: nat, count: nat, max: nat, accept: Bytes -> bool)
    requires Fitting(parts, |parts|, max, accept) && max < U32 && AreDigits(b, 256) && off <= |b| && b[off..] == Layout(parts) + rest
    requires count >= |parts|
    ensures off + |Layout(parts)| <= |b|
    ensures count == |parts| && rest != [] ==> ReadFrames(b, off, count, max, accept) == Err(Trailing)
    ensures count > |parts| ==>
              var next := NextFrame(b, off + |Layout(parts)|, max, accept);
              next.Err? ==> ReadFrames(b, off, count, max, accept) == Err(next.error)
  {
    PartsArePassed(parts, rest, b, off, off + |Layout(parts)|, count, max, accept);
  }

  /** Where the parts end the reader goes on with the rest. */
  lemma {:induction false} PartsArePassed(
    parts: seq<Bytes>, rest: Bytes, b: Bytes, off: nat, at: nat, count: nat, max: nat, accept: Bytes -> bool)
    requires Fitting(parts, |parts|, max, accept) && max < U32 && AreDigits(b, 256) && off <= |b| && b[off..] == Layout(parts) + rest
    requires count >= |parts| && at == off + |Layout(parts)|
    ensures at <= |b| && b[at..] == rest
    ensures ReadFrames(b, at, count - |parts|, max, accept).Err? ==>
              ReadFrames(b, off, count, max, accept) == ReadFrames(b, at, count - |parts|, max, accept)
    decreases |parts|
  {
    if parts == [] {
      assert b[off..] == rest;
    } else {
      var part, more := parts[0], Layout(parts[1..]);
      var end := off + 4 + |part|;
      assert b[off..] == Le32(|part|) + part + (more + rest) by { Regroup(Le32(|part|) + part, more, rest); }
      LayoutIsFrame(b, off, part, more + rest, max, accept);
      PartsArePassed(parts[1..], rest, b, end, at, count - 1, max, accept);
      ErrorComesThrough(b, off, end, count, max, accept);
    }
  }

  /** What is wrong after a part that is taken is wrong with the whole. */
  lemma ErrorComesThrough(b: Bytes, off: nat, end: nat, count: nat, max: nat, accept: Bytes -> bool)
    requires AreDigits(b, 256) && off <= |b| && count > 0 && NextFrame(b, off, max, accept) == Ok(end)
    ensures ReadFrames(b, end, count - 1, max, accept).Err? ==>
              ReadFrames(b, off, count, max, accept) == ReadFrames(b, end, count - 1, max, accept)
  {
  }

  /** What a reader may return: that many parts, each of a fitting length and accepted. */
  ghost predicate Fitting(parts: seq<Bytes>, count: nat, max: nat, accept: Bytes -> bool) {
    && |parts| == count && AreBytes(parts)
    && forall i :: 0 <= i < |parts| ==> 1 <= |parts[i]| <= max && accept(parts[i])
  }

  lemma FrameIsLayout(b: Bytes, off: nat, max: nat, accept: Bytes -> bool)
    requires AreDigits(b, 256) && off <= |b| && NextFrame(b, off, max, accept).Ok?
    ensures var end := NextFrame(b, off, max, accept).value;
            var part := b[off + 4..end];
            && 1 <= |part| <= max && accept(part) && AreDigits(part, 256)
            && b[off..] == Le32(|part|) + part + b[end..]
  {
    Le32OfGet(b, off);
    SplitAt(b, off, off + 4, NextFrame(b, off, max, accept).value);
  }

  lemma LayoutIsFrame(b: Bytes, off: nat, part: Bytes, rest: Bytes, max: nat, accept: Bytes -> bool)
    requires AreDigits(b, 256) && off <= |b| && b[off..] == Le32(|part|) + part + rest
    requires 1 <= |part| <= max < U32 && accept(part)
    ensures var end := off + 4 + |part|;
            NextFrame(b, off, max, accept) == Ok(end) && b[off + 4..end] == part && b[end..] == rest
  {
    SlicesOf(b, off, Le32(|part|), part, rest);
    Get32Of(b, off, |part|);
    SmallMod(|part|, U32);
  }

  lemma SmallMod(n: nat, m: nat)
    requires n < m
    ensures n % m == n
  {}

  lemma SplitAt(b: Bytes, i: nat, j: nat, k: nat)
    requires i <= j <= k <= |b|
    ensures b[i..] == b[i..j] + b[j..k] + b[k..]
  {}

  lemma SlicesOf(b: Bytes, i: nat, x: Bytes, y: Bytes, z: Bytes)
    requires i <= |b| && b[i..] == x + y + z
    ensures |b| == i + |x| + |y| + |z|
    ensures b[i..i + |x|] == x && b[i + |x|..i + |x| + |y|] == y && b[i + |x| + |y|..] == z
  {
    var t := b[i..];
    assert b[i..i + |x|] == t[..|x|] && b[i + |x|..i + |x| + |y|] == t[|x|..|x| + |y|] && b[i + |x| + |y|..] == t[|x| + |y|..];
  }

  /** Whatever is read is the layout of what was there: no byte is skipped, none is read twice. */
  lemma {:induction false} ReadIsLayout(b: Bytes, off: nat, count: nat, max: nat, accept: Bytes -> bool)
    requires AreDigits(b, 256) && off <= |b|
    ensures var r := ReadFrames(b, off, count, max, accept);
            r.Ok? ==> Fitting(r.value, count, max, accept) && b[off..] == Layout(r.value)
    decreases count
  {
    var r := ReadFrames(b, off, count, max, accept);
    if r.Ok? && count > 0 {
      var end := NextFrame(b, off, max, accept).value;
      ReadIsLayout(b, end, count - 1, max, accept);
      FrameIsLayout(b, off, max, accept);
      assert r.value[1..] == ReadFrames(b, end, count - 1, max, accept).value;
    }
  }

  lemma ReadOneMore(b: Bytes, off: nat, end: nat, parts: seq<Bytes>, max: nat, accept: Bytes -> bool)
    requires AreDigits(b, 256) && off <= |b| && NextFrame(b, off, max, accept) == Ok(end)
    requires parts != [] && b[off + 4..end] == parts[0] && ReadFrames(b, end, |parts| - 1, max, accept) == Ok(parts[1..])
    ensures ReadFrames(b, off, |parts|, max, accept) == Ok(parts)
  {
    assert parts == [parts[0]] + parts[1..];
  }

  /** Every layout of fitting parts is read back. */
  lemma {:induction false} LayoutIsRead(b: Bytes, off: nat, parts: seq<Bytes>, max: nat, accept: Bytes -> bool)
    requires AreDigits(b, 256) && off <= |b| && max < U32
    requires Fitting(parts, |parts|, max, accept) && b[off..] == Layout(parts)
    ensures ReadFrames(b, off, |parts|, max, accept) == Ok(parts)
    decreases |parts|
  {
    if parts != [] {
      var end := off + 4 + |parts[0]|;
      LayoutIsFrame(b, off, parts[0], Layout(parts[1..]), max, accept);
      LayoutIsRead(b, end, parts[1..], max, accept);
      ReadOneMore(b, off, end, parts, max, accept);
    }
  }

  /** The reader accepts exactly the layouts of fitting parts, and returns those parts. */
  lemma ReadsExactlyLayouts(b: Bytes, off: nat, parts: seq<Bytes>, max: nat, accept: Bytes -> bool)
    requires AreDigits(b, 256) && off <= |b| && max < U32
    ensures ReadFrames(b, off, |parts|, max, accept) == Ok(parts) <==>
            Fitting(parts, |parts|, max, accept) && b[off..] == Layout(parts)
  {
    ReadIsLayout(b, off, |parts|, max, accept);
    if Fitting(parts, |parts|, max, accept) && b[off..] == Layout(parts) {
      LayoutIsRead(b, off, parts, max, accept);
    }
  }
}
