/**
Decimal text as Rust prints it (`format!`) and reads it (`str::parse`): the
reader accepts leading zeros and a leading `+`, the printer writes neither.
*/
module Decimal {
  import opened Basics

  const I64_MIN: int := -0x8000_0000_0000_0000
  const I64_MAX: int := 0x7FFF_FFFF_FFFF_FFFF
  const USIZE_MAX: int := 0xFFFF_FFFF_FFFF_FFFF
  /** No Rust slice or vector is longer than this. */
  const ISIZE_MAX: int := 0x7FFF_FFFF_FFFF_FFFF

  const PLUS: byte := 43
  const MINUS: byte := 45
  const ZERO: byte := 48
  const NINE: byte := 57

  predicate IsDigit(b: byte) { ZERO <= b <= NINE }

  predicate AllDigits(s: seq<byte>) { forall i :: 0 <= i < |s| ==> IsDigit(s[i]) }

  predicate IsI64(i: int) { I64_MIN <= i <= I64_MAX }

  function DigitsValue(s: seq<byte>): nat
    requires AllDigits(s)
  {
    if s == [] then 0 else DigitsValue(s[..|s| - 1]) * 10 + (s[|s| - 1] - ZERO)
  }

  function PrintNat(n: nat): (s: seq<byte>)
    ensures s != [] && AllDigits(s)
  {
    if n < 10 then [ZERO + n] else PrintNat(n / 10) + [ZERO + n % 10]
  }

  function PrintInt(i: int): seq<byte> {
    if i < 0 then [MINUS] + PrintNat(-i) else PrintNat(i)
  }

  /** `str::parse::<i64>`. */
  function ParseI64(s: seq<byte>): Option<int> {
    if s == [] then None
    else
      var digits := if s[0] == PLUS || s[0] == MINUS then s[1..] else s;
      if digits == [] || !AllDigits(digits) then None
      else
        var n: int := DigitsValue(digits);
        var i := if s[0] == MINUS then -n else n;
        if IsI64(i) then Some(i) else None
  }

  /** `str::parse::<usize>` on a 64-bit target: a minus sign is never accepted. */
  function ParseUsize(s: seq<byte>): Option<nat> {
    if s == [] then None
    else
      var digits := if s[0] == PLUS then s[1..] else s;
      if digits == [] || !AllDigits(digits) || DigitsValue(digits) > USIZE_MAX then None
      else Some(DigitsValue(digits))
  }

  lemma {:induction false} DigitsValueOfPrint(n: nat)
    ensures DigitsValue(PrintNat(n)) == n
  {
    if n >= 10 {
      DigitsValueOfPrint(n / 10);
      var s := PrintNat(n);
      assert s[..|s| - 1] == PrintNat(n / 10);
    }
  }

  lemma ParsePrintInt(i: int)
    requires IsI64(i)
    ensures ParseI64(PrintInt(i)) == Some(i)
  {
    DigitsValueOfPrint(if i < 0 then -i else i);
    if i < 0 {
      assert PrintInt(i)[1..] == PrintNat(-i);
    } else {
      assert IsDigit(PrintNat(i)[0]);
    }
  }

  lemma ParsePrintUsize(n: nat)
    requires n <= USIZE_MAX
    ensures ParseUsize(PrintNat(n)) == Some(n)
  {
    DigitsValueOfPrint(n);
    assert IsDigit(PrintNat(n)[0]);
  }

  /** No digit string with the same value is shorter than the printed one. */
  lemma {:induction false} PrintIsShortest(s: seq<byte>)
    requires s != [] && AllDigits(s)
    ensures |PrintNat(DigitsValue(s))| <= |s|
  {
    var init := s[..|s| - 1];
    if init != [] {
      PrintIsShortest(init);
      var n := DigitsValue(s);
      assert n / 10 == DigitsValue(init);
    }
  }
}
