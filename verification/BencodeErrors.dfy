/** The spelling of the format, which numbers are accepted, and which error stands for which defect. */
module BencodeErrors {
  import opened Basics
  import Radix
  import opened Decimal
  import opened Bencode
  import opened BencodeLaws

  // ----- numbers ------------------------------------------------------------------------------

  ghost function DigitValues(s: seq<byte>): (d: seq<int>)
    requires AllDigits(s)
    ensures |d| == |s| && Radix.AreDigits(d, 10)
  {
    seq(|s|, i requires 0 <= i < |s| => s[i] - 48)
  }

  /** Digits are read in base ten, the most significant first. */
  lemma {:induction false} DigitsAreDecimal(s: seq<byte>)
    requires AllDigits(s)
    ensures DigitsValue(s) == Radix.Num(DigitValues(s), 10)
  {
    if s != [] {
      DigitsAreDecimal(s[..|s| - 1]);
      assert DigitValues(s)[..|s| - 1] == DigitValues(s[..|s| - 1]);
    }
  }

  /** The text is a sign, or none, and the digits of the number without it. */
  ghost predicate IsSpelled(s: seq<byte>, i: int) {
    exists d: seq<byte> :: d != [] && AllDigits(d) &&
      ((s == d && DigitsValue(d) == i) || (s == [43] + d && DigitsValue(d) == i) || (s == [45] + d && DigitsValue(d) == -i))
  }

  /** Exactly the spellings of 64-bit numbers are accepted: leading zeros and a plus sign too. */
  lemma ParsesExactly(s: seq<byte>, i: int)
    ensures ParseI64(s) == Some(i) <==> IsSpelled(s, i) && -0x8000_0000_0000_0000 <= i <= 0x7FFF_FFFF_FFFF_FFFF
  {
    if IsSpelled(s, i) {
      var d: seq<byte> :| d != [] && AllDigits(d) &&
        ((s == d && DigitsValue(d) == i) || (s == [43] + d && DigitsValue(d) == i) || (s == [45] + d && DigitsValue(d) == -i));
      assert IsDigit(d[0]);
      if s == d { assert s[0] == d[0]; } else { assert s[1..] == d; }
    }
    if ParseI64(s) == Some(i) {
      if s[0] == PLUS || s[0] == MINUS { assert s == [s[0]] + s[1..]; }
    }
  }

  /** A length is spelled without a minus sign. */
  lemma ParsesLengths(s: seq<byte>, n: nat)
    ensures ParseUsize(s) == Some(n) <==>
            && n <= 0xFFFF_FFFF_FFFF_FFFF
            && exists d: seq<byte> :: d != [] && AllDigits(d) && (s == d || s == [43] + d) && DigitsValue(d) == n
  {
    if d: seq<byte> :| d != [] && AllDigits(d) && (s == d || s == [43] + d) && DigitsValue(d) == n {
      assert IsDigit(d[0]);
      if s == d { assert s[0] == d[0]; } else { assert s[1..] == d; }
    }
    if ParseUsize(s) == Some(n) {
      if s[0] == PLUS { assert s == [s[0]] + s[1..]; }
    }
  }

  // ----- the spelling --------------------------------------------------------------------------

  /** `i…e`, a length and a colon before a string, `l…e` and `d…e`; and the depth that is allowed. */
  lemma FormatIs(i: int, b: seq<byte>, items: seq<Value>, es: seq<Entry>, data: seq<byte>)
    ensures Encode(Int(i)) == ['i' as int] + PrintInt(i) + ['e' as int]
    ensures Encode(Bytes(b)) == PrintNat(|b|) + [':' as int] + b
    ensures Encode(List(items)) == ['l' as int] + EncodeItems(items) + ['e' as int]
    ensures Encode(Dict(es)) == ['d' as int] + EncodeEntries(es) + ['e' as int]
    ensures PrintInt(i) == if i < 0 then ['-' as int] + PrintNat(-i) else PrintNat(i)
    ensures Decode(data) == DecodeInner(data, 64)
  {
  }

  // ----- errors of the leaves ----------------------------------------------------------------------

  /** The bytes up to the first `b`. */
  lemma PositionFinds(data: seq<byte>, b: byte)
    ensures Position(data, b) == |data| <==> b !in data
  {
    if Position(data, b) < |data| { assert data[Position(data, b)] in data; }
  }

  /** An integer ends with `e`, and is one that 64 bits can hold. */
  lemma IntegerErrors(data: seq<byte>)
    ensures DecodeInt(data) == Err(UnterminatedInteger) <==> LETTER_E !in data
    ensures DecodeInt(data) == Err(BadInteger) <==> LETTER_E in data && ParseI64(data[..Position(data, LETTER_E)]).None?
    ensures DecodeInt(data).Err? ==> DecodeInt(data).error == UnterminatedInteger || DecodeInt(data).error == BadInteger
  {
    PositionFinds(data, LETTER_E);
  }

  /** A string has a length, a colon, and as many bytes as the length says. */
  lemma StringErrors(data: seq<byte>)
    ensures DecodeBytes(data) == Err(MissingColon) <==> COLON !in data
    ensures var p := Position(data, COLON);
            COLON in data ==>
              && (DecodeBytes(data) == Err(BadLength) <==> ParseUsize(data[..p]).None?)
              && (ParseUsize(data[..p]).Some? ==>
                    var n := ParseUsize(data[..p]).value;
                    && (DecodeBytes(data) == Err(LengthOverflow) <==> p + 1 + n > 0xFFFF_FFFF_FFFF_FFFF)
                    && (DecodeBytes(data) == Err(StringTooShort) <==> p + 1 + n <= 0xFFFF_FFFF_FFFF_FFFF && p + 1 + n > |data|)
                    && (DecodeBytes(data).Ok? <==> p + 1 + n <= 0xFFFF_FFFF_FFFF_FFFF && p + 1 + n <= |data|))
  {
    PositionFinds(data, COLON);
  }

  /** What is refused for its first byte, for being empty, or for its depth. */
  lemma FirstByteErrors(data: seq<byte>, depth: nat)
    ensures depth == 0 ==> DecodeInner(data, depth) == Err(DepthExceeded)
    ensures depth > 0 && data == [] ==> DecodeInner(data, depth) == Err(EmptyInput)
    ensures depth > 0 && data != [] && data[0] as char !in "ild0123456789" ==> DecodeInner(data, depth) == Err(UnexpectedByte(data[0]))
    ensures depth > 0 && data != [] && data[0] == 'i' as int ==> DecodeInner(data, depth) == DecodeInt(data[1..])
    ensures depth > 0 && data != [] && '0' as int <= data[0] <= '9' as int ==> DecodeInner(data, depth) == DecodeBytes(data)
  {
  }

  // ----- errors come through -----------------------------------------------------------------------

  /** The read values of a list or dictionary that goes on with something else. */
  ghost function ItemsThen(items: seq<Value>, rest: seq<byte>): seq<byte> {
    if items == [] then rest else Onto(items[0], ItemsThen(items[1..], rest))
  }

  lemma {:induction false} ItemsThenIs(items: seq<Value>, rest: seq<byte>)
    ensures ItemsThen(items, rest) == EncodeItems(items) + rest
  {
    if items == [] {
      assert [] + rest == rest;
    } else {
      ItemsThenIs(items[1..], rest);
      OntoIsAppend(items[0], ItemsThen(items[1..], rest));
      Regroup(Encode(items[0]), EncodeItems(items[1..]), rest);
    }
  }

  lemma {:induction false} ListGoesOn(items: seq<Value>, rest: seq<byte>, depth: nat, done: seq<Value>)
    requires forall x :: x in items ==> ReadsBack(x, depth) && Height(x) <= depth
    ensures DecodeList(ItemsThen(items, rest), ReadAt(depth), done) == DecodeList(rest, ReadAt(depth), done + items)
    decreases |items|
  {
    if items == [] {
      assert done + [] == done;
    } else {
      var more := ItemsThen(items[1..], rest);
      OntoHead(items[0], more);
      assert items[0] in items;
      assert ReadAt(depth)(Onto(items[0], more)) == Reading(items[0], more, depth);
      ListGoesOn(items[1..], rest, depth, done + [items[0]]);
      MoveOne(done, items);
    }
  }

  lemma AllReadBack(items: seq<Value>, depth: nat)
    requires forall x :: x in items ==> WellFormed(x)
    ensures forall x :: x in items ==> ReadsBack(x, depth)
  {
    forall x | x in items ensures ReadsBack(x, depth) {
      forall t ensures DecodeInner(Onto(x, t), depth) == Reading(x, t, depth) { DecodeOnto(x, t, depth); }
    }
  }

  /** A list is unterminated if it stops after its items; what is wrong with the next item is what is wrong with the list. */
  lemma ListErrors(items: seq<Value>, rest: seq<byte>, depth: nat)
    requires depth > 0 && forall x :: x in items ==> WellFormed(x) && Height(x) < depth
    ensures var r := DecodeInner([LETTER_L] + (EncodeItems(items) + rest), depth);
            && (rest == [] ==> r == Err(UnterminatedList))
            && (rest != [] && rest[0] != LETTER_E && DecodeInner(rest, depth - 1).Err? ==> r == Err(DecodeInner(rest, depth - 1).error))
  {
    var data := [LETTER_L] + (EncodeItems(items) + rest);
    assert data == [LETTER_L] + ItemsThen(items, rest) by { ItemsThenIs(items, rest); }
    ListEnds(data, items, rest, depth);
  }

  lemma ListEnds(data: seq<byte>, items: seq<Value>, rest: seq<byte>, depth: nat)
    requires depth > 0 && forall x :: x in items ==> WellFormed(x) && Height(x) < depth
    requires data == [LETTER_L] + ItemsThen(items, rest)
    ensures rest == [] ==> DecodeInner(data, depth) == Err(UnterminatedList)
    ensures rest != [] && rest[0] != LETTER_E && DecodeInner(rest, depth - 1).Err? ==>
              DecodeInner(data, depth) == Err(DecodeInner(rest, depth - 1).error)
  {
    if rest == [] {
      ListComesTo(data, items, rest, depth, Err(UnterminatedList));
    } else if rest[0] != LETTER_E && DecodeInner(rest, depth - 1).Err? {
      ListComesTo(data, items, rest, depth, Err(DecodeInner(rest, depth - 1).error));
    }
  }

  lemma ListComesTo(data: seq<byte>, items: seq<Value>, rest: seq<byte>, depth: nat, r: Decoded)
    requires depth > 0 && forall x :: x in items ==> WellFormed(x) && Height(x) < depth
    requires data == [LETTER_L] + ItemsThen(items, rest) && DecodeList(rest, ReadAt(depth - 1), [] + items) == r
    ensures DecodeInner(data, depth) == r
  {
    AllReadBack(items, depth - 1);
    ListGoesOn(items, rest, depth - 1, []);
    InList(data, ItemsThen(items, rest), depth, r);
  }

  lemma InList(data: seq<byte>, body: seq<byte>, depth: nat, r: Decoded)
    requires depth > 0 && data == [LETTER_L] + body && DecodeList(body, ReadAt(depth - 1), []) == r
    ensures DecodeInner(data, depth) == r
  {
    assert data[1..] == body;
  }

  ghost function EntriesThen(es: seq<Entry>, rest: seq<byte>): seq<byte> {
    if es == [] then rest else EncodeStr(es[0].key) + Onto(es[0].val, EntriesThen(es[1..], rest))
  }

  lemma {:induction false} EntriesThenIs(es: seq<Entry>, rest: seq<byte>)
    ensures EntriesThen(es, rest) == EncodeEntries(es) + rest
  {
    if es == [] {
      assert [] + rest == rest;
    } else {
      EntriesThenIs(es[1..], rest);
      OntoIsAppend(es[0].val, EntriesThen(es[1..], rest));
      Regroup(Encode(es[0].val), EncodeEntries(es[1..]), rest);
      Regroup(EncodeStr(es[0].key), Encode(es[0].val), EncodeEntries(es[1..]));
      Regroup(EncodeStr(es[0].key), Encode(es[0].val) + EncodeEntries(es[1..]), rest);
    }
  }

  lemma {:induction false} DictGoesOn(es: seq<Entry>, rest: seq<byte>, depth: nat, done: seq<Entry>)
    requires forall e :: e in es ==> |e.key| <= ISIZE_MAX && ReadsBack(e.val, depth) && Height(e.val) <= depth
    ensures DecodeDict(EntriesThen(es, rest), ReadAt(depth), done) == DecodeDict(rest, ReadAt(depth), InsertAll(done, es))
    decreases |es|
  {
    if es != [] {
      var more := EntriesThen(es[1..], rest);
      assert es[0] in es;
      assert ReadAt(depth)(Onto(es[0].val, more)) == Reading(es[0].val, more, depth);
      KeyIsRead(es, rest);
      DictGoesOn(es[1..], rest, depth, Insert(done, es[0].key, es[0].val));
    }
  }

  lemma KeyIsRead(es: seq<Entry>, rest: seq<byte>)
    requires es != [] && |es[0].key| <= ISIZE_MAX
    ensures var data := EntriesThen(es, rest);
            && data != [] && data[0] != LETTER_E
            && DecodeBytes(data) == Ok((Bytes(es[0].key), Onto(es[0].val, EntriesThen(es[1..], rest))))
  {
    assert IsDigit(PrintNat(|es[0].key|)[0]);
    DecodeBytesOfPrint(es[0].key, Onto(es[0].val, EntriesThen(es[1..], rest)));
  }

  /**
  A dictionary is unterminated if it stops after its entries; what is wrong with the next key, or else
  with the next value, is what is wrong with the dictionary.
  */
  lemma DictErrors(es: seq<Entry>, rest: seq<byte>, depth: nat)
    requires depth > 0 && forall e :: e in es ==> |e.key| <= ISIZE_MAX && WellFormed(e.val) && Height(e.val) < depth
    ensures var r := DecodeInner([LETTER_D] + (EncodeEntries(es) + rest), depth);
            var k := DecodeBytes(rest);
            && (rest == [] ==> r == Err(UnterminatedDict))
            && (rest != [] && rest[0] != LETTER_E && k.Err? ==> r == Err(k.error))
            && (rest != [] && rest[0] != LETTER_E && k.Ok? && DecodeInner(k.value.1, depth - 1).Err? ==>
                  r == Err(DecodeInner(k.value.1, depth - 1).error))
  {
    var data := [LETTER_D] + (EncodeEntries(es) + rest);
    assert data == [LETTER_D] + EntriesThen(es, rest) by { EntriesThenIs(es, rest); }
    DictEnds(data, es, rest, depth);
  }

  lemma DictEnds(data: seq<byte>, es: seq<Entry>, rest: seq<byte>, depth: nat)
    requires depth > 0 && forall e :: e in es ==> |e.key| <= ISIZE_MAX && WellFormed(e.val) && Height(e.val) < depth
    requires data == [LETTER_D] + EntriesThen(es, rest)
    ensures var r := DecodeInner(data, depth);
            var k := DecodeBytes(rest);
            && (rest == [] ==> r == Err(UnterminatedDict))
            && (rest != [] && rest[0] != LETTER_E && k.Err? ==> r == Err(k.error))
            && (rest != [] && rest[0] != LETTER_E && k.Ok? && DecodeInner(k.value.1, depth - 1).Err? ==>
                  r == Err(DecodeInner(k.value.1, depth - 1).error))
  {
    DictStops(rest, depth - 1, InsertAll([], es));
    DictComesTo(data, es, rest, depth, DecodeDict(rest, ReadAt(depth - 1), InsertAll([], es)));
  }

  lemma DictComesTo(data: seq<byte>, es: seq<Entry>, rest: seq<byte>, depth: nat, r: Decoded)
    requires depth > 0 && forall e :: e in es ==> |e.key| <= ISIZE_MAX && WellFormed(e.val) && Height(e.val) < depth
    requires data == [LETTER_D] + EntriesThen(es, rest) && DecodeDict(rest, ReadAt(depth - 1), InsertAll([], es)) == r
    ensures DecodeInner(data, depth) == r
  {
    AllValuesReadBack(es, depth - 1);
    DictGoesOn(es, rest, depth - 1, []);
    InDict(data, EntriesThen(es, rest), depth, r);
  }

  lemma AllValuesReadBack(es: seq<Entry>, depth: nat)
    requires forall e :: e in es ==> WellFormed(e.val)
    ensures forall e :: e in es ==> ReadsBack(e.val, depth)
  {
    forall e | e in es ensures ReadsBack(e.val, depth) {
      forall t ensures DecodeInner(Onto(e.val, t), depth) == Reading(e.val, t, depth) { DecodeOnto(e.val, t, depth); }
    }
  }

  lemma InDict(data: seq<byte>, body: seq<byte>, depth: nat, r: Decoded)
    requires depth > 0 && data == [LETTER_D] + body && DecodeDict(body, ReadAt(depth - 1), []) == r
    ensures DecodeInner(data, depth) == r
  {
    assert data[1..] == body;
  }

  lemma DictStops(rest: seq<byte>, depth: nat, es: seq<Entry>)
    ensures var r := DecodeDict(rest, ReadAt(depth), es);
            var k := DecodeBytes(rest);
            && (rest == [] ==> r == Err(UnterminatedDict))
            && (rest != [] && rest[0] != LETTER_E && k.Err? ==> r == Err(k.error))
            && (rest != [] && rest[0] != LETTER_E && k.Ok? && DecodeInner(k.value.1, depth).Err? ==> r == Err(DecodeInner(k.value.1, depth).error))
  {
  }
}
