/**
The codec in the form the source has it: `encode` appends to a buffer, `decode_list` and
`decode_dict` loop over what is left of the input. Each computes the function of `Bencode`
of the same name, whose laws are in `BencodeLaws`.
*/
module BencodeLoops {
  import opened Basics
  import opened Decimal
  import opened Bencode
  import opened BencodeLaws

  method EncodeValue(v: Value) returns (out: seq<byte>)
    ensures out == Encode(v)
    decreases v, 1
  {
    match v {
      case Int(i) =>
        out := [LETTER_I] + PrintInt(i) + [LETTER_E];
      case Bytes(b) =>
        out := PrintNat(|b|) + [COLON];
        out := out + b;
      case List(items) =>
        out := EncodeListLoop(items);
      case Dict(es) =>
        out := EncodeDictLoop(es);
    }
  }

  method EncodeListLoop(items: seq<Value>) returns (out: seq<byte>)
    ensures out == Encode(List(items))
    decreases items, 0
  {
    out := [LETTER_L];
    for i := 0 to |items|
      invariant out == [LETTER_L] + EncodeItems(items[..i])
    {
      var item := EncodeValue(items[i]);
      EncodeItemsUpTo(items, i);
      Regroup([LETTER_L], EncodeItems(items[..i]), item);
      out := out + item;
    }
    assert items[..|items|] == items;
    out := out + [LETTER_E];
  }

  method EncodeDictLoop(es: seq<Entry>) returns (out: seq<byte>)
    ensures out == Encode(Dict(es))
    decreases es, 0
  {
    out := [LETTER_D];
    for i := 0 to |es|
      invariant out == [LETTER_D] + EncodeEntries(es[..i])
    {
      var val := EncodeValue(es[i].val);
      EncodeEntriesUpTo(es, i);
      Regroup([LETTER_D], EncodeEntries(es[..i]), EncodeStr(es[i].key) + val);
      out := out + (EncodeStr(es[i].key) + val);
    }
    assert es[..|es|] == es;
    out := out + [LETTER_E];
  }

  lemma EncodeItemsUpTo(items: seq<Value>, i: nat)
    requires i < |items|
    ensures EncodeItems(items[..i + 1]) == EncodeItems(items[..i]) + Encode(items[i])
  {
    assert items[..i + 1] == items[..i] + [items[i]];
    EncodeItemsAppend(items[..i], items[i]);
  }

  lemma EncodeEntriesUpTo(es: seq<Entry>, i: nat)
    requires i < |es|
    ensures EncodeEntries(es[..i + 1]) == EncodeEntries(es[..i]) + (EncodeStr(es[i].key) + Encode(es[i].val))
  {
    assert es[..i + 1] == es[..i] + [es[i]];
    EncodeEntriesAppend(es[..i], es[i]);
  }

  lemma {:induction false} EncodeEntriesAppend(es: seq<Entry>, e: Entry)
    ensures EncodeEntries(es + [e]) == EncodeEntries(es) + (EncodeStr(e.key) + Encode(e.val))
  {
    if es == [] {
      assert es + [e] == [e] && [e][1..] == [];
    } else {
      assert (es + [e])[1..] == es[1..] + [e];
      EncodeEntriesAppend(es[1..], e);
    }
  }

  method DecodeValue(data: seq<byte>, depth: nat) returns (r: Decoded)
    ensures r == DecodeInner(data, depth)
    decreases depth, 1
  {
    if depth == 0 {
      return Err(DepthExceeded);
    }
    if data == [] {
      return Err(EmptyInput);
    }
    if data[0] == LETTER_I {
      r := DecodeInt(data[1..]);
    } else if data[0] == LETTER_L {
      r := DecodeListLoop(data[1..], depth, ReadAt(depth - 1));
    } else if data[0] == LETTER_D {
      r := DecodeDictLoop(data[1..], depth, ReadAt(depth - 1));
    } else if IsDigit(data[0]) {
      r := DecodeBytes(data);
    } else {
      r := Err(UnexpectedByte(data[0]));
    }
  }

  /** The function reads the values at a depth; the loops below need no more of it than that. */
  ghost predicate Reads(read: Reader, depth: nat) {
    Progress(read) && forall data {:trigger DecodeInner(data, depth)} :: read(data) == DecodeInner(data, depth)
  }

  method ReadValue(data: seq<byte>, depth: nat, ghost read: Reader) returns (r: Decoded)
    requires Reads(read, depth)
    ensures r == read(data)
    decreases depth, 2
  {
    r := DecodeValue(data, depth);
  }

  method DecodeListLoop(data: seq<byte>, depth: nat, ghost read: Reader) returns (r: Decoded)
    requires depth > 0 && Reads(read, depth - 1)
    ensures r == DecodeList(data, read, [])
    decreases depth, 0
  {
    var items: seq<Value> := [];
    var rest := data;
    while rest != [] && rest[0] != LETTER_E
      invariant DecodeList(data, read, []) == DecodeList(rest, read, items)
      decreases |rest|
    {
      var v := ReadValue(rest, depth - 1, read);
      if v.Err? {
        return v;
      }
      items := items + [v.value.0];
      rest := v.value.1;
    }
    if rest == [] {
      return Err(UnterminatedList);
    }
    r := Ok((List(items), rest[1..]));
  }

  lemma DictTurn(rest: seq<byte>, read: Reader, es: seq<Entry>)
    requires Progress(read) && rest != [] && rest[0] != LETTER_E
    requires DecodeBytes(rest).Ok? && read(DecodeBytes(rest).value.1).Ok?
    ensures var k := DecodeBytes(rest).value;
            var v := read(k.1).value;
            DecodeDict(rest, read, es) == DecodeDict(v.1, read, Insert(es, k.0.b, v.0))
  {}

  method DecodeDictLoop(data: seq<byte>, depth: nat, ghost read: Reader) returns (r: Decoded)
    requires depth > 0 && Reads(read, depth - 1)
    ensures r == DecodeDict(data, read, [])
    decreases depth, 0
  {
    var built: seq<Entry> := [];
    var rest := data;
    while rest != [] && rest[0] != LETTER_E
      invariant DecodeDict(data, read, []) == DecodeDict(rest, read, built)
      decreases |rest|
    {
      var k := DecodeBytes(rest);
      if k.Err? {
        return k;
      }
      var v := ReadValue(k.value.1, depth - 1, read);
      if v.Err? {
        return v;
      }
      DictTurn(rest, read, built);
      built := Insert(built, k.value.0.b, v.value.0);
      rest := v.value.1;
    }
    if rest == [] {
      return Err(UnterminatedDict);
    }
    r := Ok((Dict(built), rest[1..]));
  }
}
