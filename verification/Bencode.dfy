/**
The bencode codec of the BitTorrent bridge (crates/miasma-bridge/src/bencode.rs),
after the "bencoding" section of BEP 3.

A dictionary is a `BTreeMap` in the source: here it is its list of entries in
strictly increasing key order, with an insert that overwrites.
*/
module Bencode {
  import opened Basics
  import opened Decimal

  datatype Value =
    | Int(i: int)
    | Bytes(b: seq<byte>)
    | List(items: seq<Value>)
    | Dict(entries: seq<Entry>)

  datatype Entry = Entry(key: seq<byte>, val: Value)

  /** One constructor per error message of the source, and one for the length that overflows
      `usize` when it is added to the position of the string: the source panics there. */
  datatype Error =
    | DepthExceeded
    | EmptyInput
    | UnexpectedByte(c: byte)
    | UnterminatedInteger
    | BadInteger
    | MissingColon
    | BadLength
    | LengthOverflow
    | StringTooShort
    | UnterminatedList
    | UnterminatedDict

  type Decoded = Result<(Value, seq<byte>), Error>

  const MAX_DEPTH: nat := 64

  const LETTER_I: byte := 105
  const LETTER_L: byte := 108
  const LETTER_D: byte := 100
  const LETTER_E: byte := 101
  const COLON: byte := 58

  // ----- what the Rust types guarantee of a value ---------------------------

  predicate KeysSorted(es: seq<Entry>) {
    forall i, j :: 0 <= i < j < |es| ==> LexLess(es[i].key, es[j].key)
  }

  /** The values the Rust type can hold: `i64` integers, no vector longer than `isize::MAX`,
      and dictionaries whose keys are sorted and distinct. */
  ghost predicate WellFormed(v: Value) {
    match v
    case Int(i) => IsI64(i)
    case Bytes(b) => |b| <= ISIZE_MAX
    case List(items) => forall x :: x in items ==> WellFormed(x)
    case Dict(es) => KeysSorted(es) && forall e :: e in es ==> |e.key| <= ISIZE_MAX && WellFormed(e.val)
  }

  /** Nesting height: what the depth budget is spent on. */
  ghost function Height(v: Value): nat
    decreases v, 0
  {
    match v
    case Int(_) => 1
    case Bytes(_) => 1
    case List(items) => 1 + ItemsHeight(items)
    case Dict(es) => 1 + EntriesHeight(es)
  }

  ghost function ItemsHeight(items: seq<Value>): nat
    decreases items, 1
  {
    if items == [] then 0 else Max(Height(items[0]), ItemsHeight(items[1..]))
  }

  ghost function EntriesHeight(es: seq<Entry>): nat
    decreases es, 1
  {
    if es == [] then 0 else Max(Height(es[0].val), EntriesHeight(es[1..]))
  }

  function Max(a: int, b: int): int { if a < b then b else a }

  // ----- encode ------------------------------------------------------------

  function EncodeStr(b: seq<byte>): seq<byte> { PrintNat(|b|) + [COLON] + b }

  function Encode(v: Value): seq<byte>
    decreases v, 0
  {
    match v
    case Int(i) => [LETTER_I] + PrintInt(i) + [LETTER_E]
    case Bytes(b) => EncodeStr(b)
    case List(items) => [LETTER_L] + EncodeItems(items) + [LETTER_E]
    case Dict(es) => [LETTER_D] + EncodeEntries(es) + [LETTER_E]
  }

  function EncodeItems(items: seq<Value>): seq<byte>
    decreases items, 1
  {
    if items == [] then [] else Encode(items[0]) + EncodeItems(items[1..])
  }

  function EncodeEntries(es: seq<Entry>): seq<byte>
    decreases es, 1
  {
    if es == [] then [] else EncodeStr(es[0].key) + Encode(es[0].val) + EncodeEntries(es[1..])
  }

  // ----- decode ------------------------------------------------------------

  /** `BTreeMap::insert`. */
  function Insert(es: seq<Entry>, key: seq<byte>, val: Value): seq<Entry> {
    if es == [] then [Entry(key, val)]
    else if es[0].key == key then [Entry(key, val)] + es[1..]
    else if LexLess(key, es[0].key) then [Entry(key, val)] + es
    else [es[0]] + Insert(es[1..], key, val)
  }

  /** `BTreeMap::get`. */
  function Get(es: seq<Entry>, key: seq<byte>): Option<Value> {
    if es == [] then None
    else if es[0].key == key then Some(es[0].val)
    else Get(es[1..], key)
  }

  /** Index of the first `b` in `data`, or `|data|`. */
  function Position(data: seq<byte>, b: byte): (p: nat)
    ensures p <= |data|
    ensures p < |data| ==> data[p] == b
    ensures forall k :: 0 <= k < p ==> data[k] != b
  {
    if data == [] || data[0] == b then 0
    else
      var p := Position(data[1..], b);
      assert forall k :: 0 < k < p + 1 ==> data[k] == data[1..][k - 1];
      p + 1
  }

  function DecodeInt(data: seq<byte>): (r: Decoded)
    ensures r.Ok? ==> |r.value.1| < |data|
  {
    var end := Position(data, LETTER_E);
    if end == |data| then Err(UnterminatedInteger)
    else match ParseI64(data[..end])
      case None => Err(BadInteger)
      case Some(i) => Ok((Int(i), data[end + 1..]))
  }

  function DecodeBytes(data: seq<byte>): (r: Decoded)
    ensures r.Ok? ==> r.value.0.Bytes? && |r.value.1| < |data|
  {
    var colon := Position(data, COLON);
    if colon == |data| then Err(MissingColon)
    else match ParseUsize(data[..colon])
      case None => Err(BadLength)
      case Some(len) =>
        var start := colon + 1;
        if start + len > USIZE_MAX then Err(LengthOverflow)
        else if start + len > |data| then Err(StringTooShort)
        else Ok((Bytes(data[start..start + len]), data[start + len..]))
  }

  /** What reads one nested value: `decode_inner` with the depth budget that is left. */
  type Reader = seq<byte> -> Decoded

  ghost predicate Progress(read: Reader) {
    forall d :: read(d).Ok? ==> |read(d).value.1| < |d|
  }

  /** The loop of `decode_list`, with the items read so far. */
  function DecodeList(rest: seq<byte>, read: Reader, items: seq<Value>): (r: Decoded)
    requires Progress(read)
    ensures r.Ok? ==> |r.value.1| < |rest|
    decreases |rest|
  {
    if rest == [] then Err(UnterminatedList)
    else if rest[0] == LETTER_E then Ok((List(items), rest[1..]))
    else
      var v := read(rest);
      if v.Err? then v else DecodeList(v.value.1, read, items + [v.value.0])
  }

  /** The loop of `decode_dict`, with the map built so far. */
  function DecodeDict(rest: seq<byte>, read: Reader, es: seq<Entry>): (r: Decoded)
    requires Progress(read)
    ensures r.Ok? ==> |r.value.1| < |rest|
    decreases |rest|
  {
    if rest == [] then Err(UnterminatedDict)
    else if rest[0] == LETTER_E then Ok((Dict(es), rest[1..]))
    else
      var k := DecodeBytes(rest);
      if k.Err? then k
      else
        var v := read(k.value.1);
        if v.Err? then v else DecodeDict(v.value.1, read, Insert(es, k.value.0.b, v.value.0))
  }

  function DecodeInner(data: seq<byte>, depth: nat): (r: Decoded)
    ensures r.Ok? ==> |r.value.1| < |data|
    decreases depth, 0, |data|
  {
    if depth == 0 then Err(DepthExceeded)
    else if data == [] then Err(EmptyInput)
    else if data[0] == LETTER_I then DecodeInt(data[1..])
    else if data[0] == LETTER_L then DecodeList(data[1..], ReadAt(depth - 1), [])
    else if data[0] == LETTER_D then DecodeDict(data[1..], ReadAt(depth - 1), [])
    else if IsDigit(data[0]) then DecodeBytes(data)
    else Err(UnexpectedByte(data[0]))
  }

  function ReadAt(depth: nat): (read: Reader)
    ensures Progress(read)
    decreases depth, 1
  {
    (data: seq<byte>) => DecodeInner(data, depth)
  }

  function Decode(data: seq<byte>): Decoded { DecodeInner(data, MAX_DEPTH) }
}
