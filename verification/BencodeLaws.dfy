/** Laws of the bencode codec: the round trip, its exact depth condition, and what decoding keeps. */
module BencodeLaws {
  import opened Basics
  import opened Decimal
  import opened Bencode

  // ----- reading back what was printed ----------------------------------------

  lemma PositionIs(data: seq<byte>, b: byte, p: nat)
    requires p < |data| && data[p] == b
    requires forall k :: 0 <= k < p ==> data[k] != b
    ensures Position(data, b) == p
  {}

  lemma DecodeIntOfPrint(i: int, tail: seq<byte>)
    requires IsI64(i)
    ensures DecodeInt(PrintInt(i) + [LETTER_E] + tail) == Ok((Int(i), tail))
  {
    var data := PrintInt(i) + [LETTER_E] + tail;
    PositionIs(data, LETTER_E, |PrintInt(i)|);
    assert data[..|PrintInt(i)|] == PrintInt(i);
    assert data[|PrintInt(i)| + 1..] == tail;
    ParsePrintInt(i);
  }

  lemma DecodeBytesOfPrint(b: seq<byte>, tail: seq<byte>)
    requires |b| <= ISIZE_MAX
    ensures DecodeBytes(EncodeStr(b) + tail) == Ok((Bytes(b), tail))
  {
    var digits := PrintNat(|b|);
    var data := EncodeStr(b) + tail;
    assert data == digits + ([COLON] + b + tail);
    PositionIs(data, COLON, |digits|);
    assert data[..|digits|] == digits;
    assert data[|digits| + 1..|digits| + 1 + |b|] == b;
    assert data[|digits| + 1 + |b|..] == tail;
    ParsePrintUsize(|b|);
    PrintedLengthIsShort(|b|);
  }

  /** Twenty digits are enough for every length, so a length and its colon never overflow `usize`. */
  lemma {:induction false} PrintedLengthIsShort(n: nat)
    requires n <= ISIZE_MAX
    ensures |PrintNat(n)| + 1 + n <= USIZE_MAX
  {
    PrintedLengthIsBelow(n);
  }

  lemma {:induction false} PrintedLengthIsBelow(n: nat)
    ensures |PrintNat(n)| <= n / 10 + 1
  {
    if n >= 10 { PrintedLengthIsBelow(n / 10); }
  }

  // ----- an encoding written in front of the bytes that follow it -----------------

  ghost function Onto(v: Value, tail: seq<byte>): seq<byte>
    decreases v, 0
  {
    match v
    case Int(i) => [LETTER_I] + (PrintInt(i) + [LETTER_E] + tail)
    case Bytes(b) => EncodeStr(b) + tail
    case List(items) => [LETTER_L] + ItemsOnto(items, tail)
    case Dict(es) => [LETTER_D] + EntriesOnto(es, tail)
  }

  ghost function ItemsOnto(items: seq<Value>, tail: seq<byte>): seq<byte>
    decreases items, 1
  {
    if items == [] then [LETTER_E] + tail else Onto(items[0], ItemsOnto(items[1..], tail))
  }

  ghost function EntriesOnto(es: seq<Entry>, tail: seq<byte>): seq<byte>
    decreases es, 1
  {
    if es == [] then [LETTER_E] + tail
    else EncodeStr(es[0].key) + Onto(es[0].val, EntriesOnto(es[1..], tail))
  }

  lemma {:induction false} OntoIsAppend(v: Value, tail: seq<byte>)
    ensures Onto(v, tail) == Encode(v) + tail
    decreases v, 0
  {
    match v {
      case Int(i) =>
      case Bytes(b) =>
      case List(items) => ItemsOntoIsAppend(items, tail);
      case Dict(es) => EntriesOntoIsAppend(es, tail);
    }
  }

  lemma {:induction false} ItemsOntoIsAppend(items: seq<Value>, tail: seq<byte>)
    ensures ItemsOnto(items, tail) == EncodeItems(items) + ([LETTER_E] + tail)
    decreases items, 1
  {
    if items != [] {
      ItemsOntoIsAppend(items[1..], tail);
      OntoIsAppend(items[0], ItemsOnto(items[1..], tail));
    }
  }

  lemma {:induction false} EntriesOntoIsAppend(es: seq<Entry>, tail: seq<byte>)
    ensures EntriesOnto(es, tail) == EncodeEntries(es) + ([LETTER_E] + tail)
    decreases es, 1
  {
    if es != [] {
      EntriesOntoIsAppend(es[1..], tail);
      OntoIsAppend(es[0].val, EntriesOnto(es[1..], tail));
    }
  }

  /** An encoding starts with one of the four kinds of first byte, none of which is `e`. */
  lemma OntoHead(v: Value, tail: seq<byte>)
    ensures Onto(v, tail) != []
    ensures match v
            case Int(_) => Onto(v, tail)[0] == LETTER_I
            case Bytes(b) => IsDigit(Onto(v, tail)[0])
            case List(_) => Onto(v, tail)[0] == LETTER_L
            case Dict(_) => Onto(v, tail)[0] == LETTER_D
  {
    if v.Bytes? { assert IsDigit(PrintNat(|v.b|)[0]); }
  }

  // ----- the round trip ---------------------------------------------------------

  /**
  Decoding an encoding, with any bytes after it, gives back the value and those bytes exactly
  when the value fits in the depth budget; otherwise it is refused, and refused for its depth.
  */
  lemma DecodeEncode(v: Value, tail: seq<byte>, depth: nat)
    requires WellFormed(v)
    ensures DecodeInner(Encode(v) + tail, depth) ==
            if Height(v) <= depth then Ok((v, tail)) else Err(DepthExceeded)
  {
    OntoIsAppend(v, tail);
    DecodeOnto(v, tail, depth);
  }

  /** What reading a printed value gives. */
  ghost function Reading(v: Value, tail: seq<byte>, depth: nat): Decoded {
    if Height(v) <= depth then Ok((v, tail)) else Err(DepthExceeded)
  }

  ghost predicate ReadsBack(v: Value, depth: nat) {
    forall t :: DecodeInner(Onto(v, t), depth) == Reading(v, t, depth)
  }

  lemma {:induction false} DecodeOnto(v: Value, tail: seq<byte>, depth: nat)
    requires WellFormed(v)
    ensures DecodeInner(Onto(v, tail), depth) == Reading(v, tail, depth)
    decreases v, 0
  {
    if depth > 0 {
      OntoHead(v, tail);
      match v {
        case Int(i) =>
          assert Onto(v, tail)[1..] == PrintInt(i) + [LETTER_E] + tail;
          DecodeIntOfPrint(i, tail);
        case Bytes(b) =>
          DecodeBytesOfPrint(b, tail);
        case List(items) =>
          assert Onto(v, tail)[1..] == ItemsOnto(items, tail);
          DecodeListOnto(items, tail, depth);
        case Dict(es) =>
          assert Onto(v, tail)[1..] == EntriesOnto(es, tail);
          DecodeDictOnto(es, tail, depth);
      }
    }
  }

  lemma {:induction false} DecodeListOnto(items: seq<Value>, tail: seq<byte>, depth: nat)
    requires depth > 0 && WellFormed(List(items))
    ensures DecodeList(ItemsOnto(items, tail), ReadAt(depth - 1), []) == Reading(List(items), tail, depth)
    decreases items, 1
  {
    ItemsReadBack(items, depth - 1);
    DecodeItemsOnto(items, tail, depth - 1, []);
    assert [] + items == items;
  }

  lemma {:induction false} ItemsReadBack(items: seq<Value>, depth: nat)
    requires WellFormed(List(items))
    ensures forall x :: x in items ==> ReadsBack(x, depth)
    decreases items, 0
  {
    forall x | x in items ensures ReadsBack(x, depth) {
      forall t ensures DecodeInner(Onto(x, t), depth) == Reading(x, t, depth) { DecodeOnto(x, t, depth); }
    }
  }

  lemma {:induction false} DecodeDictOnto(es: seq<Entry>, tail: seq<byte>, depth: nat)
    requires depth > 0 && WellFormed(Dict(es))
    ensures DecodeDict(EntriesOnto(es, tail), ReadAt(depth - 1), []) == Reading(Dict(es), tail, depth)
    decreases es, 1
  {
    EntriesReadBack(es, depth - 1);
    DecodeEntriesOnto(es, tail, depth - 1, []);
    InsertAllIsSame(es);
  }

  lemma {:induction false} EntriesReadBack(es: seq<Entry>, depth: nat)
    requires WellFormed(Dict(es))
    ensures forall e :: e in es ==> ReadsBack(e.val, depth)
    decreases es, 0
  {
    forall e | e in es ensures ReadsBack(e.val, depth) {
      forall t ensures DecodeInner(Onto(e.val, t), depth) == Reading(e.val, t, depth) { DecodeOnto(e.val, t, depth); }
    }
  }

  lemma {:induction false} DecodeItemsOnto(items: seq<Value>, tail: seq<byte>, depth: nat, done: seq<Value>)
    requires forall x :: x in items ==> ReadsBack(x, depth)
    ensures DecodeList(ItemsOnto(items, tail), ReadAt(depth), done) ==
            if ItemsHeight(items) <= depth then Ok((List(done + items), tail)) else Err(DepthExceeded)
    decreases items
  {
    if items == [] {
      assert ItemsOnto(items, tail)[1..] == tail && done + items == done;
    } else {
      var rest := ItemsOnto(items[1..], tail);
      OntoHead(items[0], rest);
      assert items[0] in items;
      assert ReadAt(depth)(Onto(items[0], rest)) == Reading(items[0], rest, depth);
      DecodeItemsOnto(items[1..], tail, depth, done + [items[0]]);
      MoveOne(done, items);
    }
  }

  /** The map that results from inserting printed entries one by one, in whatever order they come. */
  ghost function InsertAll(done: seq<Entry>, es: seq<Entry>): seq<Entry>
    decreases es
  {
    if es == [] then done else InsertAll(Insert(done, es[0].key, es[0].val), es[1..])
  }

  /** Entries need not be sorted or distinct to be read: the map they build is the result. */
  lemma {:induction false} DecodeEntriesOnto(es: seq<Entry>, tail: seq<byte>, depth: nat, done: seq<Entry>)
    requires forall e :: e in es ==> |e.key| <= ISIZE_MAX
    requires forall e :: e in es ==> ReadsBack(e.val, depth)
    ensures DecodeDict(EntriesOnto(es, tail), ReadAt(depth), done) ==
            if EntriesHeight(es) <= depth then Ok((Dict(InsertAll(done, es)), tail)) else Err(DepthExceeded)
    decreases es
  {
    if es == [] {
      assert EntriesOnto(es, tail)[1..] == tail;
    } else {
      var rest := EntriesOnto(es[1..], tail);
      assert es[0] in es;
      assert ReadAt(depth)(Onto(es[0].val, rest)) == Reading(es[0].val, rest, depth);
      ReadPrintedKey(es, tail);
      DecodeEntriesOnto(es[1..], tail, depth, Insert(done, es[0].key, es[0].val));
    }
  }

  lemma ReadPrintedKey(es: seq<Entry>, tail: seq<byte>)
    requires es != [] && |es[0].key| <= ISIZE_MAX
    ensures var data := EntriesOnto(es, tail);
            && data != [] && data[0] != LETTER_E
            && DecodeBytes(data) == Ok((Bytes(es[0].key), Onto(es[0].val, EntriesOnto(es[1..], tail))))
  {
    assert IsDigit(PrintNat(|es[0].key|)[0]);
    DecodeBytesOfPrint(es[0].key, Onto(es[0].val, EntriesOnto(es[1..], tail)));
  }

  lemma InsertAllIsSame(es: seq<Entry>)
    requires KeysSorted(es)
    ensures InsertAll([], es) == es
  {
    assert [] + es == es;
    InsertAllSorted([], es);
  }

  lemma {:induction false} InsertAllSorted(done: seq<Entry>, es: seq<Entry>)
    requires KeysSorted(done + es)
    ensures InsertAll(done, es) == done + es
    decreases es
  {
    if es == [] {
      assert done + es == done;
    } else {
      InsertLast(done, es);
      MoveOne(done, es);
      InsertAllSorted(done + [es[0]], es[1..]);
    }
  }

  lemma {:induction false} InsertLast(done: seq<Entry>, es: seq<Entry>)
    requires es != [] && KeysSorted(done + es)
    ensures Insert(done, es[0].key, es[0].val) == done + [es[0]]
  {
    if done != [] {
      assert (done + es)[0] == done[0] && (done + es)[|done|] == es[0];
      assert LexLess(done[0].key, es[0].key);
      LexIrreflexive(es[0].key);
      if LexLess(es[0].key, done[0].key) { LexTransitive(done[0].key, es[0].key, done[0].key); LexIrreflexive(done[0].key); }
      assert (done + es)[1..] == done[1..] + es;
      InsertLast(done[1..], es);
    }
  }

  // ----- what decoding keeps ----------------------------------------------------

  lemma {:induction false} InsertKeepsSorted(es: seq<Entry>, key: seq<byte>, val: Value)
    requires KeysSorted(es)
    ensures KeysSorted(Insert(es, key, val))
    ensures forall e :: e in Insert(es, key, val) ==> e == Entry(key, val) || e in es
    ensures EntriesHeight(Insert(es, key, val)) <= Max(Height(val), EntriesHeight(es))
  {
    var out := Insert(es, key, val);
    if es != [] {
      if es[0].key == key {
        assert out[1..] == es[1..];
      } else if LexLess(key, es[0].key) {
        assert out[1..] == es;
        forall j | 0 < j < |es| ensures LexLess(key, es[j].key) {
          LexTransitive(key, es[0].key, es[j].key);
        }
      } else {
        LexTotal(key, es[0].key);
        InsertKeepsSorted(es[1..], key, val);
        assert out[1..] == Insert(es[1..], key, val);
        forall j | 0 < j < |out| ensures LexLess(out[0].key, out[j].key) {
          assert out[j] in Insert(es[1..], key, val);
        }
        forall i, j | 0 < i < j < |out| ensures LexLess(out[i].key, out[j].key) {
          assert out[i] == out[1..][i - 1] && out[j] == out[1..][j - 1];
        }
      }
    }
  }

  lemma {:induction false} ItemsHeightAppend(items: seq<Value>, v: Value)
    ensures ItemsHeight(items + [v]) == Max(ItemsHeight(items), Height(v))
  {
    if items == [] {
      assert items + [v] == [v] && [v][1..] == [];
    } else {
      assert (items + [v])[1..] == items[1..] + [v];
      ItemsHeightAppend(items[1..], v);
    }
  }

  /** Whatever is accepted is a value of the Rust type and is nested no deeper than the budget. */
  ghost predicate Accepts(r: Decoded, depth: nat) {
    r.Ok? ==> WellFormed(r.value.0) && Height(r.value.0) <= depth
  }

  lemma {:induction false} DecodeSound(data: seq<byte>, depth: nat)
    requires |data| <= ISIZE_MAX
    ensures Accepts(DecodeInner(data, depth), depth)
    decreases depth, 1
  {
    if depth > 0 && data != [] {
      if data[0] == LETTER_L {
        ListSound(data, depth);
      } else if data[0] == LETTER_D {
        DictSound(data, depth);
      } else {
        LeavesSound(data, depth);
      }
    }
  }

  lemma {:induction false} ListSound(data: seq<byte>, depth: nat)
    requires |data| <= ISIZE_MAX && depth > 0 && data != [] && data[0] == LETTER_L
    ensures Accepts(DecodeInner(data, depth), depth)
    decreases depth, 0
  {
    ReadAtSound(depth - 1);
    DecodeListSound(data[1..], depth - 1, []);
  }

  lemma {:induction false} DictSound(data: seq<byte>, depth: nat)
    requires |data| <= ISIZE_MAX && depth > 0 && data != [] && data[0] == LETTER_D
    ensures Accepts(DecodeInner(data, depth), depth)
    decreases depth, 0
  {
    ReadAtSound(depth - 1);
    DecodeDictSound(data[1..], depth - 1, []);
  }

  lemma LeavesSound(data: seq<byte>, depth: nat)
    requires data != [] && |data| <= ISIZE_MAX && depth > 0
    ensures Accepts(DecodeInt(data[1..]), depth) && Accepts(DecodeBytes(data), depth)
  {}

  lemma {:induction false} ReadAtSound(depth: nat)
    ensures forall d: seq<byte> :: |d| <= ISIZE_MAX ==> Accepts(ReadAt(depth)(d), depth)
    decreases depth, 2
  {
    forall d: seq<byte> | |d| <= ISIZE_MAX ensures Accepts(ReadAt(depth)(d), depth) {
      DecodeSound(d, depth);
    }
  }

  lemma {:induction false} DecodeListSound(rest: seq<byte>, depth: nat, items: seq<Value>)
    requires |rest| <= ISIZE_MAX
    requires forall d: seq<byte> :: |d| <= ISIZE_MAX ==> Accepts(ReadAt(depth)(d), depth)
    requires (forall x :: x in items ==> WellFormed(x)) && ItemsHeight(items) <= depth
    ensures Accepts(DecodeList(rest, ReadAt(depth), items), depth + 1)
    decreases |rest|
  {
    if rest != [] && rest[0] != LETTER_E {
      var d := ReadAt(depth)(rest);
      if d.Ok? {
        ItemsHeightAppend(items, d.value.0);
        DecodeListSound(d.value.1, depth, items + [d.value.0]);
      }
    }
  }

  lemma {:induction false} DecodeDictSound(rest: seq<byte>, depth: nat, es: seq<Entry>)
    requires |rest| <= ISIZE_MAX
    requires forall d: seq<byte> :: |d| <= ISIZE_MAX ==> Accepts(ReadAt(depth)(d), depth)
    requires KeysSorted(es) && forall e :: e in es ==> |e.key| <= ISIZE_MAX && WellFormed(e.val)
    requires EntriesHeight(es) <= depth
    ensures Accepts(DecodeDict(rest, ReadAt(depth), es), depth + 1)
    decreases |rest|
  {
    if rest != [] && rest[0] != LETTER_E {
      var k := DecodeBytes(rest);
      if k.Ok? {
        var d := ReadAt(depth)(k.value.1);
        if d.Ok? {
          InsertKeepsSorted(es, k.value.0.b, d.value.0);
          DecodeDictSound(d.value.1, depth, Insert(es, k.value.0.b, d.value.0));
        }
      }
    }
  }

  // ----- more input and a larger budget change nothing ---------------------------

  /** `longer` is the same success as `r`, with `more` left unread as well. */
  ghost predicate Extended(r: Decoded, longer: Decoded, more: seq<byte>) {
    r.Ok? ==> longer == Ok((r.value.0, r.value.1 + more))
  }

  /**
  A success stays the same success when bytes are appended (they are left unread) and when
  the budget grows.
  */
  lemma {:induction false} DecodeExtends(data: seq<byte>, more: seq<byte>, depth: nat, depth': nat)
    requires depth <= depth'
    ensures Extended(DecodeInner(data, depth), DecodeInner(data + more, depth'), more)
    decreases depth, 0
  {
    if depth > 0 && data != [] {
      assert (data + more)[1..] == data[1..] + more && (data + more)[0] == data[0];
      ReadAtExtends(depth - 1, depth' - 1, more);
      if data[0] == LETTER_I {
        DecodeIntExtends(data[1..], more);
      } else if data[0] == LETTER_L {
        DecodeListExtends(data[1..], more, ReadAt(depth - 1), ReadAt(depth' - 1), []);
      } else if data[0] == LETTER_D {
        DecodeDictExtends(data[1..], more, ReadAt(depth - 1), ReadAt(depth' - 1), []);
      } else {
        DecodeBytesExtends(data, more);
      }
    }
  }

  ghost predicate ReaderExtends(read: Reader, read': Reader, more: seq<byte>) {
    forall d :: Extended(read(d), read'(d + more), more)
  }

  lemma {:induction false} ReadAtExtends(depth: nat, depth': nat, more: seq<byte>)
    requires depth <= depth'
    ensures ReaderExtends(ReadAt(depth), ReadAt(depth'), more)
    decreases depth, 1
  {
    forall d ensures Extended(ReadAt(depth)(d), ReadAt(depth')(d + more), more) {
      DecodeExtends(d, more, depth, depth');
    }
  }

  lemma DecodeIntExtends(data: seq<byte>, more: seq<byte>)
    ensures Extended(DecodeInt(data), DecodeInt(data + more), more)
  {
    var end := Position(data, LETTER_E);
    if end < |data| {
      PositionIs(data + more, LETTER_E, end);
      assert (data + more)[..end] == data[..end];
      assert (data + more)[end + 1..] == data[end + 1..] + more;
    }
  }

  lemma DecodeBytesExtends(data: seq<byte>, more: seq<byte>)
    ensures Extended(DecodeBytes(data), DecodeBytes(data + more), more)
  {
    var colon := Position(data, COLON);
    var r := DecodeBytes(data);
    if r.Ok? {
      PositionIs(data + more, COLON, colon);
      assert (data + more)[..colon] == data[..colon];
      var end := |data| - |r.value.1|;
      assert (data + more)[colon + 1..end] == data[colon + 1..end];
      assert (data + more)[end..] == data[end..] + more;
    }
  }

  lemma {:induction false} DecodeListExtends(rest: seq<byte>, more: seq<byte>, read: Reader, read': Reader, items: seq<Value>)
    requires Progress(read) && Progress(read') && ReaderExtends(read, read', more)
    ensures Extended(DecodeList(rest, read, items), DecodeList(rest + more, read', items), more)
    decreases |rest|
  {
    if rest != [] {
      assert (rest + more)[1..] == rest[1..] + more;
      if rest[0] != LETTER_E && read(rest).Ok? {
        DecodeListExtends(read(rest).value.1, more, read, read', items + [read(rest).value.0]);
      }
    }
  }

  lemma {:induction false} DecodeDictExtends(rest: seq<byte>, more: seq<byte>, read: Reader, read': Reader, es: seq<Entry>)
    requires Progress(read) && Progress(read') && ReaderExtends(read, read', more)
    ensures Extended(DecodeDict(rest, read, es), DecodeDict(rest + more, read', es), more)
    decreases |rest|
  {
    if rest != [] {
      assert (rest + more)[1..] == rest[1..] + more;
      if rest[0] != LETTER_E {
        DecodeBytesExtends(rest, more);
        var k := DecodeBytes(rest);
        if k.Ok? && read(k.value.1).Ok? {
          var v := read(k.value.1);
          DecodeDictExtends(v.value.1, more, read, read', Insert(es, k.value.0.b, v.value.0));
        }
      }
    }
  }

  // ----- what is consumed, and that no spelling is shorter than the printed one -----

  /** What is left is a proper suffix, and the printed value is no longer than what was read. */
  ghost predicate Consumes(d: seq<byte>, r: Decoded) {
    r.Ok? ==> |r.value.1| < |d| && r.value.1 == d[|d| - |r.value.1|..] && |Encode(r.value.0)| + |r.value.1| <= |d|
  }

  lemma {:induction false} DecodeConsumes(data: seq<byte>, depth: nat)
    ensures Consumes(data, DecodeInner(data, depth))
    decreases depth, 0
  {
    if depth > 0 && data != [] {
      ReadAtConsumes(depth - 1);
      if data[0] == LETTER_I {
        DecodeIntConsumes(data[1..]);
      } else if data[0] == LETTER_L {
        DecodeListConsumes(data[1..], ReadAt(depth - 1), []);
      } else if data[0] == LETTER_D {
        DecodeDictConsumes(data[1..], ReadAt(depth - 1), []);
      } else {
        DecodeBytesConsumes(data);
      }
    }
  }

  lemma {:induction false} ReadAtConsumes(depth: nat)
    ensures forall d :: Consumes(d, ReadAt(depth)(d))
    decreases depth, 1
  {
    forall d ensures Consumes(d, ReadAt(depth)(d)) { DecodeConsumes(d, depth); }
  }

  lemma DecodeIntConsumes(data: seq<byte>)
    ensures var r := DecodeInt(data);
            r.Ok? ==> r.value.1 == data[|data| - |r.value.1|..] && |Encode(r.value.0)| + |r.value.1| <= |data| + 1
  {
    var end := Position(data, LETTER_E);
    if DecodeInt(data).Ok? {
      var s := data[..end];
      var digits := if s[0] == PLUS || s[0] == MINUS then s[1..] else s;
      PrintIsShortest(digits);
    }
  }

  lemma DecodeBytesConsumes(data: seq<byte>)
    ensures Consumes(data, DecodeBytes(data))
  {
    var colon := Position(data, COLON);
    if DecodeBytes(data).Ok? {
      var s := data[..colon];
      PrintIsShortest(if s[0] == PLUS then s[1..] else s);
    }
  }

  lemma {:induction false} DecodeListConsumes(rest: seq<byte>, read: Reader, items: seq<Value>)
    requires Progress(read) && forall d :: Consumes(d, read(d))
    ensures var r := DecodeList(rest, read, items);
            r.Ok? ==> && r.value.1 == rest[|rest| - |r.value.1|..]
                      && |Encode(r.value.0)| + |r.value.1| <= |EncodeItems(items)| + 1 + |rest|
    decreases |rest|
  {
    if rest != [] && rest[0] != LETTER_E && read(rest).Ok? {
      var v := read(rest).value;
      assert Consumes(rest, read(rest));
      EncodeItemsAppend(items, v.0);
      DecodeListConsumes(v.1, read, items + [v.0]);
    }
  }

  lemma {:induction false} EncodeItemsAppend(items: seq<Value>, v: Value)
    ensures EncodeItems(items + [v]) == EncodeItems(items) + Encode(v)
  {
    if items == [] {
      assert items + [v] == [v] && [v][1..] == [];
    } else {
      assert (items + [v])[1..] == items[1..] + [v];
      EncodeItemsAppend(items[1..], v);
    }
  }

  lemma {:induction false} DecodeDictConsumes(rest: seq<byte>, read: Reader, es: seq<Entry>)
    requires Progress(read) && forall d :: Consumes(d, read(d))
    ensures var r := DecodeDict(rest, read, es);
            r.Ok? ==> && r.value.1 == rest[|rest| - |r.value.1|..]
                      && |Encode(r.value.0)| + |r.value.1| <= |EncodeEntries(es)| + 1 + |rest|
    decreases |rest|
  {
    if rest != [] && rest[0] != LETTER_E {
      DecodeBytesConsumes(rest);
      var k := DecodeBytes(rest);
      if k.Ok? && read(k.value.1).Ok? {
        var v := read(k.value.1).value;
        assert Consumes(k.value.1, read(k.value.1));
        InsertSize(es, k.value.0.b, v.0);
        DecodeDictConsumes(v.1, read, Insert(es, k.value.0.b, v.0));
      }
    }
  }

  lemma {:induction false} InsertSize(es: seq<Entry>, key: seq<byte>, val: Value)
    ensures |EncodeEntries(Insert(es, key, val))| <= |EncodeEntries(es)| + |EncodeStr(key)| + |Encode(val)|
  {
    var out := Insert(es, key, val);
    if es == [] {
      assert out[1..] == [];
    } else if es[0].key == key {
      assert out[1..] == es[1..];
    } else if LexLess(key, es[0].key) {
      assert out[1..] == es;
    } else {
      InsertSize(es[1..], key, val);
      assert out[1..] == Insert(es[1..], key, val);
    }
  }

  // ----- the main theorems --------------------------------------------------------

  /** No encoding is a proper prefix of another: bytes that start with one determine it and what follows. */
  lemma PrefixFree(v: Value, t: seq<byte>, w: Value, u: seq<byte>)
    requires WellFormed(v) && WellFormed(w)
    requires Encode(v) + t == Encode(w) + u
    ensures v == w && t == u
  {
    var depth := Max(Height(v), Height(w));
    DecodeEncode(v, t, depth);
    DecodeEncode(w, u, depth);
  }

  /**
  However an accepted input was spelled (leading zeros, `+`, unsorted or repeated keys), the value
  it gave is printed in no more bytes, and those bytes, with anything after them, decode to the
  same value again at the full depth budget.
  */
  lemma ReEncode(data: seq<byte>, tail: seq<byte>)
    requires |data| <= ISIZE_MAX && Decode(data).Ok?
    ensures var (v, rest) := Decode(data).value;
            && Decode(Encode(v) + tail) == Ok((v, tail))
            && |Encode(v)| <= |data| - |rest|
            && data == data[..|data| - |rest|] + rest
            && Decode(data + tail) == Ok((v, rest + tail))
  {
    var (v, rest) := Decode(data).value;
    DecodeSound(data, MAX_DEPTH);
    DecodeEncode(v, tail, MAX_DEPTH);
    DecodeConsumes(data, MAX_DEPTH);
    DecodeExtends(data, tail, MAX_DEPTH, MAX_DEPTH);
  }
}
