/** Which handshakes and messages of the metadata exchange are taken, and which are not. */
module MetadataLaws {
  import opened Basics
  import opened Decimal
  import opened Bencode
  import opened BencodeLaws
  import opened Torrent
  import opened TorrentLaws
  import opened Metadata

  lemma IntIs(v: Value, key: seq<byte>, n: int)
    requires WellFormed(v)
    ensures DictInt(v, key) == Some(n) <==> Holds(v, key, Int(n))
  {
    HoldsIsGet(v, key, Int(n));
  }

  // ----- the handshake ---------------------------------------------------------------------------------

  /** The dictionary names a number for the metadata messages. */
  ghost predicate Offers(hs: Value, id: int) { exists ids :: Holds(hs, KEY_M, ids) && Holds(ids, KEY_UT_METADATA, Int(id)) }

  /** The size it gives, or zero; a negative one is a huge one. */
  ghost predicate GivesSize(hs: Value, size: nat) {
    if HoldsInt(hs, KEY_METADATA_SIZE) then exists n :: Holds(hs, KEY_METADATA_SIZE, Int(n)) && IsI64(n) && size == AsU64(n) else size == 0
  }

  lemma SizeIs(hs: Value, size: nat)
    requires WellFormed(hs)
    ensures SizeOf(hs) == size <==> GivesSize(hs, size)
  {
    HoldsAnyIsGet(hs, KEY_METADATA_SIZE);
    if DictInt(hs, KEY_METADATA_SIZE).Some? {
      var n := DictInt(hs, KEY_METADATA_SIZE).value;
      IntIs(hs, KEY_METADATA_SIZE, n);
      GetIsInside(hs, KEY_METADATA_SIZE);
      forall k | Holds(hs, KEY_METADATA_SIZE, Int(k)) ensures k == n { IntIs(hs, KEY_METADATA_SIZE, k); }
    }
  }

  /** The number under which the dictionary offers the messages, if any. */
  ghost function OfferOf(hs: Value): Option<int> {
    var ids := DictGet(hs, KEY_M);
    if ids.Some? then DictInt(ids.value, KEY_UT_METADATA) else None
  }

  lemma OfferIs(hs: Value, id: int)
    requires WellFormed(hs)
    ensures OfferOf(hs) == Some(id) <==> Offers(hs, id)
  {
    if DictGet(hs, KEY_M).Some? {
      var ids := DictGet(hs, KEY_M).value;
      HoldsIsGet(hs, KEY_M, ids);
      GetIsInside(hs, KEY_M);
      IntIs(ids, KEY_UT_METADATA, id);
    }
    forall ids | Holds(hs, KEY_M, ids) ensures DictGet(hs, KEY_M) == Some(ids) { HoldsIsGet(hs, KEY_M, ids); }
  }

  /** What a decoded handshake comes to. */
  lemma HandshakeIs(m: Message, hs: Value, rest: seq<byte>, id: int, size: nat)
    requires 0 < |m.payload| <= ISIZE_MAX && m.id == 20 && Decode(m.payload[1..]) == Ok((hs, rest)) && Offers(hs, id) && GivesSize(hs, size)
    ensures ParseHandshake(m) == if 1 <= size <= 10_485_760 then Ok(Handshake(id % 256, size)) else Err(ImplausibleSize)
  {
    DecodeSound(m.payload[1..], MAX_DEPTH);
    OfferIs(hs, id);
    SizeIs(hs, size);
  }

  lemma NothingOffered(m: Message, hs: Value, rest: seq<byte>)
    requires 0 < |m.payload| <= ISIZE_MAX && m.id == 20 && Decode(m.payload[1..]) == Ok((hs, rest))
    ensures ParseHandshake(m) == Err(NoUtMetadata) <==> forall id :: !Offers(hs, id)
  {
    DecodeSound(m.payload[1..], MAX_DEPTH);
    if OfferOf(hs).Some? { OfferIs(hs, OfferOf(hs).value); }
    forall id | Offers(hs, id) ensures OfferOf(hs) == Some(id) { OfferIs(hs, id); }
  }

  /** What is no handshake at all. */
  lemma NoHandshake(m: Message)
    requires |m.payload| <= ISIZE_MAX
    ensures ParseHandshake(m) == Err(NotAHandshake) <==> m.id != 20
    ensures ParseHandshake(m) == Err(EmptyHandshake) <==> m.id == 20 && m.payload == []
    ensures ParseHandshake(m) == Err(BadHandshake) <==> m.id == 20 && m.payload != [] && Decode(m.payload[1..]).Err?
  {
  }

  // ----- a written handshake ---------------------------------------------------------------------------

  function HandshakeValue(id: int, size: int): Value {
    Dict([Entry(KEY_M, Dict([Entry(KEY_UT_METADATA, Int(id))])), Entry(KEY_METADATA_SIZE, Int(size))])
  }

  lemma HandshakeValueIs(id: int, size: int)
    requires IsI64(id) && IsI64(size)
    ensures var hs := HandshakeValue(id, size);
            WellFormed(hs) && Height(hs) <= MAX_DEPTH && Offers(hs, id) && Holds(hs, KEY_METADATA_SIZE, Int(size))
  {
    var e := Entry(KEY_UT_METADATA, Int(id));
    var ids := Dict([e]);
    assert [e][1..] == [] && EntriesHeight([e]) == 1;
    var a, b := Entry(KEY_M, ids), Entry(KEY_METADATA_SIZE, Int(size));
    assert LexLess(KEY_M, KEY_METADATA_SIZE) by { assert KEY_METADATA_SIZE[0] == KEY_M[0] && KEY_M[1..] == []; }
    TwoEntries(a, b);
    assert a in [a, b] && b in [a, b] && e in [e];
    assert Holds(HandshakeValue(id, size), KEY_M, ids) && Holds(ids, KEY_UT_METADATA, Int(id));
  }

  /** A handshake as a peer writes it is read back: the number as a byte, and the size if it is plausible. */
  lemma WrittenHandshakeIsRead(first: byte, id: int, size: int, tail: seq<byte>)
    requires IsI64(id) && IsI64(size) && |Encode(HandshakeValue(id, size)) + tail| < ISIZE_MAX
    ensures ParseHandshake(Message(20, [first] + (Encode(HandshakeValue(id, size)) + tail))) ==
            if 1 <= size <= 10_485_760 then Ok(Handshake(id % 256, size)) else Err(ImplausibleSize)
  {
    var hs := HandshakeValue(id, size);
    var m := Message(20, [first] + (Encode(hs) + tail));
    HandshakeValueIs(id, size);
    assert m.payload[1..] == Encode(hs) + tail;
    DecodeEncode(hs, tail, MAX_DEPTH);
    CastIs(size);
    SizeIsGiven(hs, size);
    HandshakeIs(m, hs, tail, id, AsU64(size));
  }

  lemma SizeIsGiven(hs: Value, size: int)
    requires WellFormed(hs) && IsI64(size) && Holds(hs, KEY_METADATA_SIZE, Int(size))
    ensures GivesSize(hs, AsU64(size))
  {
  }

  // ----- messages --------------------------------------------------------------------------------------

  /** A message carries a piece exactly when it is a data message of the right kind for one of the pieces. */
  lemma AcceptsExactly(m: Message, utId: byte, n: nat, i: nat, data: seq<byte>)
    requires |m.payload| <= ISIZE_MAX && n <= ISIZE_MAX
    ensures Accept(m, utId, n) == Some((i, data)) <==>
            && m.id == 20 && m.payload != [] && m.payload[0] == utId && i < n
            && exists v :: Decode(m.payload[1..]) == Ok((v, data)) && Holds(v, KEY_MSG_TYPE, Int(1)) && Holds(v, KEY_PIECE, Int(i))
  {
    if m.payload != [] && Decode(m.payload[1..]).Ok? {
      DecodeSound(m.payload[1..], MAX_DEPTH);
      var v := Decode(m.payload[1..]).value.0;
      IntIs(v, KEY_MSG_TYPE, 1);
      IntIs(v, KEY_PIECE, i);
    }
  }

  /** A message about a piece: 0 asks for it, 2 says that it is refused. */
  function ControlMessage(utId: byte, kind: int, i: nat, tail: seq<byte>): Message {
    Message(20, [utId] + (Encode(Dict([Entry(KEY_MSG_TYPE, Int(kind)), Entry(KEY_PIECE, Int(i))])) + tail))
  }

  /** Neither a request nor a refusal, nor anything else that is not data, is taken for a piece. */
  lemma ControlCarriesNothing(utId: byte, kind: int, i: nat, tail: seq<byte>, n: nat)
    requires kind != 1 && IsI64(kind) && i <= I64_MAX && n <= ISIZE_MAX && |ControlMessage(utId, kind, i, tail).payload| <= ISIZE_MAX
    ensures Accept(ControlMessage(utId, kind, i, tail), utId, n) == None
  {
    var a, b := Entry(KEY_MSG_TYPE, Int(kind)), Entry(KEY_PIECE, Int(i));
    var v := Dict([a, b]);
    assert LexLess(KEY_MSG_TYPE, KEY_PIECE);
    TwoEntries(a, b);
    DecodeEncode(v, tail, MAX_DEPTH);
    var m := ControlMessage(utId, kind, i, tail);
    assert m.payload[1..] == Encode(v) + tail;
    assert a in [a, b];
    if Accept(m, utId, n).Some? {
      AcceptsExactly(m, utId, n, Accept(m, utId, n).value.0, Accept(m, utId, n).value.1);
      IntIs(v, KEY_MSG_TYPE, kind);
      IntIs(v, KEY_MSG_TYPE, 1);
    }
  }

  // ----- several messages for one piece -----------------------------------------------------------------

  ghost predicate Carries(m: Message, utId: byte, n: nat, i: nat)
    requires n <= ISIZE_MAX
  {
    Accept(m, utId, n).Some? && Accept(m, utId, n).value.0 == i
  }

  /** How many messages are looked at: all of them, or as many as make the pieces complete. */
  ghost function Taken(pieces: Pieces, ms: seq<Message>, utId: byte): (t: nat)
    requires |pieces| <= ISIZE_MAX
    ensures t <= |ms|
    decreases |ms|
  {
    if ms == [] || Full(pieces) then 0 else 1 + Taken(Store(pieces, Accept(ms[0], utId, |pieces|)), ms[1..], utId)
  }

  /** Message `k` carries piece `i` and no later one of those looked at does. */
  ghost predicate LastFor(ms: seq<Message>, t: nat, utId: byte, n: nat, i: nat, k: nat)
    requires n <= ISIZE_MAX && t <= |ms|
  {
    k < t && Carries(ms[k], utId, n, i) && forall j :: k < j < t ==> !Carries(ms[j], utId, n, i)
  }

  ghost predicate NoneFor(ms: seq<Message>, t: nat, utId: byte, n: nat, i: nat)
    requires n <= ISIZE_MAX && t <= |ms|
  {
    forall j :: 0 <= j < t ==> !Carries(ms[j], utId, n, i)
  }

  /** Every piece is what the last message for it carried; one for which none came is as it was. */
  lemma {:induction false} LastOneCounts(pieces: Pieces, ms: seq<Message>, utId: byte, i: nat, k: nat)
    requires |pieces| <= ISIZE_MAX && i < |pieces|
    ensures var (r, n, t) := (Receive(pieces, ms, utId), |pieces|, Taken(pieces, ms, utId));
            && (t < |ms| ==> Full(r))
            && (LastFor(ms, t, utId, n, i, k) ==> r[i] == Some(Accept(ms[k], utId, n).value.1))
            && (NoneFor(ms, t, utId, n, i) ==> r[i] == pieces[i])
    decreases |ms|
  {
    if ms != [] && !Full(pieces) {
      var n := |pieces|;
      var next := Store(pieces, Accept(ms[0], utId, n));
      var t := Taken(next, ms[1..], utId);
      LastOneCounts(next, ms[1..], utId, i, if k == 0 then 0 else k - 1);
      if LastFor(ms, t + 1, utId, n, i, k) { LastOfRest(ms, t, utId, n, i, k); }
      if NoneFor(ms, t + 1, utId, n, i) {
        assert !Carries(ms[0], utId, n, i);
        NoneOfRest(ms, t, utId, n, i);
      }
    }
  }

  lemma LastOfRest(ms: seq<Message>, t: nat, utId: byte, n: nat, i: nat, k: nat)
    requires n <= ISIZE_MAX && t < |ms| && LastFor(ms, t + 1, utId, n, i, k)
    ensures if k == 0 then NoneFor(ms[1..], t, utId, n, i) else LastFor(ms[1..], t, utId, n, i, k - 1)
  {
    assert forall j :: 0 <= j < t ==> ms[1..][j] == ms[j + 1];
  }

  lemma NoneOfRest(ms: seq<Message>, t: nat, utId: byte, n: nat, i: nat)
    requires n <= ISIZE_MAX && t < |ms| && NoneFor(ms, t + 1, utId, n, i)
    ensures NoneFor(ms[1..], t, utId, n, i)
  {
    assert forall j :: 0 <= j < t ==> ms[1..][j] == ms[j + 1];
  }

  lemma {:induction false} FlattenJoin(a: Pieces, b: Pieces)
    ensures Flatten(a + b) == Flatten(a) + Flatten(b)
  {
    if a == [] {
      assert a + b == b;
    } else {
      FlattenJoin(a[1..], b);
      assert (a + b)[1..] == a[1..] + b && (a + b)[0] == a[0];
      Regroup(if a[0].Some? then a[0].value else [], Flatten(a[1..]), Flatten(b));
    }
  }

  lemma FlattenOne(data: seq<byte>)
    ensures Flatten([Some(data)]) == data
  {
    assert [Some(data)][1..] == [] && data + [] == data;
  }

  /** What is returned is the pieces one after the other, cut at the size that was offered. */
  lemma ExchangeIsCut(hs: Handshake, ms: seq<Message>)
    requires hs.size <= MAX_METADATA_SIZE && Exchange(hs, ms).Ok?
    ensures var pieces := Receive(Empty(NumPieces(hs.size)), Budget(ms, NumPieces(hs.size)), hs.utId);
            && Full(pieces) && Exchange(hs, ms).value <= Flatten(pieces)
            && |Exchange(hs, ms).value| == if |Flatten(pieces)| < hs.size then |Flatten(pieces)| else hs.size
  {
  }

  // ----- the number of messages and of pieces ----------------------------------------------------------

  /** Piece `i` is carried by one of the first messages, of which there are four for each piece. */
  ghost predicate InTime(ms: seq<Message>, utId: byte, n: nat, i: nat)
    requires n <= ISIZE_MAX
  {
    exists j :: 0 <= j < |ms| && j < 4 * n && Accept(ms[j], utId, n).Some? && Accept(ms[j], utId, n).value.0 == i
  }

  lemma ArrivesIsInTime(ms: seq<Message>, utId: byte, n: nat, i: nat)
    requires n <= ISIZE_MAX
    ensures Arrives(Budget(ms, n), utId, n, i) <==> InTime(ms, utId, n, i)
  {
    var some := Budget(ms, n);
    if Arrives(some, utId, n, i) {
      var m :| m in some && Accept(m, utId, n).Some? && Accept(m, utId, n).value.0 == i;
      var j :| 0 <= j < |some| && some[j] == m;
      assert ms[j] == m;
    }
    if InTime(ms, utId, n, i) {
      var j :| 0 <= j < |ms| && j < 4 * n && Accept(ms[j], utId, n).Some? && Accept(ms[j], utId, n).value.0 == i;
      assert some[j] == ms[j] && some[j] in some;
    }
  }

  lemma CompleteWithinBudget(hs: Handshake, ms: seq<Message>)
    requires 0 < hs.size <= MAX_METADATA_SIZE
    ensures Exchange(hs, ms).Ok? <==> forall i: nat :: i < NumPieces(hs.size) ==> InTime(ms, hs.utId, NumPieces(hs.size), i)
  {
    var n := NumPieces(hs.size);
    CompleteExactlyWhenCovered(hs, ms);
    forall i: nat | i < n ensures Arrives(Budget(ms, n), hs.utId, n, i) <==> InTime(ms, hs.utId, n, i) {
      ArrivesIsInTime(ms, hs.utId, n, i);
    }
  }

  /** There are as many pieces of 16384 bytes as the size needs. */
  lemma PiecesCover(size: nat)
    ensures size <= NumPieces(size) * 16384 && (NumPieces(size) > 0 ==> (NumPieces(size) - 1) * 16384 < size)
  {
  }
}
