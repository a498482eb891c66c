/**
The receiving half of `fetch_ut_metadata` (BEP 9): the extension handshake names the size of the
info dictionary, the peer sends it in pieces of 16 KiB in any order, mixed with other messages,
and the pieces are put together again.
*/
module Metadata {
  import opened Basics
  import opened Decimal
  import opened Bencode
  import opened BencodeLaws
  import opened Torrent

  const PIECE_SIZE: nat := 16384
  const MAX_METADATA_SIZE: nat := 10 * 1024 * 1024
  const EXTENDED: byte := 20

  const KEY_M: seq<byte> := [109]
  const KEY_UT_METADATA: seq<byte> := [117, 116, 95, 109, 101, 116, 97, 100, 97, 116, 97]
  const KEY_METADATA_SIZE: seq<byte> := [109, 101, 116, 97, 100, 97, 116, 97, 95, 115, 105, 122, 101]
  const KEY_MSG_TYPE: seq<byte> := [109, 115, 103, 95, 116, 121, 112, 101]
  const KEY_PIECE: seq<byte> := [112, 105, 101, 99, 101]
  const KEY_TOTAL_SIZE: seq<byte> := [116, 111, 116, 97, 108, 95, 115, 105, 122, 101]

  /** What `recv_msg` returns. */
  datatype Message = Message(id: byte, payload: seq<byte>)

  datatype MetadataError = NotAHandshake | EmptyHandshake | BadHandshake | NoUtMetadata | ImplausibleSize | Incomplete

  datatype Handshake = Handshake(utId: byte, size: nat)

  type Pieces = seq<Option<seq<byte>>>

  // ----- the handshake -----------------------------------------------------------

  function ParseHandshake(m: Message): (r: Result<Handshake, MetadataError>)
    requires |m.payload| <= ISIZE_MAX
    ensures r.Ok? ==> 0 < r.value.size <= MAX_METADATA_SIZE
  {
    if m.id != EXTENDED then Err(NotAHandshake)
    else if m.payload == [] then Err(EmptyHandshake)
    else
      var d := Decode(m.payload[1..]);
      if d.Err? then Err(BadHandshake)
      else
        DecodeSound(m.payload[1..], MAX_DEPTH);
        var ids := DictGet(d.value.0, KEY_M);
        var id := if ids.Some? then DictInt(ids.value, KEY_UT_METADATA) else None;
        if id.None? then Err(NoUtMetadata)
        else
          var size := SizeOf(d.value.0);
          if size == 0 || size > MAX_METADATA_SIZE then Err(ImplausibleSize)
          else Ok(Handshake(id.value % 256, size))
  }

  /** A negative size becomes a huge one in the cast to `usize`. */
  function SizeOf(hs: Value): nat
    requires WellFormed(hs)
  {
    match DictInt(hs, KEY_METADATA_SIZE)
    case None => 0
    case Some(i) => GetIsInside(hs, KEY_METADATA_SIZE); AsU64(i)
  }

  // ----- one message ---------------------------------------------------------------

  function NumPieces(size: nat): nat { (size + PIECE_SIZE - 1) / PIECE_SIZE }

  /** Which piece a message carries, if it is a data message for one of the `n` pieces. */
  function Accept(m: Message, utId: byte, n: nat): (r: Option<(nat, seq<byte>)>)
    requires n <= ISIZE_MAX
    ensures r.Some? ==> r.value.0 < n
  {
    if m.id != EXTENDED || m.payload == [] || m.payload[0] != utId then None
    else
      var d := Decode(m.payload[1..]);
      if d.Err? then None
      else
        var msgType := IntOr(d.value.0, KEY_MSG_TYPE, -1);
        var piece := IntOr(d.value.0, KEY_PIECE, -1);
        // as `usize`, a negative index is past every piece
        if msgType != 1 || piece < 0 || piece >= n then None
        else Some((piece, d.value.1))
  }

  function IntOr(v: Value, key: seq<byte>, default: int): int {
    match DictInt(v, key) case Some(i) => i case None => default
  }

  /** What a peer sends for piece `i` of an info dictionary of `total` bytes. */
  function PieceMessage(utId: byte, i: nat, total: nat, data: seq<byte>): Message {
    Message(EXTENDED, [utId] + (Encode(PieceHeader(i, total)) + data))
  }

  function PieceHeader(i: nat, total: nat): Value {
    Dict([Entry(KEY_MSG_TYPE, Int(1)), Entry(KEY_PIECE, Int(i)), Entry(KEY_TOTAL_SIZE, Int(total))])
  }

  /** The raw bytes after the dictionary are recovered exactly, whatever they are. */
  lemma AcceptPieceMessage(utId: byte, i: nat, total: nat, data: seq<byte>, n: nat)
    requires i < n <= ISIZE_MAX && total <= I64_MAX
    ensures Accept(PieceMessage(utId, i, total, data), utId, n) == Some((i, data))
  {
    var h := PieceHeader(i, total);
    PieceHeaderIsFlat(i, total);
    DecodeEncode(h, data, MAX_DEPTH);
    assert PieceMessage(utId, i, total, data).payload[1..] == Encode(h) + data;
    assert Get(h.entries, KEY_PIECE) == Get(h.entries[1..], KEY_PIECE) == Some(Int(i));
  }

  lemma PieceHeaderIsFlat(i: nat, total: nat)
    requires i <= I64_MAX && total <= I64_MAX
    ensures WellFormed(PieceHeader(i, total)) && Height(PieceHeader(i, total)) == 2
  {
    var es := PieceHeader(i, total).entries;
    assert LexLess(KEY_MSG_TYPE, KEY_PIECE) && LexLess(KEY_PIECE, KEY_TOTAL_SIZE) && LexLess(KEY_MSG_TYPE, KEY_TOTAL_SIZE);
    assert es[1..][1..] == [es[2]] && es[1..][1..][1..] == [];
    assert EntriesHeight(es[1..][1..][1..]) == 0;
    assert EntriesHeight(es[1..][1..]) == 1;
    assert EntriesHeight(es[1..]) == 1;
    assert EntriesHeight(es) == 1;
  }

  // ----- putting the pieces together -------------------------------------------------

  predicate Full(pieces: Pieces) { forall i :: 0 <= i < |pieces| ==> pieces[i].Some? }

  function Store(pieces: Pieces, a: Option<(nat, seq<byte>)>): (r: Pieces)
    requires a.Some? ==> a.value.0 < |pieces|
  {
    if a.Some? then pieces[a.value.0 := Some(a.value.1)] else pieces
  }

  /** The receive loop: it stops at the first message that completes the set. */
  function Receive(pieces: Pieces, ms: seq<Message>, utId: byte): (r: Pieces)
    requires |pieces| <= ISIZE_MAX
    ensures |r| == |pieces|
    decreases |ms|
  {
    if ms == [] || Full(pieces) then pieces
    else Receive(Store(pieces, Accept(ms[0], utId, |pieces|)), ms[1..], utId)
  }

  function Flatten(pieces: Pieces): seq<byte> {
    if pieces == [] then []
    else (if pieces[0].Some? then pieces[0].value else []) + Flatten(pieces[1..])
  }

  function Truncate(s: seq<byte>, n: nat): seq<byte> { if |s| <= n then s else s[..n] }

  function Assemble(pieces: Pieces, size: nat): Result<seq<byte>, MetadataError> {
    if Full(pieces) then Ok(Truncate(Flatten(pieces), size)) else Err(Incomplete)
  }

  function Empty(n: nat): (p: Pieces) { seq(n, _ => None) }

  /** At most four messages per piece are looked at. */
  function Budget(ms: seq<Message>, n: nat): seq<Message> {
    if |ms| <= n * 4 then ms else ms[..n * 4]
  }

  /** What the whole exchange after a handshake gives. */
  function Exchange(hs: Handshake, ms: seq<Message>): Result<seq<byte>, MetadataError>
    requires hs.size <= MAX_METADATA_SIZE
  {
    var n := NumPieces(hs.size);
    Assemble(Receive(Empty(n), Budget(ms, n), hs.utId), hs.size)
  }

  /** The exchange as the source runs it; `ms` ends where receiving fails. */
  method FetchPieces(hs: Handshake, ms: seq<Message>) returns (r: Result<seq<byte>, MetadataError>)
    requires 0 < hs.size <= MAX_METADATA_SIZE
    ensures r == Exchange(hs, ms)
    ensures r.Ok? ==> |r.value| <= hs.size
  {
    var n := NumPieces(hs.size);
    var pieces: Pieces := seq(n, _ => None);
    ghost var budget := Budget(ms, n);
    assert !Full(pieces) by { assert pieces[0] == None; }
    var k := 0;
    while k < n * 4
      invariant 0 <= k <= |budget| && |budget| <= n * 4 && |pieces| == n
      invariant Receive(Empty(n), budget, hs.utId) == Receive(pieces, budget[k..], hs.utId)
      invariant !Full(pieces)
    {
      if k >= |ms| {
        break;
      }
      assert budget[k..][0] == ms[k] && budget[k..][1..] == budget[k + 1..];
      var a := Accept(ms[k], hs.utId, n);
      k := k + 1;
      if a.Some? {
        pieces := pieces[a.value.0 := Some(a.value.1)];
        if Full(pieces) {
          break;
        }
      }
    }
    assert Full(pieces) || budget[k..] == [];
    if !Full(pieces) {
      return Err(Incomplete);
    }
    var assembled := Flatten(pieces);
    r := Ok(Truncate(assembled, hs.size));
  }

  /** `fetch_ut_metadata` from the handshake answer on. */
  method FetchUtMetadata(hs: Message, ms: seq<Message>) returns (r: Result<seq<byte>, MetadataError>)
    requires |hs.payload| <= ISIZE_MAX
    ensures var h := ParseHandshake(hs);
            r == if h.Err? then Err(h.error) else Exchange(h.value, ms)
  {
    var h := ParseHandshake(hs);
    if h.Err? {
      return Err(h.error);
    }
    r := FetchPieces(h.value, ms);
  }

  // ----- what the exchange guarantees --------------------------------------------------

  /** Bytes `i * 16384` up to the end of piece `i`. */
  function PieceOf(metadata: seq<byte>, i: nat): seq<byte>
    requires i * PIECE_SIZE <= |metadata|
  {
    if (i + 1) * PIECE_SIZE <= |metadata| then metadata[i * PIECE_SIZE..(i + 1) * PIECE_SIZE]
    else metadata[i * PIECE_SIZE..]
  }

  /** Every accepted message carries the bytes of the piece it names; other messages are free. */
  ghost predicate Honest(ms: seq<Message>, utId: byte, metadata: seq<byte>) {
    var n := NumPieces(|metadata|);
    n <= ISIZE_MAX && forall m :: m in ms ==>
      var a := Accept(m, utId, n);
      a.Some? ==> a.value.1 == PieceOf(metadata, a.value.0)
  }

  ghost predicate Genuine(pieces: Pieces, metadata: seq<byte>) {
    && |pieces| == NumPieces(|metadata|)
    && forall i :: 0 <= i < |pieces| && pieces[i].Some? ==> pieces[i].value == PieceOf(metadata, i)
  }

  lemma {:induction false} ReceiveKeepsGenuine(pieces: Pieces, ms: seq<Message>, utId: byte, metadata: seq<byte>)
    requires Genuine(pieces, metadata) && Honest(ms, utId, metadata)
    ensures Genuine(Receive(pieces, ms, utId), metadata)
    decreases |ms|
  {
    if ms != [] && !Full(pieces) {
      assert ms[0] in ms;
      ReceiveKeepsGenuine(Store(pieces, Accept(ms[0], utId, |pieces|)), ms[1..], utId, metadata);
    }
  }

  lemma {:induction false} FlattenGenuine(pieces: Pieces, metadata: seq<byte>, i: nat)
    requires Genuine(pieces, metadata) && Full(pieces) && i <= |pieces|
    ensures Flatten(pieces[i..]) == if i < |pieces| then metadata[i * PIECE_SIZE..] else []
    decreases |pieces| - i
  {
    if i < |pieces| {
      FlattenGenuine(pieces, metadata, i + 1);
      assert pieces[i..][1..] == pieces[i + 1..];
      var rest := metadata[i * PIECE_SIZE..];
      if i + 1 < |pieces| {
        assert rest == rest[..PIECE_SIZE] + rest[PIECE_SIZE..];
      }
    }
  }

  /**
  Any order, duplication or interleaving of an honest peer's messages gives the metadata or an
  incomplete error, and nothing else.
  */
  lemma HonestExchange(hs: Handshake, ms: seq<Message>, metadata: seq<byte>)
    requires 0 < hs.size == |metadata| <= MAX_METADATA_SIZE && Honest(ms, hs.utId, metadata)
    ensures Exchange(hs, ms) == Ok(metadata) || Exchange(hs, ms) == Err(Incomplete)
  {
    var n := NumPieces(hs.size);
    var got := Receive(Empty(n), Budget(ms, n), hs.utId);
    ReceiveKeepsGenuine(Empty(n), Budget(ms, n), hs.utId, metadata);
    if Full(got) {
      FlattenGenuine(got, metadata, 0);
      assert got[0..] == got && metadata[0..] == metadata;
    }
  }

  /** Piece `i` arrives among `ms`. */
  ghost predicate Arrives(ms: seq<Message>, utId: byte, n: nat, i: nat)
    requires n <= ISIZE_MAX
  {
    exists m :: m in ms && Accept(m, utId, n).Some? && Accept(m, utId, n).value.0 == i
  }

  lemma {:induction false} ReceiveCovers(pieces: Pieces, ms: seq<Message>, utId: byte, i: nat)
    requires i < |pieces| <= ISIZE_MAX
    ensures var got := Receive(pieces, ms, utId);
            && (pieces[i].Some? || Arrives(ms, utId, |pieces|, i) ==> got[i].Some?)
            && (got[i].Some? ==> pieces[i].Some? || Arrives(ms, utId, |pieces|, i))
    decreases |ms|
  {
    if ms != [] && !Full(pieces) {
      var a := Accept(ms[0], utId, |pieces|);
      ReceiveCovers(Store(pieces, a), ms[1..], utId, i);
      assert ms == [ms[0]] + ms[1..];
    }
  }

  /** The exchange succeeds exactly when every piece arrives within the budget of messages. */
  lemma CompleteExactlyWhenCovered(hs: Handshake, ms: seq<Message>)
    requires 0 < hs.size <= MAX_METADATA_SIZE
    ensures var n := NumPieces(hs.size);
            Exchange(hs, ms).Ok? <==> forall i :: 0 <= i < n ==> Arrives(Budget(ms, n), hs.utId, n, i)
  {
    var n := NumPieces(hs.size);
    forall i | 0 <= i < n
      ensures Receive(Empty(n), Budget(ms, n), hs.utId)[i].Some? <==> Arrives(Budget(ms, n), hs.utId, n, i)
    {
      ReceiveCovers(Empty(n), Budget(ms, n), hs.utId, i);
    }
  }

  /** A peer that sends every piece within the budget, among anything that is not a piece, delivers. */
  lemma HonestPeerDelivers(hs: Handshake, ms: seq<Message>, metadata: seq<byte>)
    requires 0 < hs.size == |metadata| <= MAX_METADATA_SIZE
    requires var n := NumPieces(hs.size);
             && (forall m :: m in ms && Accept(m, hs.utId, n).Some? ==>
                   exists i :: 0 <= i < n && m == PieceMessage(hs.utId, i, hs.size, PieceOf(metadata, i)))
             && forall i :: 0 <= i < n ==>
                  PieceMessage(hs.utId, i, hs.size, PieceOf(metadata, i)) in Budget(ms, n)
    ensures Exchange(hs, ms) == Ok(metadata)
  {
    var n := NumPieces(hs.size);
    forall i | 0 <= i < n ensures Arrives(Budget(ms, n), hs.utId, n, i) {
      AcceptPieceMessage(hs.utId, i, hs.size, PieceOf(metadata, i), n);
    }
    forall m | m in ms && Accept(m, hs.utId, n).Some?
      ensures Accept(m, hs.utId, n).value.1 == PieceOf(metadata, Accept(m, hs.utId, n).value.0)
    {
      var i :| 0 <= i < n && m == PieceMessage(hs.utId, i, hs.size, PieceOf(metadata, i));
      AcceptPieceMessage(hs.utId, i, hs.size, PieceOf(metadata, i), n);
    }
    HonestExchange(hs, ms, metadata);
    CompleteExactlyWhenCovered(hs, ms);
  }
}
