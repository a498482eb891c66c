/** What of a reply is taken and what is passed over, and the spelling of the keys. */
module DhtReplyLaws {
  import opened Basics
  import opened Decimal
  import opened Bencode
  import opened BencodeLaws
  import opened Torrent
  import opened TorrentLaws
  import opened Metadata
  import opened DhtReply

  // ----- keys ---------------------------------------------------------------------------------

  /** The bytes spell the text. */
  predicate Spells(b: seq<byte>, s: string) { |b| == |s| && forall i :: 0 <= i < |s| ==> b[i] == s[i] as int }

  lemma KeysAreSpelled()
    ensures Spells(KEY_R, "r") && Spells(KEY_VALUES, "values") && Spells(KEY_NODES, "nodes")
    ensures Spells(KEY_INFO, "info") && Spells(KEY_FILES, "files") && Spells(KEY_NAME, "name")
    ensures Spells(KEY_LENGTH, "length") && Spells(KEY_PATH, "path")
    ensures Spells(KEY_M, "m") && Spells(KEY_UT_METADATA, "ut_metadata") && Spells(KEY_METADATA_SIZE, "metadata_size")
    ensures Spells(KEY_MSG_TYPE, "msg_type") && Spells(KEY_PIECE, "piece")
  {
  }

  // ----- addresses ------------------------------------------------------------------------------

  /** Six bytes or more give the address in the first four and the port in the next two, unless that is zero. */
  lemma CompactIs(b: seq<byte>, a: SocketAddr)
    ensures DecodeCompact6(b) == Some(a) <==> |b| >= 6 && a.V4? && a.ip == b[..4] && a.port == 256 * b[4] as int + b[5] && a.port != 0
  {
  }

  /** One address, or nothing. */
  ghost function OneAddress(b: seq<byte>): seq<SocketAddr> {
    if |b| >= 6 && 256 * b[4] as int + b[5] != 0 then [V4(b[..4], 256 * b[4] as int + b[5])] else []
  }

  /** A list of strings gives the addresses of its strings in order; what is no string or no address is passed over. */
  lemma {:induction false} PeersOfListJoin(a: seq<Value>, b: seq<Value>, v: Value)
    ensures PeersOfList(a + b) == PeersOfList(a) + PeersOfList(b)
    ensures PeersOfList([v]) == if v.Bytes? then OneAddress(v.b) else []
  {
    assert PeersOfList([v]) == (if v.Bytes? then OneAddress(v.b) else []) by { assert [v][1..] == []; }
    if a == [] {
      assert a + b == b;
    } else {
      PeersOfListJoin(a[1..], b, v);
      assert (a + b)[1..] == a[1..] + b && (a + b)[0] == a[0];
      Regroup(if a[0].Bytes? then AsSeq(DecodeCompact6(a[0].b)) else [], PeersOfList(a[1..]), PeersOfList(b));
    }
  }

  /** One string gives the addresses of its pieces of six bytes in order; less than six bytes at its end give nothing. */
  lemma PeersOfBytesJoin(chunk: seq<byte>, rest: seq<byte>)
    requires |chunk| == 6
    ensures PeersOfBytes(chunk + rest) == OneAddress(chunk) + PeersOfBytes(rest)
    ensures |rest| < 6 ==> PeersOfBytes(rest) == []
  {
    var b := chunk + rest;
    assert b[..6] == chunk && b[6..] == rest;
  }

  /** Nodes are pieces of 26 bytes: the identifier, then the address. */
  lemma NodesOfBytesJoin(chunk: seq<byte>, rest: seq<byte>)
    requires |chunk| == 26
    ensures NodesOfBytes(chunk + rest) ==
            (if OneAddress(chunk[20..]) == [] then [] else [DhtNode(chunk[..20], OneAddress(chunk[20..])[0])]) + NodesOfBytes(rest)
    ensures |rest| < 26 ==> NodesOfBytes(rest) == []
  {
    var b := chunk + rest;
    assert b[..20] == chunk[..20] && b[20..26] == chunk[20..] && b[26..] == rest;
  }

  // ----- datagrams -------------------------------------------------------------------------------

  /** What is no dictionary with a reply in it gives nothing. */
  lemma NoReply(data: seq<byte>)
    requires |data| <= ISIZE_MAX && (Decode(data).Ok? ==> !HoldsAny(Decode(data).value.0, KEY_R))
    ensures FoundIn(data) == Found([], [])
  {
    if Decode(data).Ok? {
      DecodeSound(data, MAX_DEPTH);
      HoldsAnyIsGet(Decode(data).value.0, KEY_R);
    }
  }

  /** Of a reply, peers come from `values`, which is a list or a string, and nodes from `nodes`, which is a string. */
  lemma ReplyGives(data: seq<byte>, v: Value, rest: seq<byte>, r: Value)
    requires |data| <= ISIZE_MAX && Decode(data) == Ok((v, rest)) && Holds(v, KEY_R, r)
    ensures WellFormed(r)
    ensures forall items :: Holds(r, KEY_VALUES, List(items)) ==> FoundIn(data).peers == PeersOfList(items)
    ensures forall b :: Holds(r, KEY_VALUES, Bytes(b)) ==> FoundIn(data).peers == PeersOfBytes(b)
    ensures (forall x :: Holds(r, KEY_VALUES, x) ==> !x.List? && !x.Bytes?) ==> FoundIn(data).peers == []
    ensures forall b :: Holds(r, KEY_NODES, Bytes(b)) ==> FoundIn(data).nodes == NodesOfBytes(b)
    ensures (forall x :: Holds(r, KEY_NODES, x) ==> !x.Bytes?) ==> FoundIn(data).nodes == []
  {
    DecodeSound(data, MAX_DEPTH);
    HoldsIsGet(v, KEY_R, r);
    GetIsInside(v, KEY_R);
    forall x | Holds(r, KEY_VALUES, x) ensures DictGet(r, KEY_VALUES) == Some(x) { HoldsIsGet(r, KEY_VALUES, x); }
    forall x | Holds(r, KEY_NODES, x) ensures DictGet(r, KEY_NODES) == Some(x) { HoldsIsGet(r, KEY_NODES, x); }
    if DictGet(r, KEY_VALUES).Some? { HoldsIsGet(r, KEY_VALUES, DictGet(r, KEY_VALUES).value); }
    if DictGet(r, KEY_NODES).Some? { HoldsIsGet(r, KEY_NODES, DictGet(r, KEY_NODES).value); }
  }
}
