/** Reading a `get_peers` reply (BEP 5): `parse_get_peers_response_with_ids` and `decode_compact_6`. */
module DhtReply {
  import opened Basics
  import opened Decimal
  import opened Bencode
  import opened BencodeLaws
  import opened Torrent

  /** Socket addresses; an IPv4 address has four bytes, an IPv6 address sixteen. */
  datatype SocketAddr = V4(ip: seq<byte>, port: nat) | V6(ip: seq<byte>, port: nat)

  type NodeId = s: seq<byte> | |s| == 20 witness seq(20, _ => 0)

  datatype DhtNode = DhtNode(id: NodeId, addr: SocketAddr)

  const KEY_R: seq<byte> := [114]
  const KEY_T: seq<byte> := [116]
  const KEY_Y: seq<byte> := [121]
  const KEY_ID: seq<byte> := [105, 100]
  const KEY_VALUES: seq<byte> := [118, 97, 108, 117, 101, 115]
  const KEY_NODES: seq<byte> := [110, 111, 100, 101, 115]

  /** Only the first six bytes count; port 0 is no address. */
  function DecodeCompact6(b: seq<byte>): Option<SocketAddr> {
    if |b| < 6 then None
    else
      var port: int := b[4] as int * 256 + b[5];
      if port == 0 then None else Some(V4(b[..4], port))
  }

  function AsSeq<T>(o: Option<T>): seq<T> { if o.Some? then [o.value] else [] }

  /** `values` as a list of strings. */
  function PeersOfList(items: seq<Value>): seq<SocketAddr> {
    if items == [] then []
    else (if items[0].Bytes? then AsSeq(DecodeCompact6(items[0].b)) else []) + PeersOfList(items[1..])
  }

  /** `values` as one string, cut by `chunks_exact(6)`: an incomplete last chunk is dropped. */
  function PeersOfBytes(b: seq<byte>): seq<SocketAddr> {
    if |b| < 6 then [] else AsSeq(DecodeCompact6(b[..6])) + PeersOfBytes(b[6..])
  }

  /** `nodes`, cut by `chunks_exact(26)`. */
  function NodesOfBytes(b: seq<byte>): seq<DhtNode> {
    if |b| < 26 then []
    else
      var addr := DecodeCompact6(b[20..26]);
      (if addr.Some? then [DhtNode(b[..20], addr.value)] else []) + NodesOfBytes(b[26..])
  }

  function PeersIn(r: Value): seq<SocketAddr> {
    match DictGet(r, KEY_VALUES)
    case Some(List(items)) => PeersOfList(items)
    case Some(Bytes(b)) => PeersOfBytes(b)
    case _ => []
  }

  function NodesIn(r: Value): seq<DhtNode> {
    match DictGet(r, KEY_NODES)
    case Some(Bytes(b)) => NodesOfBytes(b)
    case _ => []
  }

  /** The `r` dictionary of a datagram, if it is a reply at all. */
  function ReplyOf(data: seq<byte>): Option<Value> {
    var d := Decode(data);
    if d.Err? then None else DictGet(d.value.0, KEY_R)
  }

  function PeersFound(data: seq<byte>): seq<SocketAddr> {
    var r := ReplyOf(data);
    if r.None? then [] else PeersIn(r.value)
  }

  function NodesFound(data: seq<byte>): seq<DhtNode> {
    var r := ReplyOf(data);
    if r.None? then [] else NodesIn(r.value)
  }

  /** What a datagram contributes: the peers it carries and the closer nodes it names. */
  datatype Found = Found(peers: seq<SocketAddr>, nodes: seq<DhtNode>)

  function FoundIn(data: seq<byte>): Found { Found(PeersFound(data), NodesFound(data)) }

  /** The parser as the source has it: it pushes what it finds to two vectors. */
  method ParseReply(data: seq<byte>) returns (peers: seq<SocketAddr>, nodes: seq<DhtNode>)
    ensures Found(peers, nodes) == FoundIn(data)
  {
    peers, nodes := [], [];
    var d := Decode(data);
    if d.Err? {
      return;
    }
    var r := DictGet(d.value.0, KEY_R);
    if r.None? {
      return;
    }
    var values := DictGet(r.value, KEY_VALUES);
    if values.Some? {
      if values.value.List? {
        peers := ParsePeerList(values.value.items);
      } else if values.value.Bytes? {
        peers := ParsePeerBytes(values.value.b);
      }
    }
    var found := DictGet(r.value, KEY_NODES);
    if found.Some? && found.value.Bytes? {
      nodes := ParseNodes(found.value.b);
    }
  }

  method ParsePeerList(list: seq<Value>) returns (peers: seq<SocketAddr>)
    ensures peers == PeersOfList(list)
  {
    peers := [];
    for i := 0 to |list|
      invariant peers + PeersOfList(list[i..]) == PeersOfList(list)
    {
      assert list[i..][0] == list[i] && list[i..][1..] == list[i + 1..];
      if list[i].Bytes? {
        var addr := DecodeCompact6(list[i].b);
        if addr.Some? {
          peers := peers + [addr.value];
        }
      }
    }
  }

  lemma PeersTurn(peers: seq<SocketAddr>, b: seq<byte>, off: nat)
    requires off + 6 <= |b|
    ensures peers + PeersOfBytes(b[off..]) == peers + AsSeq(DecodeCompact6(b[off..off + 6])) + PeersOfBytes(b[off + 6..])
  {
    assert b[off..][..6] == b[off..off + 6] && b[off..][6..] == b[off + 6..];
    Regroup(peers, AsSeq(DecodeCompact6(b[off..off + 6])), PeersOfBytes(b[off + 6..]));
  }

  method ParsePeerBytes(b: seq<byte>) returns (peers: seq<SocketAddr>)
    ensures peers == PeersOfBytes(b)
  {
    peers := [];
    var off := 0;
    assert b[0..] == b && [] + PeersOfBytes(b) == PeersOfBytes(b);
    while off + 6 <= |b|
      invariant 0 <= off <= |b|
      invariant peers + PeersOfBytes(b[off..]) == PeersOfBytes(b)
    {
      PeersTurn(peers, b, off);
      ghost var more := peers + AsSeq(DecodeCompact6(b[off..off + 6]));
      var addr := DecodeCompact6(b[off..off + 6]);
      if addr.Some? {
        peers := peers + [addr.value];
      }
      assert peers == more;
      off := off + 6;
    }
    assert peers + [] == peers;
  }

  method ParseNodes(b: seq<byte>) returns (nodes: seq<DhtNode>)
    ensures nodes == NodesOfBytes(b)
  {
    nodes := [];
    var off := 0;
    while off + 26 <= |b|
      invariant 0 <= off <= |b|
      invariant nodes + NodesOfBytes(b[off..]) == NodesOfBytes(b)
    {
      assert b[off..][..20] == b[off..off + 20] && b[off..][20..26] == b[off + 20..off + 26];
      assert b[off..][26..] == b[off + 26..];
      var addr := DecodeCompact6(b[off + 20..off + 26]);
      if addr.Some? {
        nodes := nodes + [DhtNode(b[off..off + 20], addr.value)];
      }
      off := off + 26;
    }
  }

  // ----- what a node writes, and that it is read back -------------------------------

  predicate IsContact(a: SocketAddr) { a.V4? && |a.ip| == 4 && 0 < a.port < 65536 }

  function Compact6(a: SocketAddr): (b: seq<byte>)
    requires IsContact(a)
    ensures |b| == 6
  {
    a.ip + [a.port / 256, a.port % 256]
  }

  function Compact26(n: DhtNode): (b: seq<byte>)
    requires IsContact(n.addr)
    ensures |b| == 26
  {
    n.id + Compact6(n.addr)
  }

  lemma DecodeCompact(a: SocketAddr)
    requires IsContact(a)
    ensures DecodeCompact6(Compact6(a)) == Some(a)
  {
    assert Compact6(a)[..4] == a.ip;
  }

  function ValuesList(peers: seq<SocketAddr>): seq<Value>
    requires forall p :: p in peers ==> IsContact(p)
  {
    if peers == [] then [] else [Bytes(Compact6(peers[0]))] + ValuesList(peers[1..])
  }

  function ValuesBytes(peers: seq<SocketAddr>): seq<byte>
    requires forall p :: p in peers ==> IsContact(p)
  {
    if peers == [] then [] else Compact6(peers[0]) + ValuesBytes(peers[1..])
  }

  function NodesBytes(nodes: seq<DhtNode>): seq<byte>
    requires forall n :: n in nodes ==> IsContact(n.addr)
  {
    if nodes == [] then [] else Compact26(nodes[0]) + NodesBytes(nodes[1..])
  }

  lemma {:induction false} ReadValuesList(peers: seq<SocketAddr>)
    requires forall p :: p in peers ==> IsContact(p)
    ensures PeersOfList(ValuesList(peers)) == peers
    ensures forall v :: v in ValuesList(peers) ==> WellFormed(v) && Height(v) == 1
  {
    if peers != [] {
      DecodeCompact(peers[0]);
      ReadValuesList(peers[1..]);
      assert ValuesList(peers)[1..] == ValuesList(peers[1..]);
    }
  }

  lemma {:induction false} ReadValuesBytes(peers: seq<SocketAddr>)
    requires forall p :: p in peers ==> IsContact(p)
    ensures PeersOfBytes(ValuesBytes(peers)) == peers
  {
    if peers != [] {
      DecodeCompact(peers[0]);
      ReadValuesBytes(peers[1..]);
      var b := ValuesBytes(peers);
      assert b[..6] == Compact6(peers[0]) && b[6..] == ValuesBytes(peers[1..]);
    }
  }

  lemma {:induction false} ReadNodesBytes(nodes: seq<DhtNode>)
    requires forall n :: n in nodes ==> IsContact(n.addr)
    ensures NodesOfBytes(NodesBytes(nodes)) == nodes
  {
    if nodes != [] {
      DecodeCompact(nodes[0].addr);
      ReadNodesBytes(nodes[1..]);
      var b := NodesBytes(nodes);
      assert b[..20] == nodes[0].id && b[20..26] == Compact6(nodes[0].addr) && b[26..] == NodesBytes(nodes[1..]);
    }
  }

  /** The two ways a node may write `values`. */
  function Values(peers: seq<SocketAddr>, asList: bool): Value
    requires forall p :: p in peers ==> IsContact(p)
  {
    if asList then List(ValuesList(peers)) else Bytes(ValuesBytes(peers))
  }

  function Body(id: NodeId, peers: seq<SocketAddr>, nodes: seq<DhtNode>, asList: bool): Value
    requires (forall p :: p in peers ==> IsContact(p)) && forall n :: n in nodes ==> IsContact(n.addr)
  {
    Dict([Entry(KEY_ID, Bytes(id)), Entry(KEY_NODES, Bytes(NodesBytes(nodes))), Entry(KEY_VALUES, Values(peers, asList))])
  }

  function Reply(tid: seq<byte>, body: Value): Value {
    Dict([Entry(KEY_R, body), Entry(KEY_T, Bytes(tid)), Entry(KEY_Y, Bytes(KEY_R))])
  }

  lemma {:induction false} ItemsHeightFlat(items: seq<Value>)
    requires forall v :: v in items ==> Height(v) == 1
    ensures ItemsHeight(items) <= 1
  {
    if items != [] { ItemsHeightFlat(items[1..]); }
  }

  lemma ValuesIsFlat(peers: seq<SocketAddr>, asList: bool)
    requires forall p :: p in peers ==> IsContact(p)
    requires |ValuesBytes(peers)| <= ISIZE_MAX
    ensures WellFormed(Values(peers, asList)) && Height(Values(peers, asList)) <= 2
  {
    if asList {
      ReadValuesList(peers);
      ItemsHeightFlat(ValuesList(peers));
    }
  }

  lemma EntriesHeight3(a: Entry, b: Entry, c: Entry)
    ensures EntriesHeight([a, b, c]) == Max(Height(a.val), Max(Height(b.val), Height(c.val)))
  {
    assert [a, b, c][1..] == [b, c] && [b, c][1..] == [c] && [c][1..] == [];
    assert EntriesHeight([c]) == Max(Height(c.val), EntriesHeight([]));
    assert EntriesHeight([b, c]) == Max(Height(b.val), EntriesHeight([c]));
  }

  lemma ReplyIsWellFormed(tid: seq<byte>, body: Value)
    requires WellFormed(body) && Height(body) <= 3 && |tid| <= ISIZE_MAX
    ensures WellFormed(Reply(tid, body)) && Height(Reply(tid, body)) <= 4
  {
    assert LexLess(KEY_R, KEY_T) && LexLess(KEY_T, KEY_Y) && LexLess(KEY_R, KEY_Y);
    EntriesHeight3(Entry(KEY_R, body), Entry(KEY_T, Bytes(tid)), Entry(KEY_Y, Bytes(KEY_R)));
  }

  lemma BodyIsWellFormed(id: NodeId, peers: seq<SocketAddr>, nodes: seq<DhtNode>, asList: bool)
    requires (forall p :: p in peers ==> IsContact(p)) && forall n :: n in nodes ==> IsContact(n.addr)
    requires |ValuesBytes(peers)| <= ISIZE_MAX && |NodesBytes(nodes)| <= ISIZE_MAX
    ensures WellFormed(Body(id, peers, nodes, asList)) && Height(Body(id, peers, nodes, asList)) <= 3
  {
    assert LexLess(KEY_ID, KEY_NODES) && LexLess(KEY_NODES, KEY_VALUES) && LexLess(KEY_ID, KEY_VALUES);
    ValuesIsFlat(peers, asList);
    EntriesHeight3(Entry(KEY_ID, Bytes(id)), Entry(KEY_NODES, Bytes(NodesBytes(nodes))), Entry(KEY_VALUES, Values(peers, asList)));
  }

  /** A reply written by a node, in either form and with anything after it, is read back exactly. */
  lemma ReadReply(tid: seq<byte>, id: NodeId, peers: seq<SocketAddr>, nodes: seq<DhtNode>, asList: bool, tail: seq<byte>)
    requires (forall p :: p in peers ==> IsContact(p)) && forall n :: n in nodes ==> IsContact(n.addr)
    requires |ValuesBytes(peers)| <= ISIZE_MAX && |NodesBytes(nodes)| <= ISIZE_MAX && |tid| <= ISIZE_MAX
    ensures var data := Encode(Reply(tid, Body(id, peers, nodes, asList))) + tail;
            FoundIn(data) == Found(peers, nodes)
  {
    var body := Body(id, peers, nodes, asList);
    BodyIsWellFormed(id, peers, nodes, asList);
    ReplyIsWellFormed(tid, body);
    DecodeEncode(Reply(tid, body), tail, MAX_DEPTH);
    ReadBody(id, peers, nodes, asList);
  }

  lemma ReadBody(id: NodeId, peers: seq<SocketAddr>, nodes: seq<DhtNode>, asList: bool)
    requires (forall p :: p in peers ==> IsContact(p)) && forall n :: n in nodes ==> IsContact(n.addr)
    ensures var body := Body(id, peers, nodes, asList);
            PeersIn(body) == peers && NodesIn(body) == nodes
  {
    var es := Body(id, peers, nodes, asList).entries;
    assert Get(es, KEY_NODES) == Get(es[1..], KEY_NODES) == Some(Bytes(NodesBytes(nodes)));
    assert Get(es, KEY_VALUES) == Get(es[1..], KEY_VALUES) == Get(es[1..][1..], KEY_VALUES) == Some(Values(peers, asList));
    ReadNodesBytes(nodes);
    ReadValuesList(peers);
    ReadValuesBytes(peers);
  }
}
