/**
The iterative BEP 5 lookup `dht_get_peers`: at most ten rounds, each asking the eight closest
nodes that were not asked before, and collecting what comes back.

The network is a parameter: `answers[k]` are the datagrams that arrive in round `k`, whoever sent
them and whatever they hold. The run itself is described by what those datagrams contribute.
*/
module DhtLookup {
  import opened Basics
  import opened XorMetric
  import opened Sorting
  import opened DhtReply

  const MAX_ITERATIONS: nat := 10
  const ALPHA: nat := 8
  const ENOUGH_PEERS: nat := 30

  type Datagram = seq<byte>

  /** The derived order of `SocketAddr`: the kind, then the address bytes, then the port. */
  function AddrKey(a: SocketAddr): seq<int> {
    match a
    case V4(ip, port) => [4] + ip + [port]
    case V6(ip, port) => [6] + ip + [port]
  }

  lemma AddrKeyInjective(a: SocketAddr, b: SocketAddr)
    requires AddrKey(a) == AddrKey(b)
    ensures a == b
  {
    var k := AddrKey(a);
    assert k[0] == (if a.V4? then 4 else 6) && k[0] == (if b.V4? then 4 else 6);
    assert a.port == k[|k| - 1] == b.port;
    assert a.ip == k[1..|k| - 1] == b.ip;
  }

  function DistanceTo(target: NodeId): DhtNode -> seq<int> {
    (n: DhtNode) => XorDistance(n.id, target)
  }

  // ----- one round ------------------------------------------------------------------

  /** What happened in a round: the nodes known, the addresses asked before, and who was asked. */
  datatype Round = Round(known: seq<DhtNode>, asked: set<SocketAddr>, batch: seq<DhtNode>, replies: seq<Found>)

  datatype State = State(candidates: seq<DhtNode>, queried: set<SocketAddr>, peers: seq<SocketAddr>, rounds: seq<Round>)

  /** `filter` by address, then `take(n)`. */
  function Pick(cs: seq<DhtNode>, queried: set<SocketAddr>, n: nat): seq<DhtNode>
    decreases |cs|
  {
    if cs == [] || n == 0 then []
    else if cs[0].addr in queried then Pick(cs[1..], queried, n)
    else [cs[0]] + Pick(cs[1..], queried, n - 1)
  }

  ghost function Addrs(ns: seq<DhtNode>): set<SocketAddr> { set n | n in ns :: n.addr }

  predicate HasAddr(cs: seq<DhtNode>, a: SocketAddr) { exists c :: c in cs && c.addr == a }

  /** New nodes are added unless their address is known. */
  function AddNodes(cs: seq<DhtNode>, nodes: seq<DhtNode>): seq<DhtNode>
    decreases |nodes|
  {
    if nodes == [] then cs
    else AddNodes(if HasAddr(cs, nodes[0].addr) then cs else cs + [nodes[0]], nodes[1..])
  }

  function AddReplies(cs: seq<DhtNode>, fs: seq<Found>): seq<DhtNode>
    decreases |fs|
  {
    if fs == [] then cs else AddReplies(AddNodes(cs, fs[0].nodes), fs[1..])
  }

  function PeersOfReplies(fs: seq<Found>): seq<SocketAddr> {
    if fs == [] then [] else fs[0].peers + PeersOfReplies(fs[1..])
  }

  function Batch(st: State, target: NodeId): seq<DhtNode> {
    Pick(Sort(st.candidates, DistanceTo(target)), st.queried, ALPHA)
  }

  ghost function Step(st: State, target: NodeId, fs: seq<Found>): State {
    var cs := Sort(st.candidates, DistanceTo(target));
    var batch := Pick(cs, st.queried, ALPHA);
    State(AddReplies(cs, fs), st.queried + Addrs(batch), st.peers + PeersOfReplies(fs),
          st.rounds + [Round(cs, st.queried, batch, fs)])
  }

  /** The replies of the next round, and of the rounds after it. */
  function First(answers: seq<seq<Found>>): seq<Found> { if answers == [] then [] else answers[0] }
  function Rest(answers: seq<seq<Found>>): seq<seq<Found>> { if answers == [] then [] else answers[1..] }

  /** Rounds made by `step` until there are enough peers, nobody is left to ask, or `left` of them are done. */
  ghost function Iterate(st: State, answers: seq<seq<Found>>, left: nat, step: (State, seq<Found>) -> State, over: State -> bool): State
    decreases left, |answers|
  {
    if left == 0 || over(st) then st
    else
      var next := step(st, First(answers));
      if |next.peers| >= ENOUGH_PEERS then next else Iterate(next, Rest(answers), left - 1, step, over)
  }

  ghost function StepFor(target: NodeId): (State, seq<Found>) -> State { (s, fs) => Step(s, target, fs) }

  ghost function OverFor(target: NodeId): State -> bool { s => Batch(s, target) == [] }

  /** The lookup from `st`, with `left` rounds to go. */
  ghost function Run(st: State, target: NodeId, answers: seq<seq<Found>>, left: nat): State {
    Iterate(st, answers, left, StepFor(target), OverFor(target))
  }

  ghost function Lookup(target: NodeId, seeds: seq<DhtNode>, answers: seq<seq<Found>>): State {
    Run(State(seeds, {}, [], []), target, answers, MAX_ITERATIONS)
  }

  /** Who was asked, round by round. */
  ghost function Batches(rounds: seq<Round>): (bs: seq<seq<DhtNode>>)
    ensures |bs| == |rounds|
  {
    seq(|rounds|, i requires 0 <= i < |rounds| => rounds[i].batch)
  }

  ghost function Parsed(ds: seq<Datagram>): (fs: seq<Found>)
    ensures |fs| == |ds|
  {
    seq(|ds|, i requires 0 <= i < |ds| => FoundIn(ds[i]))
  }

  ghost function ParsedAll(answers: seq<seq<Datagram>>): (r: seq<seq<Found>>)
    ensures |r| == |answers|
  {
    seq(|answers|, i requires 0 <= i < |answers| => Parsed(answers[i]))
  }

  ghost function From(answers: seq<seq<Found>>, k: nat): seq<seq<Found>> {
    if k <= |answers| then answers[k..] else []
  }

  lemma FromStart(answers: seq<seq<Found>>)
    ensures From(answers, 0) == answers
  {}

  lemma FromTurn(answers: seq<seq<Found>>, k: nat)
    ensures First(From(answers, k)) == if k < |answers| then answers[k] else []
    ensures Rest(From(answers, k)) == From(answers, k + 1)
  {}

  /** What arrives in a turn is what the lookup is given for it. */
  lemma ParsedTurn(answers: seq<seq<Datagram>>, k: nat)
    ensures First(From(ParsedAll(answers), k)) == Parsed(if k < |answers| then answers[k] else [])
    ensures Rest(From(ParsedAll(answers), k)) == From(ParsedAll(answers), k + 1)
  {
    FromTurn(ParsedAll(answers), k);
  }

  lemma RunTurn(st: State, target: NodeId, answers: seq<seq<Found>>, left: nat)
    requires left > 0 && Batch(st, target) != []
    ensures var next := Step(st, target, First(answers));
            Run(st, target, answers, left) ==
            if |next.peers| >= ENOUGH_PEERS then next else Run(next, target, Rest(answers), left - 1)
  {}

  /** The function is the lookup for a target; the loop below needs no more of it than what a turn does. */
  ghost predicate IsRun(run: (State, seq<seq<Found>>, nat) -> State, target: NodeId) {
    forall st, answers, left {:trigger Run(st, target, answers, left)} :: run(st, answers, left) == Run(st, target, answers, left)
  }

  lemma RunIsOver(run: (State, seq<seq<Found>>, nat) -> State, target: NodeId, st: State, answers: seq<seq<Found>>)
    requires IsRun(run, target)
    ensures run(st, answers, 0) == st
  {
    assert Run(st, target, answers, 0) == st;
  }

  lemma BatchesSnoc(rounds: seq<Round>, r: Round)
    ensures Batches(rounds + [r]) == Batches(rounds) + [r.batch]
  {}

  /** The variables of the loop are those of the state. */
  ghost predicate Mirrors(st: State, candidates: seq<DhtNode>, queried: set<SocketAddr>, peers: seq<SocketAddr>) {
    st.candidates == candidates && st.queried == queried && st.peers == peers
  }

  /** `dht_get_peers`, with the batches it sends. */
  method DhtGetPeers(target: NodeId, seeds: seq<DhtNode>, answers: seq<seq<Datagram>>)
    returns (result: seq<SocketAddr>, batches: seq<seq<DhtNode>>)
    ensures result == Dedup(Sort(Lookup(target, seeds, ParsedAll(answers)).peers, AddrKey))
    ensures batches == Batches(Lookup(target, seeds, ParsedAll(answers)).rounds)
  {
    var peers;
    ghost var last;
    peers, batches, last := AllRounds(target, seeds, answers, MAX_ITERATIONS, (st, replies, left: nat) => Run(st, target, replies, left));
    result := Dedup(Sort(peers, AddrKey));
  }

  /** The loop of `dht_get_peers`, with as many turns as it may take. */
  method AllRounds(target: NodeId, seeds: seq<DhtNode>, answers: seq<seq<Datagram>>, max: nat,
                   ghost run: (State, seq<seq<Found>>, nat) -> State)
    returns (peers: seq<SocketAddr>, batches: seq<seq<DhtNode>>, ghost st: State)
    requires IsRun(run, target)
    ensures st == run(State(seeds, {}, [], []), ParsedAll(answers), max)
    ensures peers == st.peers && batches == Batches(st.rounds)
  {
    var candidates, queried := seeds, {};
    peers, batches := [], [];
    ghost var replies := ParsedAll(answers);
    st := State(seeds, {}, [], []);
    ghost var last := run(st, replies, max);
    FromStart(replies);
    for iteration := 0 to max
      invariant Mirrors(st, candidates, queried, peers) && batches == Batches(st.rounds)
      invariant last == run(st, From(replies, iteration), max - iteration)
    {
      var ds := if iteration < |answers| then answers[iteration] else [];
      ParsedTurn(answers, iteration);
      var batch: seq<DhtNode>;
      ghost var next;
      batch, candidates, queried, peers, next := Turn(
        target, candidates, queried, peers, ds, st, From(replies, iteration), max - iteration, run);
      if batch == [] {
        return;
      }
      batches := batches + [batch];
      st := next;
      if |peers| >= ENOUGH_PEERS {
        return;
      }
    }
    RunIsOver(run, target, st, From(replies, max));
  }

  /** A round, as far as the loop needs to know it. */
  method Turn(target: NodeId, candidates: seq<DhtNode>, queried: set<SocketAddr>, peers: seq<SocketAddr>,
              ds: seq<Datagram>, ghost st: State, ghost replies: seq<seq<Found>>, ghost left: nat,
              ghost run: (State, seq<seq<Found>>, nat) -> State)
    returns (batch: seq<DhtNode>, cs: seq<DhtNode>, asked: set<SocketAddr>, ps: seq<SocketAddr>, ghost next: State)
    requires Mirrors(st, candidates, queried, peers) && left > 0 && First(replies) == Parsed(ds) && IsRun(run, target)
    ensures batch == [] ==> run(st, replies, left) == st && ps == peers
    ensures batch != [] ==> Mirrors(next, cs, asked, ps) && Batches(next.rounds) == Batches(st.rounds) + [batch]
    ensures batch != [] ==>
              run(st, replies, left) == if |ps| >= ENOUGH_PEERS then next else run(next, Rest(replies), left - 1)
  {
    batch, cs, asked, ps, next := OneRound(target, candidates, queried, peers, ds, st, replies, left, run);
  }

  /** The body of the loop: sort, pick, send, collect. An empty batch ends the lookup. */
  method OneRound(target: NodeId, candidates: seq<DhtNode>, queried: set<SocketAddr>, peers: seq<SocketAddr>,
                  ds: seq<Datagram>, ghost st: State, ghost replies: seq<seq<Found>>, ghost left: nat,
                  ghost run: (State, seq<seq<Found>>, nat) -> State)
    returns (batch: seq<DhtNode>, cs: seq<DhtNode>, asked: set<SocketAddr>, ps: seq<SocketAddr>, ghost next: State)
    requires Mirrors(st, candidates, queried, peers) && left > 0 && First(replies) == Parsed(ds) && IsRun(run, target)
    ensures batch == Batch(st, target)
    ensures batch == [] ==> run(st, replies, left) == st && ps == peers
    ensures batch != [] ==> Mirrors(next, cs, asked, ps) && Batches(next.rounds) == Batches(st.rounds) + [batch]
    ensures batch != [] ==>
              run(st, replies, left) == if |ps| >= ENOUGH_PEERS then next else run(next, Rest(replies), left - 1)
  {
    next := Step(st, target, Parsed(ds));
    cs, asked, ps := Sort(candidates, DistanceTo(target)), queried, peers;
    batch := Pick(cs, queried, ALPHA);
    if batch == [] {
      assert Run(st, target, replies, left) == st;
    } else {
      asked := SendAll(batch, queried);
      cs, ps := Collect(cs, peers, ds);
      BatchesSnoc(st.rounds, next.rounds[|st.rounds|]);
      RunTurn(st, target, replies, left);
    }
  }

  /** Each node of the batch is marked as it is sent its query. */
  method SendAll(batch: seq<DhtNode>, queried: set<SocketAddr>) returns (out: set<SocketAddr>)
    ensures out == queried + Addrs(batch)
  {
    out := queried;
    for i := 0 to |batch|
      invariant out == queried + Addrs(batch[..i])
    {
      out := out + {batch[i].addr};
      assert batch[..i + 1] == batch[..i] + [batch[i]];
    }
    assert batch[..|batch|] == batch;
  }

  lemma CollectTurn(cs: seq<DhtNode>, ps: seq<SocketAddr>, fs: seq<Found>, i: nat)
    requires i < |fs|
    ensures AddReplies(cs, fs[i..]) == AddReplies(AddNodes(cs, fs[i].nodes), fs[i + 1..])
    ensures ps + PeersOfReplies(fs[i..]) == ps + fs[i].peers + PeersOfReplies(fs[i + 1..])
  {
    assert fs[i..][0] == fs[i] && fs[i..][1..] == fs[i + 1..];
  }

  /** The receive loop of a round. */
  method Collect(candidates: seq<DhtNode>, peers: seq<SocketAddr>, ds: seq<Datagram>)
    returns (cs: seq<DhtNode>, ps: seq<SocketAddr>)
    ensures cs == AddReplies(candidates, Parsed(ds))
    ensures ps == peers + PeersOfReplies(Parsed(ds))
  {
    cs, ps := candidates, peers;
    ghost var fs := Parsed(ds);
    for i := 0 to |ds|
      invariant AddReplies(candidates, fs) == AddReplies(cs, fs[i..])
      invariant peers + PeersOfReplies(fs) == ps + PeersOfReplies(fs[i..])
    {
      var foundPeers, foundNodes := ParseReply(ds[i]);
      assert Found(foundPeers, foundNodes) == fs[i];
      CollectTurn(cs, ps, fs, i);
      ps := ps + foundPeers;
      cs := AddFound(cs, foundNodes);
    }
  }

  method AddFound(candidates: seq<DhtNode>, nodes: seq<DhtNode>) returns (cs: seq<DhtNode>)
    ensures cs == AddNodes(candidates, nodes)
  {
    cs := candidates;
    for i := 0 to |nodes|
      invariant AddNodes(candidates, nodes) == AddNodes(cs, nodes[i..])
    {
      assert nodes[i..][0] == nodes[i] && nodes[i..][1..] == nodes[i + 1..];
      if !HasAddr(cs, nodes[i].addr) {
        cs := cs + [nodes[i]];
      }
    }
  }
}
