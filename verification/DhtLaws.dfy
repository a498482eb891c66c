/** What every run of the lookup guarantees, whatever the network answers. */
module DhtLaws {
  import opened Basics
  import opened XorMetric
  import opened Sorting
  import opened DhtReply
  import opened DhtLookup

  /** The distance of a node as a 160-bit number. */
  ghost function Distance(n: DhtNode, target: NodeId): nat { Xor(Key(n.id), Key(target)) }

  /** The batch holds the closest nodes that were known and not asked before, as many as allowed. */
  ghost predicate Closest(r: Round, target: NodeId) {
    && |r.batch| <= 8
    && (forall b :: b in r.batch ==> b in r.known && b.addr !in r.asked)
    && (forall b, c :: b in r.batch && c in r.known && c.addr !in r.asked && c !in r.batch ==>
          Distance(b, target) <= Distance(c, target))
    && (|r.batch| < 8 ==> forall c :: c in r.known && c.addr !in r.asked ==> c in r.batch)
    && SortedBy(r.batch, DistanceTo(target))
  }

  // ----- one batch --------------------------------------------------------------------

  lemma {:induction false} PickMembers(cs: seq<DhtNode>, queried: set<SocketAddr>, n: nat)
    ensures var b := Pick(cs, queried, n);
            && |b| <= n
            && (forall x :: x in b ==> x in cs && x.addr !in queried)
            && (|b| < n ==> forall x :: x in cs && x.addr !in queried ==> x in b)
    decreases |cs|
  {
    if cs != [] && n > 0 {
      assert cs == [cs[0]] + cs[1..];
      PickMembers(cs[1..], queried, if cs[0].addr in queried then n else n - 1);
    }
  }

  lemma {:induction false} PickClosest(cs: seq<DhtNode>, queried: set<SocketAddr>, n: nat, target: NodeId, b: DhtNode, c: DhtNode)
    requires SortedBy(cs, DistanceTo(target))
    requires b in Pick(cs, queried, n) && c in cs && c.addr !in queried && c !in Pick(cs, queried, n)
    ensures LexLeq(DistanceTo(target)(b), DistanceTo(target)(c))
    decreases |cs|
  {
    assert cs == [cs[0]] + cs[1..];
    if cs[0].addr in queried {
      PickClosest(cs[1..], queried, n, target, b, c);
    } else if b == cs[0] {
      var j :| 0 <= j < |cs| && cs[j] == c;
    } else {
      PickClosest(cs[1..], queried, n - 1, target, b, c);
    }
  }

  lemma {:induction false} PickSorted(cs: seq<DhtNode>, queried: set<SocketAddr>, n: nat, key: DhtNode -> seq<int>)
    requires SortedBy(cs, key)
    ensures SortedBy(Pick(cs, queried, n), key)
    decreases |cs|
  {
    if cs != [] && n > 0 {
      var m := if cs[0].addr in queried then n else n - 1;
      PickSorted(cs[1..], queried, m, key);
      PickMembers(cs[1..], queried, m);
      var rest := Pick(cs[1..], queried, m);
      forall j | 0 <= j < |rest| ensures LexLeq(key(cs[0]), key(rest[j])) {
        assert rest[j] in rest;
        var i :| 0 <= i < |cs[1..]| && cs[1..][i] == rest[j];
        assert cs[i + 1] == rest[j];
      }
    }
  }

  lemma BatchIsClosest(st: State, target: NodeId, fs: seq<Found>)
    ensures var next := Step(st, target, fs);
            Closest(next.rounds[|next.rounds| - 1], target)
  {
    var key := DistanceTo(target);
    var cs := Sort(st.candidates, key);
    SortSorts(st.candidates, key);
    PickMembers(cs, st.queried, ALPHA);
    PickSorted(cs, st.queried, ALPHA, key);
    var batch := Pick(cs, st.queried, ALPHA);
    forall b, c | b in batch && c in cs && c.addr !in st.queried && c !in batch
      ensures Distance(b, target) <= Distance(c, target)
    {
      PickClosest(cs, st.queried, ALPHA, target, b, c);
      DistanceOrder(b.id, c.id, target);
      DistanceOrder(c.id, b.id, target);
      if LexLess(key(c), key(b)) { LexTransitiveLeq(key(c), key(b), key(c)); LexIrreflexive(key(c)); }
    }
  }

  // ----- addresses ------------------------------------------------------------------------

  ghost predicate DistinctAddrs(ns: seq<DhtNode>) {
    forall i, j :: 0 <= i < j < |ns| ==> ns[i].addr != ns[j].addr
  }

  lemma {:induction false} PickDistinct(cs: seq<DhtNode>, queried: set<SocketAddr>, n: nat)
    requires DistinctAddrs(cs)
    ensures DistinctAddrs(Pick(cs, queried, n))
    decreases |cs|
  {
    if cs != [] && n > 0 {
      PickDistinct(cs[1..], queried, if cs[0].addr in queried then n else n - 1);
      PickMembers(cs[1..], queried, if cs[0].addr in queried then n else n - 1);
      if cs[0].addr !in queried {
        var rest := Pick(cs[1..], queried, n - 1);
        forall j | 0 <= j < |rest| ensures rest[j].addr != cs[0].addr {
          assert rest[j] in rest;
        }
      }
    }
  }

  /** Distinctness does not depend on the order. */
  lemma SortDistinct(ns: seq<DhtNode>, key: DhtNode -> seq<int>)
    requires DistinctAddrs(ns)
    ensures DistinctAddrs(Sort(ns, key))
    decreases |ns|
  {
    if ns != [] {
      SortDistinct(ns[1..], key);
      forall x | x in Sort(ns[1..], key) ensures x.addr != ns[0].addr { SortKeepsMembers(ns[1..], key, x); }
      InsertDistinct(ns[0], Sort(ns[1..], key), key);
    }
  }

  lemma {:induction false} InsertDistinct(x: DhtNode, s: seq<DhtNode>, key: DhtNode -> seq<int>)
    requires DistinctAddrs(s) && forall y :: y in s ==> y.addr != x.addr
    ensures DistinctAddrs(InsertBy(x, s, key))
    decreases |s|
  {
    if s != [] && !LexLeq(key(x), key(s[0])) {
      InsertDistinct(x, s[1..], key);
      var rest := InsertBy(x, s[1..], key);
      InsertByMembers(x, s[1..], key);
      forall j | 0 <= j < |rest| ensures rest[j].addr != s[0].addr {
        assert rest[j] in multiset(rest);
        assert rest[j] == x || rest[j] in s[1..];
      }
    }
  }

  lemma {:induction false} AddNodesKeeps(cs: seq<DhtNode>, nodes: seq<DhtNode>)
    ensures var out := AddNodes(cs, nodes);
            && (DistinctAddrs(cs) ==> DistinctAddrs(out))
            && (forall x :: x in cs ==> x in out)
            && (forall x :: x in out ==> x in cs || x in nodes)
            && (forall x :: x in nodes ==> HasAddr(out, x.addr))
    decreases |nodes|
  {
    if nodes != [] {
      assert nodes == [nodes[0]] + nodes[1..];
      var cs' := if HasAddr(cs, nodes[0].addr) then cs else cs + [nodes[0]];
      AddNodesKeeps(cs', nodes[1..]);
    }
  }

  /** `n` was named by one of the replies. */
  ghost predicate Named(n: DhtNode, fs: seq<Found>) { exists f :: f in fs && n in f.nodes }

  lemma {:induction false} AddRepliesKeeps(cs: seq<DhtNode>, fs: seq<Found>)
    ensures var out := AddReplies(cs, fs);
            && (DistinctAddrs(cs) ==> DistinctAddrs(out))
            && (forall x :: x in cs ==> x in out)
            && (forall x :: x in out ==> x in cs || Named(x, fs))
            && (forall x :: Named(x, fs) ==> HasAddr(out, x.addr))
    decreases |fs|
  {
    if fs != [] {
      var cs' := AddNodes(cs, fs[0].nodes);
      AddNodesKeeps(cs, fs[0].nodes);
      AddRepliesKeeps(cs', fs[1..]);
      assert fs == [fs[0]] + fs[1..];
      forall x | Named(x, fs) ensures HasAddr(AddReplies(cs', fs[1..]), x.addr) {
        if x in fs[0].nodes { StillHas(cs', AddReplies(cs', fs[1..]), x.addr); } else { assert Named(x, fs[1..]); }
      }
    }
  }

  lemma StillHas(cs: seq<DhtNode>, out: seq<DhtNode>, a: SocketAddr)
    requires HasAddr(cs, a) && forall x :: x in cs ==> x in out
    ensures HasAddr(out, a)
  {
    var c :| c in cs && c.addr == a;
    assert c in out;
  }

  // ----- the invariant of a run ----------------------------------------------------------------

  ghost function PeersOfRounds(rounds: seq<Round>): seq<SocketAddr> {
    if rounds == [] then [] else PeersOfRounds(rounds[..|rounds| - 1]) + PeersOfReplies(rounds[|rounds| - 1].replies)
  }

  ghost function AskedIn(rounds: seq<Round>): set<SocketAddr> {
    if rounds == [] then {} else AskedIn(rounds[..|rounds| - 1]) + Addrs(rounds[|rounds| - 1].batch)
  }

  /** A node the lookup may know of: a seed, or one that some reply named. */
  ghost predicate Traceable(n: DhtNode, seeds: seq<DhtNode>, rounds: seq<Round>) {
    n in seeds || exists r :: r in rounds && Named(n, r.replies)
  }

  ghost predicate Sound(st: State, target: NodeId, seeds: seq<DhtNode>) {
    && (forall r :: r in st.rounds ==> Closest(r, target))
    && st.queried == AskedIn(st.rounds)
    && st.peers == PeersOfRounds(st.rounds)
    && (forall k :: 0 <= k < |st.rounds| ==> st.rounds[k].asked == AskedIn(st.rounds[..k]))
    && (forall n :: n in st.candidates ==> Traceable(n, seeds, st.rounds))
    && (forall k, n :: 0 <= k < |st.rounds| && n in st.rounds[k].known ==> Traceable(n, seeds, st.rounds[..k]))
    && (DistinctAddrs(seeds) ==>
          DistinctAddrs(st.candidates) && forall r :: r in st.rounds ==> DistinctAddrs(r.batch))
  }

  lemma CandidatesTraceable(st: State, target: NodeId, seeds: seq<DhtNode>, fs: seq<Found>, c: DhtNode)
    requires Sound(st, target, seeds) && c in Step(st, target, fs).candidates
    ensures Traceable(c, seeds, Step(st, target, fs).rounds)
  {
    var next := Step(st, target, fs);
    AddRepliesKeeps(Sort(st.candidates, DistanceTo(target)), fs);
    SortKeepsMembers(st.candidates, DistanceTo(target), c);
    assert next.rounds[|st.rounds|] in next.rounds;
    if c in st.candidates {
      assert Traceable(c, seeds, st.rounds);
      assert forall r :: r in st.rounds ==> r in next.rounds;
    }
  }

  lemma KnownTraceable(st: State, target: NodeId, seeds: seq<DhtNode>, fs: seq<Found>, k: nat, c: DhtNode)
    requires Sound(st, target, seeds) && k <= |st.rounds| && c in Step(st, target, fs).rounds[k].known
    ensures Traceable(c, seeds, Step(st, target, fs).rounds[..k])
  {
    var next := Step(st, target, fs);
    assert next.rounds[..k] == st.rounds[..k];
    if k == |st.rounds| {
      SortKeepsMembers(st.candidates, DistanceTo(target), c);
      assert st.rounds[..k] == st.rounds;
    }
  }

  lemma StepKeepsSound(st: State, target: NodeId, seeds: seq<DhtNode>, fs: seq<Found>)
    requires Sound(st, target, seeds)
    ensures Sound(Step(st, target, fs), target, seeds)
  {
    var next := Step(st, target, fs);
    var n := |st.rounds|;
    assert next.rounds[..n] == st.rounds;
    BatchIsClosest(st, target, fs);
    forall k | 0 <= k < |next.rounds| ensures next.rounds[k].asked == AskedIn(next.rounds[..k]) {
      if k < n { assert next.rounds[..k] == st.rounds[..k]; }
    }
    forall c | c in next.candidates ensures Traceable(c, seeds, next.rounds) {
      CandidatesTraceable(st, target, seeds, fs, c);
    }
    forall k, c | 0 <= k < |next.rounds| && c in next.rounds[k].known ensures Traceable(c, seeds, next.rounds[..k]) {
      KnownTraceable(st, target, seeds, fs, k, c);
    }
    if DistinctAddrs(seeds) { StepKeepsDistinct(st, target, fs); }
  }

  lemma StepKeepsDistinct(st: State, target: NodeId, fs: seq<Found>)
    requires DistinctAddrs(st.candidates)
    ensures var next := Step(st, target, fs);
            DistinctAddrs(next.candidates) && DistinctAddrs(next.rounds[|st.rounds|].batch)
  {
    var cs := Sort(st.candidates, DistanceTo(target));
    SortDistinct(st.candidates, DistanceTo(target));
    AddRepliesKeeps(cs, fs);
    PickDistinct(cs, st.queried, ALPHA);
  }

  lemma {:induction false} IterateKeeps(
    st: State, answers: seq<seq<Found>>, left: nat, step: (State, seq<Found>) -> State, over: State -> bool, inv: State -> bool)
    requires inv(st) && forall s, fs :: inv(s) ==> inv(step(s, fs))
    ensures inv(Iterate(st, answers, left, step, over))
    decreases left
  {
    if left > 0 && !over(st) {
      IterateKeeps(step(st, First(answers)), Rest(answers), left - 1, step, over, inv);
    }
  }

  /** What every step keeps, a run keeps. */
  lemma RunKeeps(st: State, target: NodeId, answers: seq<seq<Found>>, left: nat, inv: State -> bool)
    requires inv(st)
    requires forall s, fs :: inv(s) ==> inv(Step(s, target, fs))
    ensures inv(Run(st, target, answers, left))
  {
    assert forall s, fs :: inv(s) ==> inv(StepFor(target)(s, fs));
    IterateKeeps(st, answers, left, StepFor(target), OverFor(target), inv);
  }

  lemma {:induction false} IterateIsBounded(
    st: State, answers: seq<seq<Found>>, left: nat, step: (State, seq<Found>) -> State, over: State -> bool)
    requires forall s, fs :: |step(s, fs).rounds| == |s.rounds| + 1
    ensures |Iterate(st, answers, left, step, over).rounds| <= |st.rounds| + left
    decreases left
  {
    if left > 0 && !over(st) {
      IterateIsBounded(step(st, First(answers)), Rest(answers), left - 1, step, over);
    }
  }

  lemma RunIsBounded(st: State, target: NodeId, answers: seq<seq<Found>>, left: nat)
    ensures |Run(st, target, answers, left).rounds| <= |st.rounds| + left
  {
    assert forall s, fs :: |StepFor(target)(s, fs).rounds| == |s.rounds| + 1;
    IterateIsBounded(st, answers, left, StepFor(target), OverFor(target));
  }

  lemma LookupIsSound(target: NodeId, seeds: seq<DhtNode>, answers: seq<seq<Found>>)
    ensures var out := Lookup(target, seeds, answers);
            Sound(out, target, seeds) && |out.rounds| <= MAX_ITERATIONS
  {
    var init := State(seeds, {}, [], []);
    forall s, fs | Sound(s, target, seeds) ensures Sound(Step(s, target, fs), target, seeds) {
      StepKeepsSound(s, target, seeds, fs);
    }
    RunKeeps(init, target, answers, MAX_ITERATIONS, s => Sound(s, target, seeds));
    RunIsBounded(init, target, answers, MAX_ITERATIONS);
  }

  // ----- the main theorems -----------------------------------------------------------------------

  /** Every query of the run, in the order they were sent. */
  ghost function Sent(rounds: seq<Round>): seq<DhtNode> {
    if rounds == [] then [] else Sent(rounds[..|rounds| - 1]) + rounds[|rounds| - 1].batch
  }

  lemma {:induction false} SentIsAsked(rounds: seq<Round>)
    ensures Addrs(Sent(rounds)) == AskedIn(rounds)
  {
    if rounds != [] { SentIsAsked(rounds[..|rounds| - 1]); }
  }

  lemma {:induction false} SentIsBounded(rounds: seq<Round>, target: NodeId)
    requires forall r :: r in rounds ==> Closest(r, target)
    ensures |Sent(rounds)| <= ALPHA * |rounds|
  {
    if rounds != [] {
      assert rounds[|rounds| - 1] in rounds;
      SentIsBounded(rounds[..|rounds| - 1], target);
    }
  }

  lemma {:induction false} SentIsDistinct(rounds: seq<Round>, target: NodeId)
    requires forall r :: r in rounds ==> Closest(r, target) && DistinctAddrs(r.batch)
    requires forall k :: 0 <= k < |rounds| ==> rounds[k].asked == AskedIn(rounds[..k])
    ensures DistinctAddrs(Sent(rounds))
  {
    if rounds != [] {
      var n := |rounds| - 1;
      var before := rounds[..n];
      forall k | 0 <= k < n ensures before[k].asked == AskedIn(before[..k]) {
        assert before[..k] == rounds[..k];
      }
      SentIsDistinct(before, target);
      SentIsAsked(before);
      assert rounds[n] in rounds;
      forall i, j | 0 <= i < |Sent(before)| && 0 <= j < |rounds[n].batch|
        ensures Sent(before)[i].addr != rounds[n].batch[j].addr
      {
        assert Sent(before)[i] in Sent(before) && rounds[n].batch[j] in rounds[n].batch;
        assert Sent(before)[i].addr in Addrs(Sent(before));
      }
    }
  }

  /**
  At most 80 queries are sent; every batch is closest among the nodes known and not asked before;
  no address is asked in two rounds, and none twice at all when the seeds have distinct addresses;
  every node asked is a seed or was named in a reply of an earlier round.
  */
  lemma QueriesOfARun(target: NodeId, seeds: seq<DhtNode>, answers: seq<seq<Found>>)
    ensures var rounds := Lookup(target, seeds, answers).rounds;
            && |rounds| <= 10 && |Sent(rounds)| <= 80
            && (forall r :: r in rounds ==> Closest(r, target))
            && (forall i, j :: 0 <= i < j < |rounds| ==> Addrs(rounds[i].batch) !! Addrs(rounds[j].batch))
            && (DistinctAddrs(seeds) ==> DistinctAddrs(Sent(rounds)))
            && (forall k, b :: 0 <= k < |rounds| && b in rounds[k].batch ==> Traceable(b, seeds, rounds[..k]))
  {
    LookupIsSound(target, seeds, answers);
    var rounds := Lookup(target, seeds, answers).rounds;
    SentIsBounded(rounds, target);
    forall i, j | 0 <= i < j < |rounds| ensures Addrs(rounds[i].batch) !! Addrs(rounds[j].batch) {
      AskedInHolds(rounds[..j], i);
      assert rounds[j] in rounds;
    }
    if DistinctAddrs(seeds) { SentIsDistinct(rounds, target); }
    forall k, b | 0 <= k < |rounds| && b in rounds[k].batch ensures Traceable(b, seeds, rounds[..k]) {
      assert rounds[k] in rounds;
    }
  }

  lemma {:induction false} AskedInHolds(rounds: seq<Round>, i: nat)
    requires i < |rounds|
    ensures Addrs(rounds[i].batch) <= AskedIn(rounds)
  {
    if i < |rounds| - 1 { AskedInHolds(rounds[..|rounds| - 1], i); }
  }

  /** A peer that some reply of the run carried. */
  ghost predicate Received(p: SocketAddr, rounds: seq<Round>) {
    exists r, f :: r in rounds && f in r.replies && p in f.peers
  }

  lemma {:induction false} PeersOfRepliesMembers(fs: seq<Found>, p: SocketAddr)
    ensures p in PeersOfReplies(fs) <==> exists f :: f in fs && p in f.peers
  {
    if fs != [] {
      PeersOfRepliesMembers(fs[1..], p);
      assert fs == [fs[0]] + fs[1..];
    }
  }

  lemma {:induction false} PeersOfRoundsMembers(rounds: seq<Round>, p: SocketAddr)
    ensures p in PeersOfRounds(rounds) <==> Received(p, rounds)
  {
    if rounds != [] {
      var n := |rounds| - 1;
      PeersOfRoundsMembers(rounds[..n], p);
      PeersOfRepliesMembers(rounds[n].replies, p);
      assert rounds == rounds[..n] + [rounds[n]];
    }
  }

  /** The result is strictly sorted, so free of duplicates, and holds exactly the peers received. */
  lemma PeersOfARun(target: NodeId, seeds: seq<DhtNode>, answers: seq<seq<Found>>)
    ensures var out := Lookup(target, seeds, answers);
            var result := Dedup(Sort(out.peers, AddrKey));
            && StrictlySortedBy(result, AddrKey)
            && forall p :: p in result <==> Received(p, out.rounds)
  {
    LookupIsSound(target, seeds, answers);
    var out := Lookup(target, seeds, answers);
    var sorted := Sort(out.peers, AddrKey);
    SortSorts(out.peers, AddrKey);
    forall x, y | x in sorted && y in sorted && AddrKey(x) == AddrKey(y) ensures x == y { AddrKeyInjective(x, y); }
    DedupSorted(sorted, AddrKey);
    forall p ensures p in Dedup(sorted) <==> Received(p, out.rounds) {
      DedupKeepsMembers(sorted, p);
      SortKeepsMembers(out.peers, AddrKey, p);
      PeersOfRoundsMembers(out.rounds, p);
    }
  }

  lemma NobodyLeft(st: State, target: NodeId)
    requires Batch(st, target) == []
    ensures forall c :: c in st.candidates ==> c.addr in st.queried
  {
    PickMembers(Sort(st.candidates, DistanceTo(target)), st.queried, ALPHA);
    forall c | c in st.candidates ensures c.addr in st.queried {
      SortKeepsMembers(st.candidates, DistanceTo(target), c);
    }
  }

  lemma {:induction false} IterateEnds(
    st: State, answers: seq<seq<Found>>, left: nat, step: (State, seq<Found>) -> State, over: State -> bool)
    requires forall s, fs :: |step(s, fs).rounds| == |s.rounds| + 1
    ensures var out := Iterate(st, answers, left, step, over);
            |out.rounds| == |st.rounds| + left || |out.peers| >= ENOUGH_PEERS || over(out)
    decreases left
  {
    if left > 0 && !over(st) {
      IterateEnds(step(st, First(answers)), Rest(answers), left - 1, step, over);
    }
  }

  /** A run ends early only with enough peers, or when every node it knows of has been asked. */
  lemma RunEnds(st: State, target: NodeId, answers: seq<seq<Found>>, left: nat)
    ensures var out := Run(st, target, answers, left);
            || |out.rounds| == |st.rounds| + left
            || |out.peers| >= ENOUGH_PEERS
            || forall c :: c in out.candidates ==> c.addr in out.queried
  {
    assert forall s, fs :: |StepFor(target)(s, fs).rounds| == |s.rounds| + 1;
    IterateEnds(st, answers, left, StepFor(target), OverFor(target));
    var out := Run(st, target, answers, left);
    if OverFor(target)(out) { NobodyLeft(out, target); }
  }

  // ----- seeds with one address ---------------------------------------------------------------------

  lemma AddrsSnoc(ns: seq<DhtNode>, n: DhtNode)
    ensures Addrs(ns + [n]) == Addrs(ns) + {n.addr}
    ensures DistinctAddrs(ns + [n]) <==> DistinctAddrs(ns) && n.addr !in Addrs(ns)
  {
    var all := ns + [n];
    if DistinctAddrs(all) {
      forall i, j | 0 <= i < j < |ns| ensures ns[i].addr != ns[j].addr { assert all[i] == ns[i] && all[j] == ns[j]; }
      forall x | x in ns ensures x.addr != n.addr {
        var i :| 0 <= i < |ns| && ns[i] == x;
        assert all[i].addr != all[|ns|].addr;
      }
    }
    if n.addr !in Addrs(ns) {
      forall i | 0 <= i < |ns| ensures ns[i].addr != n.addr { assert ns[i] in ns; }
    }
  }

  /** Addresses are distinct exactly when there are as many of them as nodes. */
  lemma {:induction false} DistinctCounts(ns: seq<DhtNode>)
    ensures |Addrs(ns)| <= |ns| && (DistinctAddrs(ns) <==> |Addrs(ns)| == |ns|)
    decreases |ns|
  {
    if ns == [] {
      assert Addrs(ns) == {};
    } else {
      var init, n := ns[..|ns| - 1], ns[|ns| - 1];
      assert ns == init + [n];
      DistinctCounts(init);
      AddrsSnoc(init, n);
    }
  }

  /** Sorting neither makes nor hides a repeated address. */
  lemma SortKeepsRepeats(ns: seq<DhtNode>, key: DhtNode -> seq<int>)
    ensures |Sort(ns, key)| == |ns| && (DistinctAddrs(Sort(ns, key)) <==> DistinctAddrs(ns))
  {
    SortSorts(ns, key);
    assert |multiset(Sort(ns, key))| == |multiset(ns)|;
    assert Addrs(Sort(ns, key)) == Addrs(ns) by {
      forall x ensures x in Sort(ns, key) <==> x in ns { SortKeepsMembers(ns, key, x); }
    }
    DistinctCounts(ns);
    DistinctCounts(Sort(ns, key));
  }

  function FirstEight(ns: seq<DhtNode>): seq<DhtNode> { if |ns| <= ALPHA then ns else ns[..ALPHA] }

  lemma {:induction false} PickUnasked(cs: seq<DhtNode>, n: nat)
    ensures Pick(cs, {}, n) == if |cs| <= n then cs else cs[..n]
    decreases |cs|
  {
    if cs != [] && n > 0 {
      PickUnasked(cs[1..], n - 1);
      assert cs == [cs[0]] + cs[1..];
    }
  }

  /** The first batch is the eight closest seeds, repeated addresses and all. */
  lemma FirstBatch(target: NodeId, seeds: seq<DhtNode>, answers: seq<seq<Found>>)
    requires seeds != []
    ensures var rounds := Lookup(target, seeds, answers).rounds;
            |rounds| > 0 && rounds[0].batch == FirstEight(Sort(seeds, DistanceTo(target)))
  {
    var init := State(seeds, {}, [], []);
    var first := FirstEight(Sort(seeds, DistanceTo(target)));
    PickUnasked(Sort(seeds, DistanceTo(target)), ALPHA);
    SortKeepsRepeats(seeds, DistanceTo(target));
    assert Batch(init, target) == first;
    var next := Step(init, target, First(answers));
    RunTurn(init, target, answers, MAX_ITERATIONS);
    assert next.rounds[0].batch == first;
    RunKeeps(next, target, Rest(answers), MAX_ITERATIONS - 1, (s: State) => |s.rounds| > 0 && s.rounds[0].batch == first);
  }

  lemma {:induction false} SentStarts(rounds: seq<Round>)
    requires rounds != []
    ensures rounds[0].batch <= Sent(rounds)
    decreases |rounds|
  {
    if |rounds| > 1 { SentStarts(rounds[..|rounds| - 1]); } else { assert Sent(rounds[..0]) == []; }
  }

  /** Closest seeds that share an address among the first eight are both asked, whatever is answered. */
  lemma RepeatedSeedAskedTwice(target: NodeId, seeds: seq<DhtNode>, answers: seq<seq<Found>>)
    requires !DistinctAddrs(FirstEight(Sort(seeds, DistanceTo(target))))
    ensures !DistinctAddrs(Sent(Lookup(target, seeds, answers).rounds))
  {
    var rounds := Lookup(target, seeds, answers).rounds;
    FirstBatch(target, seeds, answers);
    SentStarts(rounds);
    var batch := rounds[0].batch;
    var i, j :| 0 <= i < j < |batch| && batch[i].addr == batch[j].addr;
    assert Sent(rounds)[i] == batch[i] && Sent(rounds)[j] == batch[j];
  }

  /** With up to eight seeds no address is asked twice exactly when the seeds have distinct addresses. */
  lemma AskedOnceExactlyWhen(target: NodeId, seeds: seq<DhtNode>, answers: seq<seq<Found>>)
    requires |seeds| <= ALPHA
    ensures DistinctAddrs(Sent(Lookup(target, seeds, answers).rounds)) <==> DistinctAddrs(seeds)
  {
    QueriesOfARun(target, seeds, answers);
    SortKeepsRepeats(seeds, DistanceTo(target));
    if !DistinctAddrs(seeds) { RepeatedSeedAskedTwice(target, seeds, answers); }
  }

  /** Seeds with one identifier, as the source makes them, are asked in their order: a repeat among the first eight is asked twice. */
  lemma UnnamedSeedsInOrder(target: NodeId, seeds: seq<DhtNode>, answers: seq<seq<Found>>)
    requires seeds != [] && forall n :: n in seeds ==> n.id == seeds[0].id
    ensures Lookup(target, seeds, answers).rounds != [] && Lookup(target, seeds, answers).rounds[0].batch == FirstEight(seeds)
    ensures !DistinctAddrs(FirstEight(seeds)) ==> !DistinctAddrs(Sent(Lookup(target, seeds, answers).rounds))
  {
    var key := DistanceTo(target);
    forall i, j | 0 <= i < j < |seeds| ensures LexLeq(key(seeds[i]), key(seeds[j])) {
      assert seeds[i] in seeds && seeds[j] in seeds;
    }
    StableSortIsUnique(seeds, seeds, key);
    FirstBatch(target, seeds, answers);
    if !DistinctAddrs(FirstEight(seeds)) { RepeatedSeedAskedTwice(target, seeds, answers); }
  }
}
