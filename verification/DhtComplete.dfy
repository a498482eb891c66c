/** Nothing a lookup hears of is forgotten: what it must know in each round, and what it must have asked when it ends. */
module DhtComplete {
  import opened Basics
  import opened Sorting
  import opened DhtReply
  import opened DhtLookup
  import opened DhtLaws

  /** The address is that of a seed, or of a node that some reply named. */
  ghost predicate Heard(a: SocketAddr, seeds: seq<DhtNode>, rounds: seq<Round>) {
    HasAddr(seeds, a) || exists r, n :: r in rounds && Named(n, r.replies) && n.addr == a
  }

  ghost predicate Asked(a: SocketAddr, rounds: seq<Round>) { exists r, b :: r in rounds && b in r.batch && b.addr == a }

  // ----- what a round does to the nodes known ------------------------------------------------------------

  ghost predicate Contains(more: seq<DhtNode>, less: seq<DhtNode>) { forall n :: n in less ==> n in more }

  ghost predicate KnowsAll(known: seq<DhtNode>, seeds: seq<DhtNode>, rounds: seq<Round>) {
    forall a :: Heard(a, seeds, rounds) ==> HasAddr(known, a)
  }

  /** Whatever was heard of before a round is known in it, and what was known before. */
  ghost predicate RoundKnows(seeds: seq<DhtNode>, rounds: seq<Round>, k: nat)
    requires k < |rounds|
  {
    KnowsAll(rounds[k].known, seeds, rounds[..k]) && (k > 0 ==> Contains(rounds[k].known, rounds[k - 1].known))
  }

  ghost predicate Remembers(st: State, seeds: seq<DhtNode>) {
    && (forall k :: 0 <= k < |st.rounds| ==> RoundKnows(seeds, st.rounds, k))
    && KnowsAll(st.candidates, seeds, st.rounds)
    && (st.rounds != [] ==> Contains(st.candidates, st.rounds[|st.rounds| - 1].known))
  }

  lemma SortContains(ns: seq<DhtNode>, key: DhtNode -> seq<int>)
    ensures Contains(Sort(ns, key), ns) && Contains(ns, Sort(ns, key))
  {
    forall n ensures n in Sort(ns, key) <==> n in ns { SortKeepsMembers(ns, key, n); }
  }

  lemma HeardNow(seeds: seq<DhtNode>, rounds: seq<Round>, r: Round, a: SocketAddr)
    requires Heard(a, seeds, rounds + [r])
    ensures Heard(a, seeds, rounds) || exists n :: Named(n, r.replies) && n.addr == a
  {
    if !HasAddr(seeds, a) {
      var q, n :| q in rounds + [r] && Named(n, q.replies) && n.addr == a;
      if q in rounds { assert Heard(a, seeds, rounds); }
    }
  }

  lemma CandidatesRemember(st: State, target: NodeId, seeds: seq<DhtNode>, fs: seq<Found>, a: SocketAddr)
    requires Remembers(st, seeds) && Heard(a, seeds, Step(st, target, fs).rounds)
    ensures HasAddr(Step(st, target, fs).candidates, a)
  {
    var next := Step(st, target, fs);
    var cs := Sort(st.candidates, DistanceTo(target));
    SortContains(st.candidates, DistanceTo(target));
    AddRepliesKeeps(cs, fs);
    HeardNow(seeds, st.rounds, next.rounds[|st.rounds|], a);
    if Heard(a, seeds, st.rounds) {
      StillHas(st.candidates, next.candidates, a);
    }
  }

  /** A round that is added leaves those before it as they are, and knows what the candidates knew. */
  lemma RoundsKnow(seeds: seq<DhtNode>, rounds: seq<Round>, r: Round, candidates: seq<DhtNode>, k: nat)
    requires k <= |rounds| && forall j :: 0 <= j < |rounds| ==> RoundKnows(seeds, rounds, j)
    requires KnowsAll(candidates, seeds, rounds) && Contains(r.known, candidates)
    requires rounds != [] ==> Contains(candidates, rounds[|rounds| - 1].known)
    ensures RoundKnows(seeds, rounds + [r], k)
  {
    var all := rounds + [r];
    if k < |rounds| {
      assert RoundKnows(seeds, rounds, k) && all[..k] == rounds[..k];
    } else {
      assert all[..k] == rounds;
      forall a | Heard(a, seeds, rounds) ensures HasAddr(r.known, a) { StillHas(candidates, r.known, a); }
    }
  }

  lemma StepRemembers(st: State, target: NodeId, seeds: seq<DhtNode>, fs: seq<Found>)
    requires Remembers(st, seeds)
    ensures Remembers(Step(st, target, fs), seeds)
  {
    var next := Step(st, target, fs);
    forall a | Heard(a, seeds, next.rounds) ensures HasAddr(next.candidates, a) { CandidatesRemember(st, target, seeds, fs, a); }
    SortContains(st.candidates, DistanceTo(target));
    AddRepliesKeeps(Sort(st.candidates, DistanceTo(target)), fs);
    forall k | 0 <= k < |next.rounds| ensures RoundKnows(seeds, next.rounds, k) {
      RoundsKnow(seeds, st.rounds, next.rounds[|st.rounds|], st.candidates, k);
    }
  }

  // ----- which replies a round is given ---------------------------------------------------------------------

  /** The step adds one round with the replies given to it, and their peers. */
  ghost predicate Appends(s: State, fs: seq<Found>, next: State) {
    && |next.rounds| == |s.rounds| + 1 && next.rounds[..|s.rounds|] == s.rounds && next.rounds[|s.rounds|].replies == fs
    && next.peers == s.peers + PeersOfReplies(fs)
  }

  function ReplyOf(answers: seq<seq<Found>>, k: int): seq<Found> { if 0 <= k < |answers| then answers[k] else [] }

  /** A round begins with too few peers. */
  ghost predicate Needed(rounds: seq<Round>, k: nat)
    requires k <= |rounds|
  {
    |PeersOfRounds(rounds[..k])| < 30
  }

  /** From `st` on, each round has the replies that are its turn, and all but the first are needed. */
  ghost predicate Follows(st: State, out: State, answers: seq<seq<Found>>) {
    && st.rounds <= out.rounds
    && (forall k :: |st.rounds| <= k < |out.rounds| ==> out.rounds[k].replies == ReplyOf(answers, k - |st.rounds|))
    && (forall k :: |st.rounds| < k < |out.rounds| ==> Needed(out.rounds, k))
  }

  lemma FollowsOn(st: State, next: State, out: State, answers: seq<seq<Found>>)
    requires Appends(st, First(answers), next) && Follows(next, out, Rest(answers))
    requires next.peers == PeersOfRounds(next.rounds) && |next.peers| < ENOUGH_PEERS
    ensures Follows(st, out, answers)
  {
    var n := |st.rounds|;
    assert out.rounds[..n + 1] == next.rounds && next.rounds <= out.rounds;
    assert st.rounds <= out.rounds by { assert out.rounds[..n] == next.rounds[..n]; }
    forall k | n <= k < |out.rounds| ensures out.rounds[k].replies == ReplyOf(answers, k - n) {
      if k == n { assert out.rounds[k] == next.rounds[k]; } else { LaterReply(answers, k - n); }
    }
  }

  lemma LaterReply(answers: seq<seq<Found>>, k: int)
    requires k > 0
    ensures ReplyOf(Rest(answers), k - 1) == ReplyOf(answers, k) && ReplyOf(answers, 0) == First(answers)
  {
  }

  lemma AppendedPeers(st: State, fs: seq<Found>, next: State)
    requires Appends(st, fs, next) && st.peers == PeersOfRounds(st.rounds)
    ensures next.peers == PeersOfRounds(next.rounds)
  {
  }

  lemma FollowsOnce(st: State, next: State, answers: seq<seq<Found>>)
    requires Appends(st, First(answers), next)
    ensures Follows(st, next, answers)
  {
    assert st.rounds == next.rounds[..|st.rounds|];
  }

  lemma {:induction false} IterateFollows(
    st: State, answers: seq<seq<Found>>, left: nat, step: (State, seq<Found>) -> State, over: State -> bool)
    requires st.peers == PeersOfRounds(st.rounds) && forall s, fs :: Appends(s, fs, step(s, fs))
    ensures Follows(st, Iterate(st, answers, left, step, over), answers)
    decreases left
  {
    if left > 0 && !over(st) {
      var next := step(st, First(answers));
      AppendedPeers(st, First(answers), next);
      if |next.peers| >= ENOUGH_PEERS {
        FollowsOnce(st, next, answers);
      } else {
        IterateFollows(next, Rest(answers), left - 1, step, over);
        FollowsOn(st, next, Iterate(next, Rest(answers), left - 1, step, over), answers);
      }
    }
  }

  /** Putting the peers of replies together, and those of one reply. */
  lemma {:induction false} PeersJoin(a: seq<Found>, b: seq<Found>, f: Found)
    ensures PeersOfReplies(a + b) == PeersOfReplies(a) + PeersOfReplies(b)
    ensures PeersOfReplies([f]) == f.peers
  {
    assert PeersOfReplies([f]) == f.peers by { assert [f][1..] == []; }
    if a == [] {
      assert a + b == b;
    } else {
      PeersJoin(a[1..], b, f);
      assert (a + b)[1..] == a[1..] + b;
      Regroup(a[0].peers, PeersOfReplies(a[1..]), PeersOfReplies(b));
    }
  }

  // ----- every run ---------------------------------------------------------------------------------------------

  /**
  In round `k` of every run the replies are the `k`-th answers; the address of every seed and of every
  node named in an earlier round is known; what was known in one round is known in the next; and no
  round but the first begins when there are enough peers.
  */
  lemma KnownInEachRound(target: NodeId, seeds: seq<DhtNode>, answers: seq<seq<Found>>)
    ensures var rounds := Lookup(target, seeds, answers).rounds;
            && (forall k :: 0 <= k < |rounds| ==> rounds[k].replies == ReplyOf(answers, k))
            && (forall k :: 0 <= k < |rounds| ==> KnowsAll(rounds[k].known, seeds, rounds[..k]))
            && (forall k :: 0 < k < |rounds| ==> Contains(rounds[k].known, rounds[k - 1].known))
            && (forall k :: 0 < k < |rounds| ==> Needed(rounds, k))
  {
    LookupFollows(target, seeds, answers);
    LookupRemembers(target, seeds, answers);
    var rounds := Lookup(target, seeds, answers).rounds;
    forall k | 0 <= k < |rounds| ensures KnowsAll(rounds[k].known, seeds, rounds[..k]) && (k > 0 ==> Contains(rounds[k].known, rounds[k - 1].known)) {
      assert RoundKnows(seeds, rounds, k);
    }
  }

  lemma LookupFollows(target: NodeId, seeds: seq<DhtNode>, answers: seq<seq<Found>>)
    ensures Follows(State(seeds, {}, [], []), Lookup(target, seeds, answers), answers)
  {
    assert forall s, fs :: Appends(s, fs, StepFor(target)(s, fs));
    IterateFollows(State(seeds, {}, [], []), answers, MAX_ITERATIONS, StepFor(target), OverFor(target));
  }

  lemma LookupRemembers(target: NodeId, seeds: seq<DhtNode>, answers: seq<seq<Found>>)
    ensures Remembers(Lookup(target, seeds, answers), seeds)
  {
    var init := State(seeds, {}, [], []);
    forall s, fs | Remembers(s, seeds) ensures Remembers(Step(s, target, fs), seeds) { StepRemembers(s, target, seeds, fs); }
    RunKeeps(init, target, answers, MAX_ITERATIONS, s => Remembers(s, seeds));
  }

  lemma {:induction false} AskedInIsAsked(rounds: seq<Round>, a: SocketAddr)
    requires a in AskedIn(rounds)
    ensures Asked(a, rounds)
  {
    var n := |rounds| - 1;
    assert rounds[n] in rounds;
    if a in AskedIn(rounds[..n]) {
      AskedInIsAsked(rounds[..n], a);
      var r, b :| r in rounds[..n] && b in r.batch && b.addr == a;
      assert r in rounds;
    } else {
      var b :| b in rounds[n].batch && b.addr == a;
    }
  }

  /**
  A run makes all its rounds, or receives enough peers, or has asked every seed and every node that any
  reply named, by address.
  */
  lemma LookupEnds(target: NodeId, seeds: seq<DhtNode>, answers: seq<seq<Found>>)
    ensures var rounds := Lookup(target, seeds, answers).rounds;
            || |rounds| == 10
            || |PeersOfRounds(rounds)| >= 30
            || forall a :: Heard(a, seeds, rounds) ==> Asked(a, rounds)
  {
    var out := Lookup(target, seeds, answers);
    RunEnds(State(seeds, {}, [], []), target, answers, MAX_ITERATIONS);
    LookupIsSound(target, seeds, answers);
    LookupRemembers(target, seeds, answers);
    if |out.rounds| < MAX_ITERATIONS && |out.peers| < ENOUGH_PEERS {
      forall a | Heard(a, seeds, out.rounds) ensures Asked(a, out.rounds) {
        var c :| c in out.candidates && c.addr == a;
        AskedInIsAsked(out.rounds, a);
      }
    }
  }
}
