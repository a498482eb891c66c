/** Installs that fail and activations, each with nothing else running between its steps. */
module ServiceWorkerAlone {
  import opened Basics
  import opened ServiceWorker
  import opened ServiceWorkerRuns

  // ----- which files are put ---------------------------------------------------------------------------

  /** The files go into the cache in the order in which the manifest lists them, all but the worker itself. */
  lemma {:induction false} ToCacheJoin(files: seq<Listed>, more: seq<Listed>)
    ensures ToCache(files + more) == ToCache(files) + ToCache(more)
    decreases |files|
  {
    if files == [] {
      assert files + more == more;
    } else {
      ToCacheJoin(files[1..], more);
      assert (files + more)[1..] == files[1..] + more && (files + more)[0] == files[0];
      Regroup(if files[0].rel == NOT_CACHED then [] else [files[0]], ToCache(files[1..]), ToCache(more));
    }
  }

  lemma ToCacheOne(f: Listed)
    ensures ToCache([f]) == if f.rel == "sw.js" then [] else [f]
  {
    assert [f][1..] == [];
  }

  // ----- an install that fails ---------------------------------------------------------------------------

  /** All is as before, but for caches that no name leads to, and one name, which leads nowhere. */
  ghost predicate OnlyNameGone(s: State, t: State, name: string) {
    && t.names == s.names - {name} && t.procs == s.procs
    && forall id :: id in s.caches ==> id in t.caches && t.caches[id] == s.caches[id]
  }

  /** Without a manifest of its own version an install changes nothing at all. */
  lemma WrongManifestChangesNothing(w: World, s: State, h: History, pid: nat, v: string, answer: Input)
    requires pid !in Run(w, s, h).procs && !(answer.Answer? && IsManifest(w, answer.text, v))
    ensures Run(w, s, After(After(h, BeginInstall(pid, v)), Advance(pid, answer))) == Run(w, s, h)
  {
    var r := Run(w, s, h);
    assert Run(w, s, After(h, BeginInstall(pid, v))) == Goes(r, pid, FetchingManifest(v));
    assert r.procs[pid := FetchingManifest(v)] - {pid} == r.procs;
  }

  /** What is put into a new cache goes with its name. */
  lemma RollsBack(w: World, r: State, pid: nat, v: string, e: map<string, Content>, input: Input)
    requires Numbered(r) && pid !in r.procs
    ensures OnlyNameGone(r, Apply(w, Goes(Renewed(r, v, e), pid, RollingBack(v)), Advance(pid, input)), NameOf(v))
  {
    var t := Apply(w, Goes(Renewed(r, v, e), pid, RollingBack(v)), Advance(pid, input));
    assert t.names == r.names[NameOf(v) := r.next] - {NameOf(v)} == r.names - {NameOf(v)};
    assert t.procs == r.procs;
    assert forall id :: id in r.caches ==> id != r.next;
  }

  /** An install up to the opening of its cache. */
  function Opened(h: History, pid: nat, v: string, text: string): History {
    After(After(After(After(h, BeginInstall(pid, v)), Advance(pid, Answer(text))), Advance(pid, Works)), Advance(pid, Works))
  }

  lemma OpenedRuns(w: World, s: State, h: History, pid: nat, v: string, text: string)
    requires pid !in Run(w, s, h).procs && IsManifest(w, text, v)
    ensures var r := Run(w, s, h);
            Run(w, s, Opened(h, pid, v, text)) == Goes(Renewed(r, v, map[]), pid, FetchingFiles(v, text, r.next))
  {
    var h1 := After(After(h, BeginInstall(pid, v)), Advance(pid, Answer(text)));
    var h2 := After(h1, Advance(pid, Works));
    AskedRuns(w, s, h, pid, v, text);
    assert Run(w, s, h2) == Apply(w, Run(w, s, h1), Advance(pid, Works));
    assert Run(w, s, After(h2, Advance(pid, Works))) == Apply(w, Run(w, s, h2), Advance(pid, Works));
    ClearsAndOpens(w, Run(w, s, h), pid, v, text);
  }

  lemma GoesTwice(s: State, pid: nat, p: Proc, q: Proc)
    ensures Goes(Goes(s, pid, p), pid, q) == Goes(s, pid, q)
  {
    assert s.procs[pid := p][pid := q] == s.procs[pid := q];
  }

  /** An install without all its files, each with its hash, takes its own name away and nothing else. */
  lemma WrongFilesRollBack(w: World, s: State, h: History, pid: nat, v: string, text: string, answer: Input, input: Input)
    requires pid !in Run(w, s, h).procs && Numbered(Run(w, s, h)) && IsManifest(w, text, v)
    requires !(answer.Bodies? && AllMatch(w, FilesOf(w, text), answer.bodies))
    ensures OnlyNameGone(Run(w, s, h), Run(w, s, After(After(Opened(h, pid, v, text), Advance(pid, answer)), Advance(pid, input))), NameOf(v))
  {
    var r := Run(w, s, h);
    var o := Opened(h, pid, v, text);
    var t := Renewed(r, v, map[]);
    OpenedRuns(w, s, h, pid, v, text);
    assert Run(w, s, After(o, Advance(pid, answer))) == Goes(t, pid, RollingBack(v)) by {
      GoesTwice(t, pid, FetchingFiles(v, text, r.next), RollingBack(v));
    }
    RollsBack(w, r, pid, v, map[], input);
  }

  /** An install one of whose writes fails, whichever, takes its own name away and nothing else. */
  lemma FailedPutRollsBack(w: World, s: State, h: History, pid: nat, v: string, text: string, bodies: seq<Content>, n: nat, input: Input)
    requires pid !in Run(w, s, h).procs && Numbered(Run(w, s, h)) && Installable(w, text, v, bodies) && n <= |bodies| + 1
    ensures OnlyNameGone(Run(w, s, h),
              Run(w, s, After(After(Working(Fetched(h, pid, v, text, bodies), pid, n), Advance(pid, Fails)), Advance(pid, input))), NameOf(v))
  {
    var r := Run(w, s, h);
    var g := Working(Fetched(h, pid, v, text, bodies), pid, n);
    var e, p := PutSoFar(w, s, h, pid, v, text, bodies, n);
    FailsThen(w, s, g, r, pid, v, e, p);
    RollsBack(w, r, pid, v, e, input);
  }

  lemma FailsThen(w: World, s: State, g: History, r: State, pid: nat, v: string, e: map<string, Content>, p: Proc)
    requires Run(w, s, g) == Goes(Renewed(r, v, e), pid, p) && p.Putting? && p.version == v
    ensures Run(w, s, After(g, Advance(pid, Fails))) == Goes(Renewed(r, v, e), pid, RollingBack(v))
  {
    GoesTwice(Renewed(r, v, e), pid, p, RollingBack(v));
  }

  lemma PutSoFar(w: World, s: State, h: History, pid: nat, v: string, text: string, bodies: seq<Content>, n: nat) returns (e: map<string, Content>, p: Proc)
    requires pid !in Run(w, s, h).procs && Installable(w, text, v, bodies) && n <= |bodies| + 1
    ensures Run(w, s, Working(Fetched(h, pid, v, text, bodies), pid, n)) == Goes(Renewed(Run(w, s, h), v, e), pid, p)
    ensures p.Putting? && p.version == v
  {
    var r, f, files := Run(w, s, h), Fetched(h, pid, v, text, bodies), FilesOf(w, text);
    FetchedRuns(w, s, h, pid, v, text, bodies);
    p := Putting(v, text, r.next, files, bodies, 0);
    if n <= |bodies| {
      PutsRun(w, s, f, pid, p, n);
      e := EntriesAfter(files, bodies, n);
      FilledRenewed(r, pid, v, p, n);
      p := p.(i := n);
    } else {
      FilesPut(w, s, h, pid, v, text, bodies);
      e := EntriesAfter(files, bodies, |bodies|);
      p := p.(i := |bodies|);
      WorkingRuns(w, s, f, pid, n);
      ManifestIsPut(w, r, pid, e, p);
      e, p := e[MANIFEST_PATH := Text(text)], p.(i := n);
    }
  }

  // ----- an activation -----------------------------------------------------------------------------------

  /** An activation up to its look for the marker. */
  function Looked(h: History, pid: nat, v: string): History {
    After(After(After(h, BeginActivate(pid, v)), Advance(pid, Works)), Advance(pid, Works))
  }

  lemma LookedRuns(w: World, s: State, h: History, pid: nat, v: string)
    requires pid !in Run(w, s, h).procs
    ensures var (r, id) := Open(Run(w, s, h), NameOf(v));
            Run(w, s, Looked(h, pid, v)) == if HasMarker(r, id) then Goes(r, pid, ActivateListing(v)) else r
  {
    var r := Run(w, s, h);
    var h0 := After(h, BeginActivate(pid, v));
    var h1 := After(h0, Advance(pid, Works));
    assert Run(w, s, h0) == Goes(r, pid, ActivateOpening(v));
    var (o, id) := Open(r, NameOf(v));
    assert Run(w, s, h1) == Goes(o, pid, ActivateMatching(v, id)) by { OpensAlike(r, pid, ActivateOpening(v), ActivateMatching(v, id), NameOf(v)); }
    GoesTwice(o, pid, ActivateMatching(v, id), ActivateListing(v));
    assert o.procs[pid := ActivateMatching(v, id)] - {pid} == o.procs;
  }

  lemma OpensAlike(r: State, pid: nat, p: Proc, q: Proc, name: string)
    ensures var (o, id) := Open(r, name);
            var (o', id') := Open(Goes(r, pid, p), name);
            id' == id && Goes(o', pid, q) == Goes(o, pid, q)
  {
    assert r.procs[pid := p][pid := q] == r.procs[pid := q];
  }

  /** The activation of a version that is not complete takes nothing away. */
  lemma IncompleteKeepsAll(w: World, s: State, h: History, pid: nat, v: string)
    requires pid !in Run(w, s, h).procs && Numbered(Run(w, s, h)) && !IsComplete(Run(w, s, h), v)
    ensures var (r, t) := (Run(w, s, h), Run(w, s, Looked(h, pid, v)));
            && t.procs == r.procs && !IsComplete(t, v)
            && (forall n :: n in r.names ==> n in t.names && t.names[n] == r.names[n])
            && (forall n :: n in t.names && n !in r.names ==> n == NameOf(v))
            && forall id :: id in r.caches ==> id in t.caches && t.caches[id] == r.caches[id]
  {
    LookedRuns(w, s, h, pid, v);
  }

  /** A process takes these names away, one after the other. */
  function Picking(h: History, pid: nat, names: seq<string>): History {
    if names == [] then h
    else After(Picking(h, pid, names[..|names| - 1]), Advance(pid, Picks(names[|names| - 1])))
  }

  predicate Distinct(names: seq<string>) { forall i, j :: 0 <= i < j < |names| ==> names[i] != names[j] }

  function SetOf(names: seq<string>): set<string> { set n | n in names }

  lemma {:induction false} PickingRuns(w: World, s: State, g: History, r: State, pid: nat, v: string, all: set<string>, names: seq<string>)
    requires Run(w, s, g) == Goes(r, pid, Deleting(v, all)) && Distinct(names) && SetOf(names) <= all
    ensures Run(w, s, Picking(g, pid, names)) == Goes(r.(names := r.names - SetOf(names)), pid, Deleting(v, all - SetOf(names)))
    decreases |names|
  {
    if names == [] {
      assert SetOf(names) == {};
      assert r.names - {} == r.names && all - {} == all;
    } else {
      var init, last := names[..|names| - 1], names[|names| - 1];
      assert names == init + [last];
      assert SetOf(names) == SetOf(init) + {last};
      PickingRuns(w, s, g, r, pid, v, all, init);
      PicksOne(w, r, pid, v, all, SetOf(init), last);
    }
  }

  lemma PicksOne(w: World, r: State, pid: nat, v: string, all: set<string>, gone: set<string>, name: string)
    requires name in all && name !in gone
    ensures Apply(w, Goes(r.(names := r.names - gone), pid, Deleting(v, all - gone)), Advance(pid, Picks(name))) ==
            Goes(r.(names := r.names - (gone + {name})), pid, Deleting(v, all - (gone + {name})))
  {
    assert r.names - gone - {name} == r.names - (gone + {name});
    assert all - gone - {name} == all - (gone + {name});
    GoesTwice(r.(names := r.names - (gone + {name})), pid, Deleting(v, all - gone), Deleting(v, all - (gone + {name})));
  }

  /**
  The activation of a complete version, in whatever order it takes the other names away, leaves that
  one name, leading where it led, and every cache as it was.
  */
  lemma CompleteStandsAlone(w: World, s: State, h: History, pid: nat, v: string, others: seq<string>)
    requires pid !in Run(w, s, h).procs && IsComplete(Run(w, s, h), v)
    requires Distinct(others) && SetOf(others) == Run(w, s, h).names.Keys - {"miasma-web-" + v}
    ensures var (r, t) := (Run(w, s, h), Run(w, s, Picking(After(Looked(h, pid, v), Advance(pid, Works)), pid, others)));
            && t.names == map["miasma-web-" + v := r.names["miasma-web-" + v]] && t.caches == r.caches && t.next == r.next
            && t.procs == r.procs[pid := Deleting(v, {})] && IsComplete(t, v)
  {
    var r := Run(w, s, h);
    var all := r.names.Keys - {NameOf(v)};
    var g := After(Looked(h, pid, v), Advance(pid, Works));
    LookedRuns(w, s, h, pid, v);
    assert Run(w, s, g) == Goes(r, pid, Deleting(v, all)) by { GoesTwice(r, pid, ActivateListing(v), Deleting(v, all)); }
    PickingRuns(w, s, g, r, pid, v, all, others);
    assert r.names - all == map[NameOf(v) := r.names[NameOf(v)]];
    assert all - all == {};
  }

  // ----- stopping ---------------------------------------------------------------------------------------

  /** A process that was stopped takes no further step, whatever it waited for; no other process and no cache notices. */
  lemma StoppedStaysStopped(w: World, s: State, h: History, pid: nat, input: Input)
    ensures var (r, t) := (Run(w, s, h), Run(w, s, After(h, Stop(pid))));
            && t.names == r.names && t.caches == r.caches && t.next == r.next && pid !in t.procs
            && (forall q :: q != pid ==> (q in t.procs <==> q in r.procs) && (q in r.procs ==> t.procs[q] == r.procs[q]))
            && Run(w, s, After(After(h, Stop(pid)), Advance(pid, input))) == t
  {
  }

  // ----- the offline answer ----------------------------------------------------------------------------------

  /** Nothing is answered without the marker; else what is stored, and for a page that is not stored what is stored for the index. */
  lemma AnswersAre(s: State, v: string, path: string)
    requires NamesOk(s)
    ensures CachedResponse(s, v, path, false).Some? <==>
            && "miasma-web-" + v in s.names
            && var e := s.caches[s.names["miasma-web-" + v]].entries; "__complete" in e && path in e
    ensures CachedResponse(s, v, path, false).Some? ==>
              CachedResponse(s, v, path, false).value == s.caches[s.names["miasma-web-" + v]].entries[path]
    ensures CachedResponse(s, v, path, true) ==
            if CachedResponse(s, v, path, false).Some? then CachedResponse(s, v, path, false)
            else CachedResponse(s, v, "index.html", false)
  {
  }
}
