/**
What every run of the cache protocol keeps whatever the manifests list: names lead to caches of that
name, processes hold caches of their version, and an install puts only what it has fetched. And what
one step can do to one name, one cache and one process.
*/
module ServiceWorkerShape {
  import opened ServiceWorker
  import opened ServiceWorkerRuns

  ghost predicate ProcShaped(w: World, s: State, p: Proc) {
    match p
    case Clearing(v, text) => IsManifest(w, text, v)
    case Opening(v, text) => IsManifest(w, text, v)
    case FetchingFiles(v, text, id) => IsManifest(w, text, v) && IsCacheOf(s, id, v)
    case Putting(v, text, id, files, bodies, i) =>
      Installable(w, text, v, bodies) && IsCacheOf(s, id, v) && files == FilesOf(w, text) && i <= |files| + 1
    case ActivateMatching(v, id) => IsCacheOf(s, id, v)
    case _ => true
  }

  ghost predicate Shaped(w: World, s: State) {
    && NamesOk(s) && Numbered(s)
    && forall pid :: pid in s.procs ==> ProcShaped(w, s, s.procs[pid])
  }

  // ----- one step and the processes -----------------------------------------------------------------

  lemma OthersStay(w: World, s: State, pid: nat, input: Input)
    requires pid in s.procs
    ensures var s' := StepProc(w, s, pid, s.procs[pid], input);
            && (forall q :: q in s'.procs ==> q in s.procs)
            && (forall q :: q in s.procs && q != pid ==> q in s'.procs && s'.procs[q] == s.procs[q])
  {
    var s' := StepProc(w, s, pid, s.procs[pid], input);
    forall q: nat | q != pid ensures (q in s'.procs <==> q in s.procs) && (q in s.procs ==> s'.procs[q] == s.procs[q]) {
      OtherStays(w, s, pid, input, q);
    }
  }

  lemma OtherStays(w: World, s: State, pid: nat, input: Input, q: nat)
    requires pid in s.procs && q != pid
    ensures var s' := StepProc(w, s, pid, s.procs[pid], input);
            (q in s'.procs <==> q in s.procs) && (q in s.procs ==> s'.procs[q] == s.procs[q])
  {
    if q in s.procs { OtherKept(w, s, pid, input, q); } else { OtherAbsent(w, s, pid, input, q); }
  }

  lemma OtherKept(w: World, s: State, pid: nat, input: Input, q: nat)
    requires pid in s.procs && q != pid && q in s.procs
    ensures var s' := StepProc(w, s, pid, s.procs[pid], input); q in s'.procs && s'.procs[q] == s.procs[q]
  {
    if Installs(s.procs[pid]) { KeptByInstall(w, s, pid, input, q); } else { KeptByActivation(w, s, pid, input, q); }
  }

  lemma KeptByInstall(w: World, s: State, pid: nat, input: Input, q: nat)
    requires pid in s.procs && q != pid && q in s.procs && Installs(s.procs[pid])
    ensures var s' := StepProc(w, s, pid, s.procs[pid], input); q in s'.procs && s'.procs[q] == s.procs[q]
  {
  }

  lemma KeptByActivation(w: World, s: State, pid: nat, input: Input, q: nat)
    requires pid in s.procs && q != pid && q in s.procs && !Installs(s.procs[pid])
    ensures var s' := StepProc(w, s, pid, s.procs[pid], input); q in s'.procs && s'.procs[q] == s.procs[q]
  {
  }

  lemma OtherAbsent(w: World, s: State, pid: nat, input: Input, q: nat)
    requires pid in s.procs && q !in s.procs
    ensures q !in StepProc(w, s, pid, s.procs[pid], input).procs
  {
  }

  lemma KindStays(w: World, s: State, pid: nat, input: Input)
    requires pid in s.procs
    ensures var s' := StepProc(w, s, pid, s.procs[pid], input);
            pid in s'.procs ==>
              s'.procs[pid].version == s.procs[pid].version && Installs(s'.procs[pid]) == Installs(s.procs[pid])
  {
  }

  lemma OneEachStays(w: World, s: State, e: Event)
    requires OneEach(s) && OneInstall(s, e)
    ensures OneEach(Apply(w, s, e))
  {
    if e.Advance? && e.pid in s.procs {
      OthersStay(w, s, e.pid, e.input);
      KindStays(w, s, e.pid, e.input);
    }
  }

  // ----- one step and the caches ---------------------------------------------------------------------

  /** What a putting install puts next. */
  function NextPath(p: Proc): string
    requires p.Putting? && |p.files| == |p.bodies|
  {
    if p.i < |p.files| then p.files[p.i].path else if p.i == |p.files| then MANIFEST_PATH else COMPLETE_MARKER
  }

  function NextContent(p: Proc): Content
    requires p.Putting? && |p.files| == |p.bodies|
  {
    if p.i < |p.files| then p.bodies[p.i] else if p.i == |p.files| then Text(p.text) else Text(p.version)
  }

  /** The step of this process puts an entry. */
  predicate Puts(p: Proc, input: Input) { p.Putting? && !input.Fails? }

  /** A step puts one entry into the cache of a putting install, or leaves a cache alone, or makes an empty one. */
  lemma StepCache(w: World, s: State, pid: nat, input: Input, id: nat)
    requires Shaped(w, s) && pid in s.procs && id in StepProc(w, s, pid, s.procs[pid], input).caches
    ensures var s', p := StepProc(w, s, pid, s.procs[pid], input), s.procs[pid];
            if id !in s.caches then s'.caches[id].entries == map[]
            else if Puts(p, input) && p.id == id then
              s'.caches[id] == Cache(s.caches[id].name, s.caches[id].entries[NextPath(p) := NextContent(p)])
            else s'.caches[id] == s.caches[id]
  {
    assert ProcShaped(w, s, s.procs[pid]);
    if Installs(s.procs[pid]) { InstallCache(w, s, pid, input, id); } else { ActivationCache(w, s, pid, input, id); }
  }

  lemma InstallCache(w: World, s: State, pid: nat, input: Input, id: nat)
    requires NamesOk(s) && Numbered(s) && pid in s.procs && id in StepProc(w, s, pid, s.procs[pid], input).caches
    requires ProcShaped(w, s, s.procs[pid]) && Installs(s.procs[pid])
    ensures var s', p := StepProc(w, s, pid, s.procs[pid], input), s.procs[pid];
            if id !in s.caches then s'.caches[id].entries == map[]
            else if Puts(p, input) && p.id == id then
              s'.caches[id] == Cache(s.caches[id].name, s.caches[id].entries[NextPath(p) := NextContent(p)])
            else s'.caches[id] == s.caches[id]
  {
  }

  lemma ActivationCache(w: World, s: State, pid: nat, input: Input, id: nat)
    requires NamesOk(s) && Numbered(s) && pid in s.procs && id in StepProc(w, s, pid, s.procs[pid], input).caches && !Installs(s.procs[pid])
    ensures var s' := StepProc(w, s, pid, s.procs[pid], input);
            if id !in s.caches then s'.caches[id].entries == map[] else s'.caches[id] == s.caches[id]
  {
  }

  /** A name leads where it led, or to a new cache. */
  lemma StepName(w: World, s: State, pid: nat, input: Input, n: string)
    requires Numbered(s) && pid in s.procs && n in StepProc(w, s, pid, s.procs[pid], input).names
    ensures var s' := StepProc(w, s, pid, s.procs[pid], input);
            s'.names[n] in s.caches ==> n in s.names && s.names[n] == s'.names[n]
  {
  }

  /** Caches are never lost or renamed and entries are only added or replaced. */
  ghost predicate Grows(s: State, s': State) {
    forall id :: id in s.caches ==>
      id in s'.caches && s'.caches[id].name == s.caches[id].name && s.caches[id].entries.Keys <= s'.caches[id].entries.Keys
  }

  lemma StepGrows(w: World, s: State, e: Event)
    requires Numbered(s)
    ensures Grows(s, Apply(w, s, e))
  {
    forall id | id in s.caches
      ensures var s' := Apply(w, s, e);
              id in s'.caches && s'.caches[id].name == s.caches[id].name && s.caches[id].entries.Keys <= s'.caches[id].entries.Keys
    {
      CacheGrows(w, s, e, id);
    }
  }

  lemma CacheGrows(w: World, s: State, e: Event, id: nat)
    requires id in s.caches && id < s.next
    ensures var s' := Apply(w, s, e);
            id in s'.caches && s'.caches[id].name == s.caches[id].name && s.caches[id].entries.Keys <= s'.caches[id].entries.Keys
  {
  }

  lemma GrowsOn(r: State, s: State, t: State)
    requires Grows(r, s) && Grows(s, t)
    ensures Grows(r, t)
  {
    forall id | id in r.caches ensures r.caches[id].entries.Keys <= t.caches[id].entries.Keys {
      assert r.caches[id].entries.Keys <= s.caches[id].entries.Keys;
    }
  }

  // ----- one step keeps the shape ---------------------------------------------------------------------

  lemma ShapedOn(w: World, s: State, s': State, p: Proc)
    requires Grows(s, s') && ProcShaped(w, s, p)
    ensures ProcShaped(w, s', p)
  {
  }

  lemma OwnShaped(w: World, s: State, pid: nat, input: Input)
    requires Shaped(w, s) && pid in s.procs
    ensures var s' := StepProc(w, s, pid, s.procs[pid], input); pid in s'.procs ==> ProcShaped(w, s', s'.procs[pid])
  {
    assert ProcShaped(w, s, s.procs[pid]);
  }

  lemma NamesStayOk(w: World, s: State, pid: nat, input: Input)
    requires NamesOk(s) && Numbered(s) && pid in s.procs
    ensures var s' := StepProc(w, s, pid, s.procs[pid], input); NamesOk(s') && Numbered(s')
  {
    if Installs(s.procs[pid]) { NamesOkByInstall(w, s, pid, input); } else { NamesOkByActivation(w, s, pid, input); }
  }

  lemma NamesOkByInstall(w: World, s: State, pid: nat, input: Input)
    requires NamesOk(s) && Numbered(s) && pid in s.procs && Installs(s.procs[pid])
    ensures var s' := StepProc(w, s, pid, s.procs[pid], input); NamesOk(s') && Numbered(s')
  {
  }

  lemma NamesOkByActivation(w: World, s: State, pid: nat, input: Input)
    requires NamesOk(s) && Numbered(s) && pid in s.procs && !Installs(s.procs[pid])
    ensures var s' := StepProc(w, s, pid, s.procs[pid], input); NamesOk(s') && Numbered(s')
  {
  }

  lemma StepShaped(w: World, s: State, e: Event)
    requires Shaped(w, s)
    ensures Shaped(w, Apply(w, s, e))
  {
    var s' := Apply(w, s, e);
    StepGrows(w, s, e);
    if e.Advance? && e.pid in s.procs {
      NamesStayOk(w, s, e.pid, e.input);
      OthersStay(w, s, e.pid, e.input);
      OwnShaped(w, s, e.pid, e.input);
    }
    forall q | q in s'.procs ensures ProcShaped(w, s', s'.procs[q]) {
      if q in s.procs && s'.procs[q] == s.procs[q] { ShapedOn(w, s, s', s.procs[q]); }
    }
  }

  lemma {:induction false} EveryRunIsShaped(w: World, s: State, h: History)
    requires Initial(s)
    ensures Shaped(w, Run(w, s, h))
  {
    if h.After? {
      EveryRunIsShaped(w, s, h.before);
      StepShaped(w, Run(w, s, h.before), h.event);
    }
  }

  /** A cache only grows in the course of a run, whatever happens to its name. */
  lemma {:induction false} RunGrows(w: World, s: State, g: History, h: History)
    requires Initial(s) && Earlier(g, h)
    ensures Grows(Run(w, s, g), Run(w, s, h))
    decreases h
  {
    if g != h {
      RunGrows(w, s, g, h.before);
      EveryRunIsShaped(w, s, h.before);
      StepGrows(w, Run(w, s, h.before), h.event);
      GrowsOn(Run(w, s, g), Run(w, s, h.before), Run(w, s, h));
    }
  }
}
