/**
When a complete cache is left to fall back on. A step takes the last one away exactly when it deletes
the only usable name. Installs and activations may overlap; if no two activations run at once, no two
installs of one version run at once, and no install begins for a version that is complete, then that
never happens exactly when no manifest whose files can be fetched lists the marker; without any one of
the three it does, whatever the manifests list.
*/
module ServiceWorkerFallback {
  import opened ServiceWorker
  import opened ServiceWorkerRuns
  import opened ServiceWorkerShape

  ghost predicate Usable(s: State, n: string) { n in s.names && HasMarker(s, s.names[n]) }

  ghost predicate HasFallback(s: State) { exists n :: Usable(s, n) }

  ghost predicate Orderly(s: State, e: Event) { NotComplete(s, e) && OneInstall(s, e) && OneActivation(s, e) }

  // ----- the invariant ----------------------------------------------------------------------------------

  predicate LeadsTo(s: State, v: string, id: nat) { NameOf(v) in s.names && s.names[NameOf(v)] == id }

  /** The cache is out of reach: no name leads to it, it carries no marker, and nobody will write to it. */
  ghost predicate Detached(s: State, v: string, id: nat) {
    !LeadsTo(s, v, id) && !HasMarker(s, id) && forall pid :: pid in s.procs ==> !Writes(s.procs[pid], id)
  }

  /** What an activation relies on. */
  ghost predicate Relies(s: State, p: Proc) {
    match p
    case ActivateMatching(v, id) => LeadsTo(s, v, id) || Detached(s, v, id)
    case ActivateListing(v) => IsComplete(s, v)
    case Deleting(v, rest) => IsComplete(s, v) && NameOf(v) !in rest
    case _ => true
  }

  ghost predicate Calm(s: State) {
    && (forall p, q :: p in s.procs && q in s.procs && p != q ==> Installs(s.procs[p]) || Installs(s.procs[q]))
    && OneEach(s)
    && (forall p :: p in s.procs && Installs(s.procs[p]) ==> !IsComplete(s, s.procs[p].version))
    && (forall p :: p in s.procs ==> Relies(s, s.procs[p]))
  }

  // ----- what a step can do -------------------------------------------------------------------------------

  lemma NotTheMarker(w: World, text: string, v: string, bodies: seq<Content>)
    requires NoneListsMarker(w) && Installable(w, text, v, bodies)
    ensures var files := FilesOf(w, text); forall k :: 0 <= k < |files| ==> files[k].path != COMPLETE_MARKER
  {
    var files := FilesOf(w, text);
    forall k | 0 <= k < |files| ensures files[k].path != COMPLETE_MARKER { assert files[k] in files; }
  }

  /** Only the last step of an install makes a cache usable, and it ends the install. */
  lemma GainedByInstall(w: World, s: State, pid: nat, input: Input, v: string)
    requires NoneListsMarker(w) && Shaped(w, s) && pid in s.procs && !IsComplete(s, v)
    requires IsComplete(StepProc(w, s, pid, s.procs[pid], input), v)
    ensures s.procs[pid].Putting? && s.procs[pid].version == v && pid !in StepProc(w, s, pid, s.procs[pid], input).procs
  {
    var p := s.procs[pid];
    assert ProcShaped(w, s, p);
    if p.Putting? {
      NotTheMarker(w, p.text, p.version, p.bodies);
      if NameOf(p.version) == NameOf(v) { NameOfInjective(p.version, v); }
    }
  }

  /** A name is taken away only by an install of its version, or by an activation that has listed it. */
  lemma LostTo(w: World, s: State, pid: nat, input: Input, n: string)
    requires NamesOk(s) && Numbered(s) && pid in s.procs && Usable(s, n)
    requires !Usable(StepProc(w, s, pid, s.procs[pid], input), n)
    ensures var p := s.procs[pid];
            (Installs(p) && n == NameOf(p.version)) || (p.Deleting? && n in p.rest)
  {
    if Installs(s.procs[pid]) { LostToInstall(w, s, pid, input, n); } else { LostToActivation(w, s, pid, input, n); }
  }

  lemma LostToInstall(w: World, s: State, pid: nat, input: Input, n: string)
    requires NamesOk(s) && Numbered(s) && pid in s.procs && Usable(s, n) && Installs(s.procs[pid])
    requires !Usable(StepProc(w, s, pid, s.procs[pid], input), n)
    ensures n == NameOf(s.procs[pid].version)
  {
  }

  lemma LostToActivation(w: World, s: State, pid: nat, input: Input, n: string)
    requires NamesOk(s) && Numbered(s) && pid in s.procs && Usable(s, n) && !Installs(s.procs[pid])
    requires !Usable(StepProc(w, s, pid, s.procs[pid], input), n)
    ensures s.procs[pid].Deleting? && n in s.procs[pid].rest
  {
  }

  // ----- when the last one is lost -------------------------------------------------------------------------

  /** The step deletes the name: an install that clears or rolls back its own, or an activation that picks a listed one. */
  ghost predicate Takes(p: Proc, input: Input, n: string) {
    || ((p.Clearing? || p.RollingBack?) && n == NameOf(p.version))
    || (p.Deleting? && input == Picks(n) && n in p.rest)
  }

  ghost predicate OnlyUsable(s: State, n: string) { Usable(s, n) && forall m :: Usable(s, m) ==> m == n }

  lemma TakenIsLost(w: World, s: State, pid: nat, input: Input, n: string)
    requires pid in s.procs && Takes(s.procs[pid], input, n)
    ensures n !in StepProc(w, s, pid, s.procs[pid], input).names
  {
  }

  lemma LostIsTaken(w: World, s: State, pid: nat, input: Input, n: string)
    requires NamesOk(s) && Numbered(s) && pid in s.procs && Usable(s, n) && !Usable(StepProc(w, s, pid, s.procs[pid], input), n)
    ensures Takes(s.procs[pid], input, n)
  {
    LostTo(w, s, pid, input, n);
    if Installs(s.procs[pid]) { InstallTakes(w, s, pid, input, n); } else { ActivationTakes(w, s, pid, input, n); }
  }

  lemma InstallTakes(w: World, s: State, pid: nat, input: Input, n: string)
    requires NamesOk(s) && Numbered(s) && pid in s.procs && Installs(s.procs[pid]) && Usable(s, n)
    requires !Usable(StepProc(w, s, pid, s.procs[pid], input), n)
    ensures s.procs[pid].Clearing? || s.procs[pid].RollingBack?
  {
    if !s.procs[pid].Clearing? && !s.procs[pid].RollingBack? { StaysUsable(w, s, pid, input, n); assert false; }
  }

  lemma StaysUsable(w: World, s: State, pid: nat, input: Input, n: string)
    requires NamesOk(s) && Numbered(s) && pid in s.procs && Usable(s, n)
    requires Installs(s.procs[pid]) && !s.procs[pid].Clearing? && !s.procs[pid].RollingBack?
    ensures Usable(StepProc(w, s, pid, s.procs[pid], input), n)
  {
  }

  lemma ActivationTakes(w: World, s: State, pid: nat, input: Input, n: string)
    requires pid in s.procs && s.procs[pid].Deleting? && n in s.procs[pid].rest && Usable(s, n)
    requires !Usable(StepProc(w, s, pid, s.procs[pid], input), n)
    ensures input == Picks(n)
  {
  }

  /** A step that takes a name away makes no other usable. */
  lemma TakingGivesNothing(w: World, s: State, pid: nat, input: Input, n: string, m: string)
    requires NamesOk(s) && Numbered(s) && pid in s.procs && Takes(s.procs[pid], input, n)
    requires Usable(StepProc(w, s, pid, s.procs[pid], input), m)
    ensures Usable(s, m)
  {
  }

  lemma LastLostExactlyWhen(w: World, s: State, pid: nat, input: Input)
    requires NamesOk(s) && Numbered(s) && HasFallback(s) && pid in s.procs
    ensures !HasFallback(StepProc(w, s, pid, s.procs[pid], input)) <==>
            exists n :: OnlyUsable(s, n) && Takes(s.procs[pid], input, n)
  {
    var s' := StepProc(w, s, pid, s.procs[pid], input);
    if n :| OnlyUsable(s, n) && Takes(s.procs[pid], input, n) {
      TakenIsLost(w, s, pid, input, n);
      forall m ensures !Usable(s', m) {
        if Usable(s', m) { TakingGivesNothing(w, s, pid, input, n, m); assert false; }
      }
    }
    if !HasFallback(s') {
      var n :| Usable(s, n);
      LostIsTaken(w, s, pid, input, n);
      forall m | Usable(s, m) ensures m == n { LostIsTaken(w, s, pid, input, m); }
      assert OnlyUsable(s, n);
    }
  }

  /**
  In every run, whatever overlaps, an event leaves no complete cache where there was one exactly when
  it is the step of a process that deletes the only usable name.
  */
  lemma FallbackLostExactlyWhen(w: World, s: State, h: History, e: Event)
    requires Initial(s) && HasFallback(Run(w, s, h))
    ensures var t := Run(w, s, h);
            !HasFallback(Run(w, s, After(h, e))) <==>
            e.Advance? && e.pid in t.procs && exists n :: OnlyUsable(t, n) && Takes(t.procs[e.pid], e.input, n)
  {
    EveryRunIsShaped(w, s, h);
    var t := Run(w, s, h);
    if e.Advance? && e.pid in t.procs {
      LastLostExactlyWhen(w, t, e.pid, e.input);
    } else {
      SameCaches(t, Run(w, s, After(h, e)));
    }
  }

  lemma MarkedByWriter(w: World, s: State, pid: nat, input: Input, id: nat)
    requires Shaped(w, s) && pid in s.procs && id in s.caches && !HasMarker(s, id)
    requires HasMarker(StepProc(w, s, pid, s.procs[pid], input), id)
    ensures Writes(s.procs[pid], id)
  {
  }

  lemma WriterOpened(w: World, s: State, pid: nat, input: Input, id: nat)
    requires Shaped(w, s) && pid in s.procs && !Writes(s.procs[pid], id) && id in s.caches
    requires var s' := StepProc(w, s, pid, s.procs[pid], input); pid in s'.procs && Writes(s'.procs[pid], id)
    ensures s.procs[pid].Opening? && LeadsTo(s, s.procs[pid].version, id)
  {
  }

  // ----- one step keeps it calm ---------------------------------------------------------------------------

  lemma CompleteStays(w: World, s: State, pid: nat, input: Input, v: string)
    requires Shaped(w, s) && Calm(s) && pid in s.procs && IsComplete(s, v)
    requires s.procs[pid].Deleting? ==> NameOf(v) !in s.procs[pid].rest
    ensures IsComplete(StepProc(w, s, pid, s.procs[pid], input), v)
  {
    var s' := StepProc(w, s, pid, s.procs[pid], input);
    assert Usable(s, NameOf(v));
    if !Usable(s', NameOf(v)) {
      LostTo(w, s, pid, input, NameOf(v));
      NameOfInjective(s.procs[pid].version, v);
      assert false;
    }
  }

  lemma FallbackStep(w: World, s: State, pid: nat, input: Input)
    requires Shaped(w, s) && Calm(s) && pid in s.procs && HasFallback(s)
    ensures HasFallback(StepProc(w, s, pid, s.procs[pid], input))
  {
    var s' := StepProc(w, s, pid, s.procs[pid], input);
    var p := s.procs[pid];
    if p.Deleting? {
      assert Relies(s, p);
      CompleteStays(w, s, pid, input, p.version);
      assert Usable(s', NameOf(p.version));
    } else {
      var n :| Usable(s, n);
      if !Usable(s', n) { LostTo(w, s, pid, input, n); assert false; }
    }
  }

  lemma StaysDetached(w: World, s: State, pid: nat, input: Input, v: string, id: nat)
    requires Shaped(w, s) && pid in s.procs && IsCacheOf(s, id, v) && Detached(s, v, id)
    ensures Detached(StepProc(w, s, pid, s.procs[pid], input), v, id)
  {
    var s' := StepProc(w, s, pid, s.procs[pid], input);
    OthersStay(w, s, pid, input);
    if LeadsTo(s', v, id) { StepName(w, s, pid, input, NameOf(v)); assert false; }
    if HasMarker(s', id) { MarkedByWriter(w, s, pid, input, id); assert false; }
    if pid in s'.procs && Writes(s'.procs[pid], id) {
      WriterOpened(w, s, pid, input, id);
      assert false;
    }
  }

  lemma UnlinkedBy(w: World, s: State, pid: nat, input: Input, v: string, id: nat)
    requires Shaped(w, s) && pid in s.procs && Installs(s.procs[pid]) && LeadsTo(s, v, id)
    requires !LeadsTo(StepProc(w, s, pid, s.procs[pid], input), v, id)
    ensures var s' := StepProc(w, s, pid, s.procs[pid], input);
            s.procs[pid].version == v && s'.caches == s.caches && (pid in s'.procs ==> !Writes(s'.procs[pid], id))
  {
    var p := s.procs[pid];
    if NameOf(p.version) == NameOf(v) { NameOfInjective(p.version, v); }
  }

  /** An install that clears the name an activation has opened leaves that cache behind for good. */
  lemma BecomesDetached(w: World, s: State, pid: nat, input: Input, v: string, id: nat)
    requires Shaped(w, s) && Calm(s) && pid in s.procs && Installs(s.procs[pid]) && LeadsTo(s, v, id)
    requires !LeadsTo(StepProc(w, s, pid, s.procs[pid], input), v, id)
    ensures Detached(StepProc(w, s, pid, s.procs[pid], input), v, id)
  {
    var s' := StepProc(w, s, pid, s.procs[pid], input);
    UnlinkedBy(w, s, pid, input, v, id);
    OthersStay(w, s, pid, input);
    forall q | q in s'.procs && q != pid ensures !Writes(s'.procs[q], id) {
      assert ProcShaped(w, s, s.procs[q]);
      if Writes(s.procs[q], id) {
        NameOfInjective(s.procs[q].version, v);
        assert false;
      }
    }
  }

  /** What the running activation relies on is not taken from it by an install. */
  lemma ReliesStays(w: World, s: State, pid: nat, input: Input, q: nat)
    requires Shaped(w, s) && Calm(s) && pid in s.procs && q in s.procs && q != pid
    ensures Relies(StepProc(w, s, pid, s.procs[pid], input), s.procs[q])
  {
    var s' := StepProc(w, s, pid, s.procs[pid], input);
    var p := s.procs[q];
    assert ProcShaped(w, s, p) && Relies(s, p);
    if p.ActivateMatching? {
      if Detached(s, p.version, p.id) {
        StaysDetached(w, s, pid, input, p.version, p.id);
      } else if !LeadsTo(s', p.version, p.id) {
        BecomesDetached(w, s, pid, input, p.version, p.id);
      }
    } else if p.ActivateListing? || p.Deleting? {
      CompleteStays(w, s, pid, input, p.version);
    }
  }

  lemma OwnRelies(w: World, s: State, pid: nat, input: Input)
    requires Shaped(w, s) && Calm(s) && pid in s.procs
    ensures var s' := StepProc(w, s, pid, s.procs[pid], input);
            pid in s'.procs ==> Relies(s', s'.procs[pid])
  {
    assert Relies(s, s.procs[pid]);
  }

  lemma InstallsStayIncomplete(w: World, s: State, pid: nat, input: Input, q: nat)
    requires NoneListsMarker(w) && Shaped(w, s) && Calm(s) && pid in s.procs
    requires var s' := StepProc(w, s, pid, s.procs[pid], input); q in s'.procs && Installs(s'.procs[q])
    ensures var s' := StepProc(w, s, pid, s.procs[pid], input); !IsComplete(s', s'.procs[q].version)
  {
    var s' := StepProc(w, s, pid, s.procs[pid], input);
    OthersStay(w, s, pid, input);
    KindStays(w, s, pid, input);
    if IsComplete(s', s'.procs[q].version) {
      GainedByInstall(w, s, pid, input, s'.procs[q].version);
      assert false;
    }
  }

  lemma AdvanceKeepsCalm(w: World, s: State, pid: nat, input: Input)
    requires NoneListsMarker(w) && Shaped(w, s) && Calm(s) && pid in s.procs
    ensures Calm(StepProc(w, s, pid, s.procs[pid], input))
  {
    var s' := StepProc(w, s, pid, s.procs[pid], input);
    OthersStay(w, s, pid, input);
    KindStays(w, s, pid, input);
    forall q | q in s'.procs && Installs(s'.procs[q]) ensures !IsComplete(s', s'.procs[q].version) {
      InstallsStayIncomplete(w, s, pid, input, q);
    }
    forall q | q in s'.procs ensures Relies(s', s'.procs[q]) {
      if q == pid { OwnRelies(w, s, pid, input); } else { ReliesStays(w, s, pid, input, q); }
    }
  }

  lemma BeginKeepsCalm(s: State, pid: nat, p: Proc)
    requires Calm(s) && pid !in s.procs && (p.FetchingManifest? || p.ActivateOpening?)
    requires p.FetchingManifest? ==> Orderly(s, BeginInstall(pid, p.version))
    requires p.ActivateOpening? ==> Orderly(s, BeginActivate(pid, p.version))
    ensures Calm(Goes(s, pid, p))
  {
    var s' := Goes(s, pid, p);
    forall q | q in s'.procs ensures Relies(s', s'.procs[q]) {
      if q != pid { assert Relies(s, s.procs[q]); }
    }
  }

  lemma StopKeepsCalm(s: State, pid: nat)
    requires Calm(s)
    ensures Calm(Ends(s, pid))
  {
    var s' := Ends(s, pid);
    forall q | q in s'.procs ensures Relies(s', s'.procs[q]) { assert Relies(s, s.procs[q]); }
  }

  lemma SameCaches(s: State, s': State)
    requires s'.names == s.names && s'.caches == s.caches && HasFallback(s)
    ensures HasFallback(s')
  {
    var n :| Usable(s, n);
    assert Usable(s', n);
  }

  /** Still calm, and not without a fallback if there was one. */
  ghost predicate Kept(s: State, s': State) { Calm(s') && (HasFallback(s) ==> HasFallback(s')) }

  lemma AdvanceKept(w: World, s: State, pid: nat, input: Input)
    requires NoneListsMarker(w) && Shaped(w, s) && Calm(s) && pid in s.procs
    ensures Kept(s, StepProc(w, s, pid, s.procs[pid], input))
  {
    AdvanceKeepsCalm(w, s, pid, input);
    if HasFallback(s) { FallbackStep(w, s, pid, input); }
  }

  lemma BeginKept(s: State, pid: nat, p: Proc)
    requires Calm(s) && pid !in s.procs && (p.FetchingManifest? || p.ActivateOpening?)
    requires p.FetchingManifest? ==> Orderly(s, BeginInstall(pid, p.version))
    requires p.ActivateOpening? ==> Orderly(s, BeginActivate(pid, p.version))
    ensures Kept(s, Goes(s, pid, p))
  {
    BeginKeepsCalm(s, pid, p);
    if HasFallback(s) { SameCaches(s, Goes(s, pid, p)); }
  }

  lemma StopKept(s: State, pid: nat)
    requires Calm(s)
    ensures Kept(s, Ends(s, pid))
  {
    StopKeepsCalm(s, pid);
    if HasFallback(s) { SameCaches(s, Ends(s, pid)); }
  }

  lemma OrderlyStep(w: World, s: State, e: Event)
    requires NoneListsMarker(w) && Shaped(w, s) && Calm(s) && Orderly(s, e)
    ensures Kept(s, Apply(w, s, e))
  {
    match e
    case BeginInstall(pid, v) => if pid !in s.procs { BeginKept(s, pid, FetchingManifest(v)); }
    case BeginActivate(pid, v) => if pid !in s.procs { BeginKept(s, pid, ActivateOpening(v)); }
    case Advance(pid, input) => if pid in s.procs { AdvanceKept(w, s, pid, input); }
    case Stop(pid) => StopKept(s, pid);
  }

  // ----- every orderly run ------------------------------------------------------------------------------

  lemma {:induction false} OrderlyIsCalm(w: World, s: State, h: History)
    requires NoneListsMarker(w) && Initial(s) && Keeps(w, s, h, Orderly)
    ensures Calm(Run(w, s, h))
    ensures h.After? && HasFallback(Run(w, s, h.before)) ==> HasFallback(Run(w, s, h))
  {
    if h.After? {
      OrderlyIsCalm(w, s, h.before);
      EveryRunIsShaped(w, s, h.before);
      OrderlyStep(w, Run(w, s, h.before), h.event);
    }
  }

  /** From the first complete cache on there is always one, however the processes overlap and wherever they stop. */
  lemma {:induction false} FallbackStays(w: World, s: State, g: History, h: History)
    requires NoneListsMarker(w) && Initial(s) && Keeps(w, s, h, Orderly)
    requires Earlier(g, h) && HasFallback(Run(w, s, g))
    ensures HasFallback(Run(w, s, h))
    decreases h
  {
    if g != h {
      FallbackStays(w, s, g, h.before);
      OrderlyIsCalm(w, s, h);
    }
  }

  // ----- each condition is needed ---------------------------------------------------------------------

  lemma NothingUsable(s: State, n: string)
    requires Initial(s)
    ensures !Usable(s, n)
  {
  }

  lemma RenewedUsable(s: State, v: string, e: map<string, Content>, n: string)
    requires NamesOk(s) && Numbered(s) && COMPLETE_MARKER in e
    ensures NamesOk(Renewed(s, v, e)) && Numbered(Renewed(s, v, e))
    ensures Usable(Renewed(s, v, e), n) <==> n == NameOf(v) || Usable(s, n)
  {
  }

  /** Once cleared by an install that was asked to install it, a version that alone was usable leaves nothing. */
  lemma ClearedIsLost(w: World, s: State, pid: nat, v: string, text: string)
    requires pid in s.procs && s.procs[pid] == Clearing(v, text) && forall n :: Usable(s, n) ==> n == NameOf(v)
    ensures !HasFallback(Apply(w, s, Advance(pid, Works)))
  {
    var t := Apply(w, s, Advance(pid, Works));
    forall n ensures !Usable(t, n) { assert Usable(t, n) ==> Usable(s, n) && n != NameOf(v); }
  }

  /**
  Installing the only complete version again takes the fallback away. The history is that of an
  install and a second one after it: nothing overlaps.
  */
  lemma ReinstallLosesTheFallback(w: World, s: State, v: string, text: string, bodies: seq<Content>)
    requires Initial(s) && Installable(w, text, v, bodies)
    ensures var done := Installed(Nothing, 0, v, text, bodies);
            var again := After(After(After(done, BeginInstall(0, v)), Advance(0, Answer(text))), Advance(0, Works));
            && HasFallback(Run(w, s, done)) && !HasFallback(Run(w, s, again))
            && Keeps(w, s, again, OneInstall) && Keeps(w, s, again, OneActivation)
  {
    var done := Installed(Nothing, 0, v, text, bodies);
    var e := AllEntries(w, v, text, bodies);
    InstallCompletes(w, s, Nothing, 0, v, text, bodies);
    assert Usable(Run(w, s, done), NameOf(v));
    forall n | Usable(Run(w, s, done), n) ensures n == NameOf(v) { RenewedUsable(s, v, e, n); NothingUsable(s, n); }
    InstalledKeeps(w, s, Nothing, 0, v, text, bodies, |bodies| + 2, OneInstall);
    InstalledKeeps(w, s, Nothing, 0, v, text, bodies, |bodies| + 2, OneActivation);
    AgainLoses(w, s, done, v, text);
  }

  lemma AgainLoses(w: World, s: State, done: History, v: string, text: string)
    requires Run(w, s, done).procs == map[] && IsManifest(w, text, v) && forall n :: Usable(Run(w, s, done), n) ==> n == NameOf(v)
    requires Keeps(w, s, done, OneInstall) && Keeps(w, s, done, OneActivation)
    ensures var again := After(After(After(done, BeginInstall(0, v)), Advance(0, Answer(text))), Advance(0, Works));
            !HasFallback(Run(w, s, again)) && Keeps(w, s, again, OneInstall) && Keeps(w, s, again, OneActivation)
  {
    var asked := After(After(done, BeginInstall(0, v)), Advance(0, Answer(text)));
    AskedRuns(w, s, done, 0, v, text);
    var t := Run(w, s, asked);
    forall n | Usable(t, n) ensures n == NameOf(v) { assert Usable(Run(w, s, done), n); }
    ClearedIsLost(w, t, 0, v, text);
    assert Keeps(w, s, After(done, BeginInstall(0, v)), OneInstall) && Keeps(w, s, After(done, BeginInstall(0, v)), OneActivation);
    assert Keeps(w, s, asked, OneInstall) && Keeps(w, s, asked, OneActivation);
  }

  /** Of two overlapping installs of one version, the later clears what the earlier has completed, and nothing is left. */
  lemma TwoInstallsLoseTheFallback(w: World, s: State, v: string, text: string, bodies: seq<Content>)
    requires Initial(s) && Installable(w, text, v, bodies)
    ensures var waiting := After(After(Nothing, BeginInstall(1, v)), Advance(1, Answer(text)));
            var done := Installed(waiting, 0, v, text, bodies);
            var cleared := After(done, Advance(1, Works));
            && HasFallback(Run(w, s, done)) && !HasFallback(Run(w, s, cleared))
            && Keeps(w, s, cleared, NotComplete) && Keeps(w, s, cleared, OneActivation)
  {
    var waiting := After(After(Nothing, BeginInstall(1, v)), Advance(1, Answer(text)));
    AskedRuns(w, s, Nothing, 1, v, text);
    var r := Goes(s, 1, Clearing(v, text));
    InstallCompletes(w, s, waiting, 0, v, text, bodies);
    var t := Run(w, s, Installed(waiting, 0, v, text, bodies));
    assert Usable(t, NameOf(v));
    forall n | Usable(t, n) ensures n == NameOf(v) {
      RenewedUsable(r, v, AllEntries(w, v, text, bodies), n);
      NothingUsable(s, n);
      assert !Usable(r, n);
    }
    ClearedIsLost(w, t, 1, v, text);
    TwoInstallsKeep(w, s, v, text, bodies);
  }

  lemma TwoInstallsKeep(w: World, s: State, v: string, text: string, bodies: seq<Content>)
    requires Initial(s) && Installable(w, text, v, bodies)
    ensures var waiting := After(After(Nothing, BeginInstall(1, v)), Advance(1, Answer(text)));
            var cleared := After(Installed(waiting, 0, v, text, bodies), Advance(1, Works));
            Keeps(w, s, cleared, NotComplete) && Keeps(w, s, cleared, OneActivation)
  {
    var begun := After(Nothing, BeginInstall(1, v));
    var waiting := After(begun, Advance(1, Answer(text)));
    AskedRuns(w, s, Nothing, 1, v, text);
    NothingUsable(s, NameOf(v));
    assert Keeps(w, s, Nothing, NotComplete) && Keeps(w, s, Nothing, OneActivation);
    assert Keeps(w, s, begun, NotComplete) && Keeps(w, s, begun, OneActivation);
    assert Keeps(w, s, waiting, NotComplete) && Keeps(w, s, waiting, OneActivation);
    assert !IsComplete(Run(w, s, waiting), v);
    InstalledKeeps(w, s, waiting, 0, v, text, bodies, |bodies| + 2, NotComplete);
    InstalledKeeps(w, s, waiting, 0, v, text, bodies, |bodies| + 2, OneActivation);
  }

  /** The activation of a version, up to the listing of the caches it will delete. */
  function Listing(h: History, pid: nat, v: string): History { Working(After(h, BeginActivate(pid, v)), pid, 3) }

  lemma ListingRuns(w: World, s: State, h: History, pid: nat, v: string)
    requires var t := Run(w, s, h); IsComplete(t, v) && pid !in t.procs
    ensures var t := Run(w, s, h); Run(w, s, Listing(h, pid, v)) == Goes(t, pid, Deleting(v, t.names.Keys - {NameOf(v)}))
  {
    var t := Run(w, s, h);
    var h0 := After(h, BeginActivate(pid, v));
    var s0, s1 := Goes(t, pid, ActivateOpening(v)), Goes(t, pid, ActivateMatching(v, t.names[NameOf(v)]));
    var s2 := Goes(t, pid, ActivateListing(v));
    assert Run(w, s, Working(h0, pid, 0)) == s0;
    assert Run(w, s, Working(h0, pid, 1)) == s1 by { assert Apply(w, s0, Advance(pid, Works)) == s1; }
    assert Run(w, s, Working(h0, pid, 2)) == s2 by { assert Apply(w, s1, Advance(pid, Works)) == s2; }
  }

  lemma ListingKeeps(w: World, s: State, h: History, pid: nat, v: string, condition: (State, Event) -> bool)
    requires Keeps(w, s, h, condition) && condition(Run(w, s, h), BeginActivate(pid, v)) && forall t :: condition(t, Advance(pid, Works))
    ensures Keeps(w, s, Listing(h, pid, v), condition)
  {
    WorkingKeeps(w, s, After(h, BeginActivate(pid, v)), pid, 3, condition);
  }

  /** Two versions installed one after the other. */
  function BothInstalled(v: string, text: string, bodies: seq<Content>, u: string, text': string, bodies': seq<Content>): History {
    Installed(Installed(Nothing, 0, v, text, bodies), 0, u, text', bodies')
  }

  lemma BothRuns(w: World, s: State, v: string, text: string, bodies: seq<Content>, u: string, text': string, bodies': seq<Content>)
    requires Initial(s) && Installable(w, text, v, bodies) && Installable(w, text', u, bodies') && v != u
    ensures var h := BothInstalled(v, text, bodies, u, text', bodies');
            && Run(w, s, h).procs == map[] && Keeps(w, s, h, NotComplete) && Keeps(w, s, h, OneInstall)
            && forall n :: Usable(Run(w, s, h), n) <==> n == NameOf(v) || n == NameOf(u)
  {
    var g := Installed(Nothing, 0, v, text, bodies);
    var e, e' := AllEntries(w, v, text, bodies), AllEntries(w, u, text', bodies');
    InstallCompletes(w, s, Nothing, 0, v, text, bodies);
    InstallCompletes(w, s, g, 0, u, text', bodies');
    var r := Renewed(s, v, e);
    forall n ensures Usable(Renewed(r, u, e'), n) <==> n == NameOf(v) || n == NameOf(u) {
      NothingUsable(s, n);
      RenewedUsable(s, v, e, n);
      RenewedUsable(r, u, e', n);
    }
    NothingUsable(s, NameOf(v));
    NothingUsable(s, NameOf(u));
    RenewedUsable(s, v, e, NameOf(u));
    if NameOf(v) == NameOf(u) { NameOfInjective(v, u); }
    InstalledKeeps(w, s, Nothing, 0, v, text, bodies, |bodies| + 2, NotComplete);
    InstalledKeeps(w, s, Nothing, 0, v, text, bodies, |bodies| + 2, OneInstall);
    InstalledKeeps(w, s, g, 0, u, text', bodies', |bodies'| + 2, NotComplete);
    InstalledKeeps(w, s, g, 0, u, text', bodies', |bodies'| + 2, OneInstall);
  }

  /** Two overlapping activations of different complete versions delete each other's cache, and nothing is left. */
  lemma OverlapLosesTheFallback(w: World, s: State, v: string, text: string, bodies: seq<Content>, u: string, text': string, bodies': seq<Content>)
    requires Initial(s) && Installable(w, text, v, bodies) && Installable(w, text', u, bodies') && v != u
    ensures var installed := BothInstalled(v, text, bodies, u, text', bodies');
            var both := Listing(Listing(installed, 0, v), 1, u);
            var deleted := After(After(both, Advance(0, Picks(NameOf(u)))), Advance(1, Picks(NameOf(v))));
            && HasFallback(Run(w, s, installed)) && !HasFallback(Run(w, s, deleted))
            && Keeps(w, s, deleted, NotComplete) && Keeps(w, s, deleted, OneInstall)
  {
    var h := BothInstalled(v, text, bodies, u, text', bodies');
    BothRuns(w, s, v, text, bodies, u, text', bodies');
    assert Usable(Run(w, s, h), NameOf(v));
    DeleteEachOther(w, s, h, v, u);
    DeletingKeeps(w, s, h, v, u, NotComplete);
    DeletingKeeps(w, s, h, v, u, OneInstall);
  }

  lemma DeleteEachOther(w: World, s: State, h: History, v: string, u: string)
    requires Run(w, s, h).procs == map[] && v != u
    requires forall n :: Usable(Run(w, s, h), n) <==> n == NameOf(v) || n == NameOf(u)
    ensures var both := Listing(Listing(h, 0, v), 1, u);
            !HasFallback(Run(w, s, After(After(both, Advance(0, Picks(NameOf(u)))), Advance(1, Picks(NameOf(v))))))
  {
    if NameOf(v) == NameOf(u) { NameOfInjective(v, u); }
    var t := Run(w, s, h);
    assert Usable(t, NameOf(v)) && Usable(t, NameOf(u));
    ListingRuns(w, s, h, 0, v);
    ListingRuns(w, s, Listing(h, 0, v), 1, u);
    var t' := Run(w, s, Listing(Listing(h, 0, v), 1, u));
    forall n | Usable(t', n) ensures n == NameOf(v) || n == NameOf(u) { assert Usable(t, n); }
    LastDeletions(w, t', v, u);
  }

  lemma DeletingKeeps(w: World, s: State, h: History, v: string, u: string, condition: (State, Event) -> bool)
    requires Keeps(w, s, h, condition) && forall t, pid, input :: condition(t, Advance(pid, input))
    requires forall t, pid, x :: condition(t, BeginActivate(pid, x))
    ensures var both := Listing(Listing(h, 0, v), 1, u);
            Keeps(w, s, After(After(both, Advance(0, Picks(NameOf(u)))), Advance(1, Picks(NameOf(v)))), condition)
  {
    ListingKeeps(w, s, h, 0, v, condition);
    ListingKeeps(w, s, Listing(h, 0, v), 1, u, condition);
    var first := After(Listing(Listing(h, 0, v), 1, u), Advance(0, Picks(NameOf(u))));
    assert Keeps(w, s, first, condition);
  }

  lemma LastDeletions(w: World, s: State, v: string, u: string)
    requires NameOf(v) != NameOf(u) && forall n :: Usable(s, n) ==> n == NameOf(v) || n == NameOf(u)
    requires 0 in s.procs && s.procs[0].Deleting? && NameOf(u) in s.procs[0].rest
    requires 1 in s.procs && s.procs[1].Deleting? && NameOf(v) in s.procs[1].rest
    ensures !HasFallback(Apply(w, Apply(w, s, Advance(0, Picks(NameOf(u)))), Advance(1, Picks(NameOf(v)))))
  {
    var t := Apply(w, s, Advance(0, Picks(NameOf(u))));
    var t' := Apply(w, t, Advance(1, Picks(NameOf(v))));
    forall n ensures !Usable(t', n) { assert Usable(t', n) ==> Usable(t, n) && n != NameOf(v); assert Usable(t, n) ==> Usable(s, n) && n != NameOf(u); }
  }

  // ----- and only if no manifest lists the marker -----------------------------------------------------

  ghost predicate NeverLost(w: World) {
    forall s: State, g: History, h: History ::
      Initial(s) && Keeps(w, s, h, Orderly) && Earlier(g, h) && HasFallback(Run(w, s, g)) ==> HasFallback(Run(w, s, h))
  }

  /** An install of a manifest that lists the marker, whose first put after the files fails. */
  function RolledBack(v: string, text: string, bodies: seq<Content>): History {
    After(After(Working(Fetched(Nothing, 0, v, text, bodies), 0, |bodies|), Advance(0, Fails)), Advance(0, Works))
  }

  /** A listed marker makes a cache complete before its time, and a put that then fails takes it away again. */
  lemma ListedMarkerLosesTheFallback(w: World, s: State, v: string, text: string, bodies: seq<Content>, f: Listed)
    requires Initial(s) && Installable(w, text, v, bodies) && f in FilesOf(w, text) && f.path == COMPLETE_MARKER
    ensures var put := Working(Fetched(Nothing, 0, v, text, bodies), 0, |bodies|);
            && HasFallback(Run(w, s, put)) && !HasFallback(Run(w, s, RolledBack(v, text, bodies)))
            && Keeps(w, s, RolledBack(v, text, bodies), Orderly)
  {
    var put := Working(Fetched(Nothing, 0, v, text, bodies), 0, |bodies|);
    var files := FilesOf(w, text);
    var e := EntriesAfter(files, bodies, |bodies|);
    FilesPut(w, s, Nothing, 0, v, text, bodies);
    var k :| 0 <= k < |files| && files[k] == f;
    EntriesAre(files, bodies, |bodies|, COMPLETE_MARKER);
    assert files[k].path == COMPLETE_MARKER;
    forall n ensures Usable(Renewed(s, v, e), n) <==> n == NameOf(v) { RenewedUsable(s, v, e, n); NothingUsable(s, n); }
    RollsBack(w, s, put, v, Renewed(s, v, e), Putting(v, text, s.next, files, bodies, |bodies|));
    NothingUsable(s, NameOf(v));
    InstalledKeeps(w, s, Nothing, 0, v, text, bodies, |bodies|, Orderly);
    FailingKeeps(w, s, put);
  }

  lemma RollsBack(w: World, s: State, h: History, v: string, r: State, p: Proc)
    requires p.Putting? && p.version == v && Run(w, s, h) == Goes(r, 0, p) && forall n :: Usable(r, n) <==> n == NameOf(v)
    ensures HasFallback(Run(w, s, h)) && !HasFallback(Run(w, s, After(After(h, Advance(0, Fails)), Advance(0, Works))))
  {
    assert Usable(r, NameOf(v));
    SameCaches(r, Run(w, s, h));
    var failed := Goes(r, 0, RollingBack(v));
    assert Run(w, s, After(h, Advance(0, Fails))) == failed;
    var t := Apply(w, failed, Advance(0, Works));
    forall n ensures !Usable(t, n) { assert Usable(t, n) ==> Usable(r, n) && n != NameOf(v); }
  }

  lemma FailingKeeps(w: World, s: State, h: History)
    requires Keeps(w, s, h, Orderly)
    ensures Keeps(w, s, After(After(h, Advance(0, Fails)), Advance(0, Works)), Orderly)
  {
    assert Keeps(w, s, After(h, Advance(0, Fails)), Orderly);
  }

  /**
  Under the three conditions the fallback is never lost, in any run from a fresh start, exactly when no
  manifest whose files are to be had lists the marker.
  */
  lemma FallbackStaysExactlyWhen(w: World)
    ensures NeverLost(w) <==> NoneListsMarker(w)
  {
    if NoneListsMarker(w) {
      forall s: State, g: History, h: History | Initial(s) && Keeps(w, s, h, Orderly) && Earlier(g, h) && HasFallback(Run(w, s, g))
        ensures HasFallback(Run(w, s, h))
      {
        FallbackStays(w, s, g, h);
      }
    }
    if NeverLost(w) {
      forall t: string, v: string, bodies: seq<Content>, f: Listed | Installable(w, t, v, bodies) && f in FilesOf(w, t)
        ensures f.path != COMPLETE_MARKER
      {
        if f.path == COMPLETE_MARKER { LossRefutes(w, v, t, bodies, f); }
      }
    }
  }

  lemma LossRefutes(w: World, v: string, text: string, bodies: seq<Content>, f: Listed)
    requires Installable(w, text, v, bodies) && f in FilesOf(w, text) && f.path == COMPLETE_MARKER
    ensures !NeverLost(w)
  {
    ListedMarkerLosesTheFallback(w, NOTHING_STORED, v, text, bodies, f);
    var put := Working(Fetched(Nothing, 0, v, text, bodies), 0, |bodies|);
    var failed := After(put, Advance(0, Fails));
    assert Earlier(put, failed) && Earlier(put, RolledBack(v, text, bodies));
  }
}
