/**
When the marker tells the truth. As long as no two installs of one version run at once, every run is
honest exactly when, in every manifest whose files can be fetched, no name leads to the marker, a name
that leads to the manifest gives the hash of that very text, and of several names that lead to one
path the last one decides. With any overlap it is honest exactly when no name leads to the marker or
the manifest, and manifests of one version agree where they overlap.
*/
module ServiceWorkerHonest {
  import opened Basics
  import opened ServiceWorker
  import opened ServiceWorkerRuns
  import opened ServiceWorkerShape
  import opened ServiceWorkerLaws

  /** The file does not lead to the marker, and what will stand where it leads is what it asks for. */
  ghost predicate GoodFile(w: World, text: string, f: Listed) {
    var files := FilesOf(w, text);
    && f.path != COMPLETE_MARKER
    && (if f.path == MANIFEST_PATH then Matches(w, f, Text(text))
        else forall k: nat :: IsLast(files, k, |files|) && files[k].path == f.path ==> Covers(w, files[k], f))
  }

  ghost predicate GoodNames(w: World, text: string) { forall f :: f in FilesOf(w, text) ==> GoodFile(w, text, f) }

  ghost predicate AllGood(w: World) {
    forall t: string, v: string, bodies: seq<Content> :: Installable(w, t, v, bodies) ==> GoodNames(w, t)
  }

  // ----- the invariant ----------------------------------------------------------------------------------

  /** What a putting install has put so far. */
  ghost function EntriesOf(p: Proc): map<string, Content>
    requires p.Putting? && |p.files| == |p.bodies|
  {
    if p.i <= |p.files| then EntriesAfter(p.files, p.bodies, p.i)
    else EntriesAfter(p.files, p.bodies, |p.files|)[MANIFEST_PATH := Text(p.text)]
  }

  /** An install alone with its version knows exactly what its cache holds. */
  ghost predicate Knows(s: State, p: Proc) {
    match p
    case Opening(v, _) => NameOf(v) in s.names && s.names[NameOf(v)] in s.caches ==> s.caches[s.names[NameOf(v)]].entries == map[]
    case FetchingFiles(_, _, id) => id in s.caches && s.caches[id].entries == map[]
    case Putting(_, _, id, files, bodies, _) => |files| == |bodies| && id in s.caches && s.caches[id].entries == EntriesOf(p)
    case _ => true
  }

  ghost predicate Tidy(w: World, s: State) {
    Shaped(w, s) && OneEach(s) && Honest(w, s) && forall pid :: pid in s.procs ==> Knows(s, s.procs[pid])
  }

  // ----- what a put leads to ------------------------------------------------------------------------------

  /** While files are being put there is no marker. */
  lemma NoMarkerYet(w: World, p: Proc)
    requires p.Putting? && Installable(w, p.text, p.version, p.bodies) && p.files == FilesOf(w, p.text) && GoodNames(w, p.text)
    ensures COMPLETE_MARKER !in EntriesOf(p)
  {
    var n := if p.i <= |p.files| then p.i else |p.files|;
    EntriesAre(p.files, p.bodies, n, COMPLETE_MARKER);
    forall k | 0 <= k < |p.files| ensures p.files[k].path != COMPLETE_MARKER {
      assert p.files[k] in p.files && GoodFile(w, p.text, p.files[k]);
    }
  }

  /** The last body put under the path of a file is one for this file too. */
  lemma BodyStands(w: World, v: string, text: string, bodies: seq<Content>, f: Listed)
    requires Installable(w, text, v, bodies) && GoodNames(w, text) && f in FilesOf(w, text) && f.path != MANIFEST_PATH
    ensures var e := EntriesAfter(FilesOf(w, text), bodies, |bodies|); f.path in e && Matches(w, f, e[f.path])
  {
    var files := FilesOf(w, text);
    EntriesAre(files, bodies, |bodies|, f.path);
    var i :| 0 <= i < |files| && files[i] == f;
    var k: nat :| IsLast(files, k, |files|) && files[k].path == f.path && EntriesAfter(files, bodies, |bodies|)[f.path] == bodies[k];
    assert GoodFile(w, text, f) && Covers(w, files[k], f);
    assert bodies[k] == Bytes(bodies[k].b);
  }

  /** With the manifest and all files in it, the cache deserves the marker. */
  lemma MarkerDeserved(w: World, v: string, text: string, bodies: seq<Content>)
    requires Installable(w, text, v, bodies) && GoodNames(w, text)
    ensures HonestCache(w, Cache(NameOf(v), AllEntries(w, v, text, bodies)))
  {
    var c := Cache(NameOf(v), AllEntries(w, v, text, bodies));
    assert IsManifestOf(w, c, v);
    forall f | f in FilesOf(w, text) ensures f.path in c.entries && Matches(w, f, c.entries[f.path]) {
      assert GoodFile(w, text, f);
      if f.path != MANIFEST_PATH { BodyStands(w, v, text, bodies, f); }
    }
  }

  /** The entries of an install with one more. */
  lemma EntriesNext(p: Proc)
    requires p.Putting? && p.i <= |p.files| == |p.bodies|
    ensures EntriesOf(p.(i := p.i + 1)) == EntriesOf(p)[NextPath(p) := NextContent(p)]
  {
  }

  lemma PutHonest(w: World, s: State, p: Proc)
    requires p.Putting? && ProcShaped(w, s, p) && Knows(s, p) && GoodNames(w, p.text)
    ensures HonestCache(w, Cache(NameOf(p.version), EntriesOf(p)[NextPath(p) := NextContent(p)]))
  {
    if p.i <= |p.files| {
      EntriesNext(p);
      NoMarkerYet(w, p.(i := p.i + 1));
    } else {
      MarkerDeserved(w, p.version, p.text, p.bodies);
    }
  }

  // ----- one step -------------------------------------------------------------------------------------------

  /** Another process is not touched: it has another version, and so another cache. */
  lemma OtherKnows(w: World, s: State, pid: nat, input: Input, q: nat)
    requires Tidy(w, s) && pid in s.procs && q in s.procs && q != pid
    ensures Knows(StepProc(w, s, pid, s.procs[pid], input), s.procs[q])
  {
    var s', p, o := StepProc(w, s, pid, s.procs[pid], input), s.procs[pid], s.procs[q];
    assert ProcShaped(w, s, p) && ProcShaped(w, s, o) && Knows(s, o);
    StepGrows(w, s, Advance(pid, input));
    if o.FetchingFiles? || o.Putting? {
      OthersCache(w, s, pid, input, o.version, o.id);
    } else if o.Opening? && NameOf(o.version) in s'.names && s'.names[NameOf(o.version)] in s'.caches {
      StepName(w, s, pid, input, NameOf(o.version));
      OthersCache(w, s, pid, input, o.version, s'.names[NameOf(o.version)]);
    }
  }

  /** A step of an install does not write to a cache of another version. */
  lemma OthersCache(w: World, s: State, pid: nat, input: Input, v: string, id: nat)
    requires Shaped(w, s) && pid in s.procs && (Installs(s.procs[pid]) ==> s.procs[pid].version != v)
    requires id in StepProc(w, s, pid, s.procs[pid], input).caches && (id in s.caches ==> IsCacheOf(s, id, v))
    ensures var s' := StepProc(w, s, pid, s.procs[pid], input);
            if id in s.caches then s'.caches[id] == s.caches[id] else s'.caches[id].entries == map[]
  {
    var p := s.procs[pid];
    assert ProcShaped(w, s, p);
    StepCache(w, s, pid, input, id);
    if Puts(p, input) && p.id == id && id in s.caches { NameOfInjective(p.version, v); assert false; }
  }

  lemma OwnKnows(w: World, s: State, pid: nat, input: Input)
    requires Shaped(w, s) && pid in s.procs && Knows(s, s.procs[pid])
    ensures var s' := StepProc(w, s, pid, s.procs[pid], input); pid in s'.procs ==> Knows(s', s'.procs[pid])
  {
    assert ProcShaped(w, s, s.procs[pid]);
    if Puts(s.procs[pid], input) { PutKnows(w, s, pid, s.procs[pid]); }
  }

  lemma PutKnows(w: World, s: State, pid: nat, p: Proc)
    requires p.Putting? && ProcShaped(w, s, p) && Knows(s, p)
    ensures var s' := PutNext(s, pid, p); pid in s'.procs ==> Knows(s', s'.procs[pid])
  {
    if p.i <= |p.files| { EntriesNext(p); }
  }

  lemma StepHonest(w: World, s: State, pid: nat, input: Input, id: nat)
    requires AllGood(w) && Tidy(w, s) && pid in s.procs && id in StepProc(w, s, pid, s.procs[pid], input).caches
    ensures HonestCache(w, StepProc(w, s, pid, s.procs[pid], input).caches[id])
  {
    var p := s.procs[pid];
    StepCache(w, s, pid, input, id);
    assert ProcShaped(w, s, p) && Knows(s, p);
    if Puts(p, input) && p.id == id { PutHonest(w, s, p); }
  }

  lemma AdvanceTidy(w: World, s: State, pid: nat, input: Input)
    requires AllGood(w) && Tidy(w, s) && pid in s.procs
    ensures Tidy(w, StepProc(w, s, pid, s.procs[pid], input))
  {
    var e := Advance(pid, input);
    var s' := Apply(w, s, e);
    StepShaped(w, s, e);
    OneEachStays(w, s, e);
    OthersStay(w, s, pid, input);
    forall q | q in s'.procs ensures Knows(s', s'.procs[q]) {
      if q == pid { OwnKnows(w, s, pid, input); } else { OtherKnows(w, s, pid, input, q); }
    }
    forall id | id in s'.caches ensures HonestCache(w, s'.caches[id]) { StepHonest(w, s, pid, input, id); }
  }

  lemma StepTidy(w: World, s: State, e: Event)
    requires AllGood(w) && Tidy(w, s) && OneInstall(s, e)
    ensures Tidy(w, Apply(w, s, e))
  {
    if e.Advance? && e.pid in s.procs {
      AdvanceTidy(w, s, e.pid, e.input);
    } else {
      StepShaped(w, s, e);
      OneEachStays(w, s, e);
    }
  }

  // ----- every run ------------------------------------------------------------------------------------------

  lemma {:induction false} RunsAreTidy(w: World, s: State, h: History)
    requires AllGood(w) && Initial(s) && Keeps(w, s, h, OneInstall)
    ensures Tidy(w, Run(w, s, h))
  {
    if h.After? {
      RunsAreTidy(w, s, h.before);
      StepTidy(w, Run(w, s, h.before), h.event);
    }
  }

  // ----- and only then ---------------------------------------------------------------------------------------

  /** A manifest that lists the marker makes a cache look complete before its manifest is stored. */
  lemma ListedMarkerIsDishonest(w: World, v: string, text: string, bodies: seq<Content>, f: Listed)
    requires Installable(w, text, v, bodies) && f in FilesOf(w, text) && f.path == COMPLETE_MARKER
    ensures var h := Working(Fetched(Nothing, 0, v, text, bodies), 0, |bodies|);
            Keeps(w, NOTHING_STORED, h, OneInstall) && !Honest(w, Run(w, NOTHING_STORED, h))
  {
    var files := FilesOf(w, text);
    var h := Working(Fetched(Nothing, 0, v, text, bodies), 0, |bodies|);
    InstalledKeeps(w, NOTHING_STORED, Nothing, 0, v, text, bodies, |bodies|, OneInstall);
    FilesPut(w, NOTHING_STORED, Nothing, 0, v, text, bodies);
    var c := Run(w, NOTHING_STORED, h).caches[0];
    var k :| 0 <= k < |files| && files[k] == f;
    EntriesAre(files, bodies, |bodies|, COMPLETE_MARKER);
    EntriesAre(files, bodies, |bodies|, MANIFEST_PATH);
    assert files[k].path == COMPLETE_MARKER;
    assert c.entries == EntriesAfter(files, bodies, |bodies|);
    assert MANIFEST_PATH in c.entries ==> c.entries[MANIFEST_PATH].Bytes?;
  }

  /** A manifest that lists itself with a hash that is not its own ends up complete, and in place of what it lists. */
  lemma ListedManifestIsDishonest(w: World, v: string, text: string, bodies: seq<Content>, f: Listed)
    requires Installable(w, text, v, bodies) && f in FilesOf(w, text) && f.path == MANIFEST_PATH && !Matches(w, f, Text(text))
    ensures var h := Installed(Nothing, 0, v, text, bodies);
            && Keeps(w, NOTHING_STORED, h, OneInstall) && IsComplete(Run(w, NOTHING_STORED, h), v)
            && CachedResponse(Run(w, NOTHING_STORED, h), v, f.path, false) == Some(Text(text))
            && !Honest(w, Run(w, NOTHING_STORED, h))
  {
    var h := Installed(Nothing, 0, v, text, bodies);
    InstalledKeeps(w, NOTHING_STORED, Nothing, 0, v, text, bodies, |bodies| + 2, OneInstall);
    InstallCompletes(w, NOTHING_STORED, Nothing, 0, v, text, bodies);
    var c := Run(w, NOTHING_STORED, h).caches[0];
    assert c == Cache(NameOf(v), AllEntries(w, v, text, bodies));
    assert c.entries[MANIFEST_PATH] == Text(text);
  }

  /** The last of several names that lead to one path decides what is stored there: content that another of them refuses may be it. */
  lemma SharedPathIsDishonest(w: World, v: string, text: string, bodies: seq<Content>, k: nat, b: seq<int>, f: Listed)
    requires Installable(w, text, v, bodies) && f in FilesOf(w, text) && f.path != MANIFEST_PATH && f.path != COMPLETE_MARKER
    requires var files := FilesOf(w, text); IsLast(files, k, |files|) && files[k].path == f.path && Matches(w, files[k], Bytes(b))
    requires !Matches(w, f, Bytes(b))
    ensures var h := Installed(Nothing, 0, v, text, bodies[k := Bytes(b)]);
            && Keeps(w, NOTHING_STORED, h, OneInstall) && IsComplete(Run(w, NOTHING_STORED, h), v)
            && CachedResponse(Run(w, NOTHING_STORED, h), v, f.path, false) == Some(Bytes(b))
            && !Honest(w, Run(w, NOTHING_STORED, h))
  {
    var files, given := FilesOf(w, text), bodies[k := Bytes(b)];
    var h := Installed(Nothing, 0, v, text, given);
    InstalledKeeps(w, NOTHING_STORED, Nothing, 0, v, text, given, |given| + 2, OneInstall);
    InstallCompletes(w, NOTHING_STORED, Nothing, 0, v, text, given);
    LastStands(files, given, k);
    var c := Run(w, NOTHING_STORED, h).caches[0];
    assert c == Cache(NameOf(v), AllEntries(w, v, text, given));
    IsDishonest(w, c, text, f);
  }

  lemma LastStands(files: seq<Listed>, bodies: seq<Content>, k: nat)
    requires |files| == |bodies| && IsLast(files, k, |files|)
    ensures var e := EntriesAfter(files, bodies, |bodies|); files[k].path in e && e[files[k].path] == bodies[k]
  {
    EntriesAre(files, bodies, |bodies|, files[k].path);
  }

  lemma IsDishonest(w: World, c: Cache, text: string, f: Listed)
    requires COMPLETE_MARKER in c.entries && MANIFEST_PATH in c.entries && c.entries[MANIFEST_PATH] == Text(text)
    requires f in FilesOf(w, text) && f.path in c.entries && !Matches(w, f, c.entries[f.path])
    ensures !HonestCache(w, c)
  {
  }

  ghost predicate AlwaysHonest(w: World) {
    forall s: State, h: History :: Initial(s) && Keeps(w, s, h, OneInstall) ==> Honest(w, Run(w, s, h))
  }

  lemma HonestMeansGood(w: World, t: string, v: string, bodies: seq<Content>, f: Listed)
    requires AlwaysHonest(w) && Installable(w, t, v, bodies) && f in FilesOf(w, t)
    ensures GoodFile(w, t, f)
  {
    var files := FilesOf(w, t);
    if f.path == COMPLETE_MARKER {
      ListedMarkerIsDishonest(w, v, t, bodies, f);
    } else if f.path == MANIFEST_PATH {
      if !Matches(w, f, Text(t)) { ListedManifestIsDishonest(w, v, t, bodies, f); }
    } else {
      forall k: nat, b | IsLast(files, k, |files|) && files[k].path == f.path && Matches(w, files[k], Bytes(b)) ensures Matches(w, f, Bytes(b)) {
        if !Matches(w, f, Bytes(b)) { SharedPathIsDishonest(w, v, t, bodies, k, b, f); }
      }
    }
  }

  /**
  Every run without overlapping installs of one version is honest, in every state, exactly when every
  manifest whose files are to be had has good names.
  */
  lemma HonestExactlyWhen(w: World)
    ensures AlwaysHonest(w) <==> AllGood(w)
  {
    if AllGood(w) {
      forall s: State, h: History | Initial(s) && Keeps(w, s, h, OneInstall) ensures Honest(w, Run(w, s, h)) {
        RunsAreTidy(w, s, h);
      }
    }
    if AlwaysHonest(w) {
      forall t: string, v: string, bodies: seq<Content> | Installable(w, t, v, bodies) ensures GoodNames(w, t) {
        forall f | f in FilesOf(w, t) ensures GoodFile(w, t, f) { HonestMeansGood(w, t, v, bodies, f); }
      }
    }
  }

  /** Then a worker answers offline from one build, relative to the manifest stored beside it. */
  lemma HonestOffline(w: World, s: State, h: History, version: string)
    requires AllGood(w) && Initial(s) && Keeps(w, s, h, OneInstall)
    ensures ServesOneBuild(w, Run(w, s, h), version)
  {
    RunsAreTidy(w, s, h);
    HonestServes(w, Run(w, s, h), version);
  }

  // ----- with overlapping installs of one version --------------------------------------------------------------

  /** Another install of the version that waited at opening its cache gets the one the first has completed. */
  function Late(v: string, text: string, bodies: seq<Content>, text': string, bodies': seq<Content>): History {
    After(After(Installed(Waiting(v, text'), 0, v, text, bodies), Advance(1, Works)), Advance(1, Bodies(bodies')))
  }

  function Waiting(v: string, text: string): History {
    After(After(After(Nothing, BeginInstall(1, v)), Advance(1, Answer(text))), Advance(1, Works))
  }

  lemma WaitingRuns(w: World, v: string, text: string)
    requires IsManifest(w, text, v)
    ensures Run(w, NOTHING_STORED, Waiting(v, text)) == NOTHING_STORED.(procs := map[1 := Opening(v, text)])
  {
    AskedRuns(w, NOTHING_STORED, Nothing, 1, v, text);
    assert Apply(w, Goes(NOTHING_STORED, 1, Clearing(v, text)), Advance(1, Works)) == NOTHING_STORED.(procs := map[1 := Opening(v, text)]);
  }

  lemma LateRuns(w: World, v: string, text: string, bodies: seq<Content>, text': string, bodies': seq<Content>)
    requires Installable(w, text, v, bodies) && Installable(w, text', v, bodies')
    ensures var t := Run(w, NOTHING_STORED, Late(v, text, bodies, text', bodies'));
            && t.caches == map[0 := Cache(NameOf(v), AllEntries(w, v, text, bodies))]
            && t.procs == map[1 := Putting(v, text', 0, FilesOf(w, text'), bodies', 0)]
  {
    var waiting := Waiting(v, text');
    var r := NOTHING_STORED.(procs := map[1 := Opening(v, text')]);
    WaitingRuns(w, v, text');
    InstallCompletes(w, NOTHING_STORED, waiting, 0, v, text, bodies);
    var done := Installed(waiting, 0, v, text, bodies);
    var s1 := Renewed(r, v, AllEntries(w, v, text, bodies));
    assert Run(w, NOTHING_STORED, done) == s1;
    assert Run(w, NOTHING_STORED, After(done, Advance(1, Works))) == Goes(s1, 1, FetchingFiles(v, text', 0));
    FilesArrive(w, s1, 1, v, text', 0, bodies');
  }

  /** Files put into a cache that carries the marker: the last is in it, the marker stays, and so does what no file leads to. */
  ghost predicate Onto(c: Cache, t: State, pid: nat, p: Proc, n: nat, path: string)
    requires p.Putting? && n <= |p.files| == |p.bodies| && path in c.entries
  {
    && pid in t.procs && t.procs[pid] == p.(i := n) && HasMarker(t, p.id)
    && var e := t.caches[p.id].entries;
       && (n > 0 ==> p.files[n - 1].path in e && e[p.files[n - 1].path] == p.bodies[n - 1])
       && ((forall k :: 0 <= k < n ==> p.files[k].path != path) ==> path in e && e[path] == c.entries[path])
  }

  lemma OntoNext(w: World, c: Cache, t: State, pid: nat, p: Proc, n: nat, path: string)
    requires p.Putting? && n < |p.files| == |p.bodies| && path in c.entries && Onto(c, t, pid, p, n, path)
    ensures Onto(c, Apply(w, t, Advance(pid, Works)), pid, p, n + 1, path)
  {
  }

  lemma {:induction false} PutsOnto(w: World, s: State, h: History, pid: nat, p: Proc, n: nat, c: Cache, path: string)
    requires p.Putting? && p.i == 0 && n <= |p.files| == |p.bodies| && path in c.entries && Onto(c, Run(w, s, h), pid, p, 0, path)
    ensures Onto(c, Run(w, s, Working(h, pid, n)), pid, p, n, path)
    decreases n
  {
    if n > 0 {
      PutsOnto(w, s, h, pid, p, n - 1, c, path);
      WorkingRuns(w, s, h, pid, n);
      OntoNext(w, c, Run(w, s, Working(h, pid, n - 1)), pid, p, n - 1, path);
    }
  }

  lemma ListedManifestInOverlap(w: World, v: string, text: string, bodies: seq<Content>, f: Listed)
    requires Installable(w, text, v, bodies) && f in FilesOf(w, text) && f.path == MANIFEST_PATH
    ensures exists n: nat :: !Honest(w, Run(w, NOTHING_STORED, Working(Late(v, text, bodies, text, bodies), 1, n)))
  {
    var files := FilesOf(w, text);
    var k :| 0 <= k < |files| && files[k] == f;
    var h := Late(v, text, bodies, text, bodies);
    LateRuns(w, v, text, bodies, text, bodies);
    PutsOnto(w, NOTHING_STORED, h, 1, Putting(v, text, 0, files, bodies, 0), k + 1, Run(w, NOTHING_STORED, h).caches[0], MANIFEST_PATH);
    var t := Run(w, NOTHING_STORED, Working(h, 1, k + 1));
    assert t.caches[0].entries[MANIFEST_PATH] == bodies[k];
    assert !HonestCache(w, t.caches[0]);
  }

  /** A late install with another manifest of the version overwrites a file of the complete one with content it refuses. */
  lemma ConflictInOverlap(w: World, v: string, t: string, bodies: seq<Content>, k: nat, b: seq<int>, u: string, bodies': seq<Content>, g: Listed)
    requires NeitherListed(w) && Installable(w, t, v, bodies) && Installable(w, u, v, bodies') && k < |FilesOf(w, t)| && g in FilesOf(w, u)
    requires FilesOf(w, t)[k].path == g.path && Matches(w, FilesOf(w, t)[k], Bytes(b)) && !Matches(w, g, Bytes(b))
    ensures !Honest(w, Run(w, NOTHING_STORED, Working(Late(v, u, bodies', t, bodies[k := Bytes(b)]), 1, k + 1)))
  {
    var files, given := FilesOf(w, t), bodies[k := Bytes(b)];
    LateRuns(w, v, u, bodies', t, given);
    forall j | 0 <= j < |files| ensures files[j].path != MANIFEST_PATH { assert files[j] in files; }
    Overwrites(w, NOTHING_STORED, Late(v, u, bodies', t, given), Putting(v, t, 0, files, given, 0), k, u, g);
  }

  lemma Overwrites(w: World, s: State, h: History, p: Proc, k: nat, u: string, g: Listed)
    requires var t := Run(w, s, h);
             && 1 in t.procs && t.procs[1] == p && p.Putting? && p.i == 0 && HasMarker(t, p.id)
             && MANIFEST_PATH in t.caches[p.id].entries && t.caches[p.id].entries[MANIFEST_PATH] == Text(u)
    requires k < |p.files| == |p.bodies| && forall j :: 0 <= j < |p.files| ==> p.files[j].path != MANIFEST_PATH
    requires g in FilesOf(w, u) && p.files[k].path == g.path && !Matches(w, g, p.bodies[k])
    ensures !Honest(w, Run(w, s, Working(h, 1, k + 1)))
  {
    PutsOnto(w, s, h, 1, p, k + 1, Run(w, s, h).caches[p.id], MANIFEST_PATH);
    IsDishonest(w, Run(w, s, Working(h, 1, k + 1)).caches[p.id], u, g);
  }

  ghost predicate HonestInAnyRun(w: World) { forall s: State, h: History :: Initial(s) ==> Honest(w, Run(w, s, h)) }

  lemma AnyRunMeansNeither(w: World)
    requires HonestInAnyRun(w)
    ensures NeitherListed(w)
  {
    forall t: string, v: string, bodies: seq<Content>, f: Listed | Installable(w, t, v, bodies) && f in FilesOf(w, t)
      ensures f.path != COMPLETE_MARKER && f.path != MANIFEST_PATH
    {
      if f.path == COMPLETE_MARKER { ListedMarkerIsDishonest(w, v, t, bodies, f); }
      if f.path == MANIFEST_PATH { ListedManifestInOverlap(w, v, t, bodies, f); }
    }
  }

  lemma AnyRunMeansCompatible(w: World)
    requires HonestInAnyRun(w) && NeitherListed(w)
    ensures Compatible(w)
  {
    forall v: string, t: string, bodies: seq<Content>, u: string, bodies': seq<Content>, f: Listed, g: Listed
      | Installable(w, t, v, bodies) && Installable(w, u, v, bodies') && f in FilesOf(w, t) && g in FilesOf(w, u) && f.path == g.path
      ensures Covers(w, f, g)
    {
      var k :| 0 <= k < |FilesOf(w, t)| && FilesOf(w, t)[k] == f;
      forall b | Matches(w, f, Bytes(b)) ensures Matches(w, g, Bytes(b)) {
        if !Matches(w, g, Bytes(b)) { ConflictInOverlap(w, v, t, bodies, k, b, u, bodies', g); }
      }
    }
  }

  /**
  Whatever overlaps, every run is honest exactly when no installable manifest lists the marker or
  itself, and those of one version agree on what is to stand where both lead.
  */
  lemma HonestInAnyRunExactlyWhen(w: World)
    ensures HonestInAnyRun(w) <==> NeitherListed(w) && Compatible(w)
  {
    if NeitherListed(w) && Compatible(w) {
      forall s: State, h: History | Initial(s) ensures Honest(w, Run(w, s, h)) {
        EveryRunKeepsInv(w, s, h);
        InvIsHonest(w, Run(w, s, h));
      }
    }
    if HonestInAnyRun(w) {
      AnyRunMeansNeither(w);
      AnyRunMeansCompatible(w);
    }
  }
}
