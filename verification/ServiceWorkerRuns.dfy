/** Histories of the cache protocol: conditions on them, what it means to be honest, and an install on its own. */
module ServiceWorkerRuns {
  import opened Basics
  import opened ServiceWorker

  // ----- states ---------------------------------------------------------------------------------------

  ghost predicate NamesOk(s: State) {
    forall n :: n in s.names ==> s.names[n] in s.caches && s.caches[s.names[n]].name == n
  }

  ghost predicate Numbered(s: State) { forall id :: id in s.caches ==> id < s.next }

  ghost predicate IsCacheOf(s: State, id: nat, v: string) { id in s.caches && s.caches[id].name == NameOf(v) }

  /** Nothing running, and no cache of this program; the page's origin may own others. */
  ghost predicate Initial(s: State) {
    && s.procs == map[] && NamesOk(s)
    && (forall id :: id in s.caches ==> id < s.next && COMPLETE_MARKER !in s.caches[id].entries && forall v :: s.caches[id].name != NameOf(v))
  }

  const NOTHING_STORED: State := State(map[], map[], 0, map[])

  /** The manifest as the worker stores it; a fetched file under its path is not that, whatever its bytes. */
  ghost predicate IsManifestOf(w: World, c: Cache, v: string) {
    MANIFEST_PATH in c.entries && c.entries[MANIFEST_PATH].Text? && IsManifest(w, c.entries[MANIFEST_PATH].t, v)
  }

  /** The marker means that the manifest stored beside it is one of this version, and every file it lists is there as listed. */
  ghost predicate HonestCache(w: World, c: Cache) {
    COMPLETE_MARKER in c.entries ==>
      && (exists v :: NameOf(v) == c.name && IsManifestOf(w, c, v))
      && forall f :: f in FilesOf(w, c.entries[MANIFEST_PATH].t) ==> f.path in c.entries && Matches(w, f, c.entries[f.path])
  }

  ghost predicate Honest(w: World, s: State) { forall id :: id in s.caches ==> HonestCache(w, s.caches[id]) }

  /** What a worker of a version answers offline: one build, or nothing. */
  ghost predicate ServesOneBuild(w: World, t: State, version: string) {
    if !IsComplete(t, version) then forall path, nav :: CachedResponse(t, version, path, nav) == None
    else
      var m := CachedResponse(t, version, MANIFEST_PATH, false);
      && m.Some? && m.value.Text? && IsManifest(w, m.value.t, version)
      && (forall f, nav :: f in FilesOf(w, m.value.t) ==>
            && CachedResponse(t, version, f.path, nav).Some?
            && Matches(w, f, CachedResponse(t, version, f.path, nav).value))
      && ((exists f :: f in FilesOf(w, m.value.t) && f.path == INDEX) ==>
            forall path :: CachedResponse(t, version, path, true).Some?)
  }

  lemma HonestServes(w: World, t: State, version: string)
    requires NamesOk(t) && Honest(w, t)
    ensures ServesOneBuild(w, t, version)
  {
    if IsComplete(t, version) {
      var c := t.caches[t.names[NameOf(version)]];
      var v :| NameOf(v) == c.name && IsManifestOf(w, c, v);
      NameOfInjective(v, version);
      assert CachedResponse(t, version, MANIFEST_PATH, false) == Some(c.entries[MANIFEST_PATH]);
    }
  }

  // ----- manifests ------------------------------------------------------------------------------------

  /** The manifest is one of that version, and its files are to be had. */
  ghost predicate Installable(w: World, text: string, v: string, bodies: seq<Content>) {
    IsManifest(w, text, v) && AllMatch(w, FilesOf(w, text), bodies)
  }

  /** Whatever the network gives for the first file may as well stand for the second. */
  ghost predicate Covers(w: World, f: Listed, g: Listed) { forall b :: Matches(w, f, Bytes(b)) ==> Matches(w, g, Bytes(b)) }

  /** The file is the last one put under its path. */
  predicate IsLast(files: seq<Listed>, k: nat, n: nat) {
    k < n <= |files| && forall m :: k < m < n ==> files[m].path != files[k].path
  }

  /** No manifest whose files are to be had lists a file that leads to the marker. */
  ghost predicate NoneListsMarker(w: World) {
    forall t: string, v: string, bodies: seq<Content>, f: Listed :: Installable(w, t, v, bodies) && f in FilesOf(w, t) ==>
      f.path != COMPLETE_MARKER
  }

  // ----- histories ------------------------------------------------------------------------------------

  /** The first history is the second one or an earlier point of it. */
  ghost predicate Earlier(g: History, h: History) { g == h || (h.After? && Earlier(g, h.before)) }

  /** Every event of the history met the condition when it happened. */
  ghost predicate Keeps(w: World, s: State, h: History, condition: (State, Event) -> bool) {
    h.After? ==> Keeps(w, s, h.before, condition) && condition(Run(w, s, h.before), h.event)
  }

  predicate Installs(p: Proc) {
    p.FetchingManifest? || p.Clearing? || p.Opening? || p.FetchingFiles? || p.Putting? || p.RollingBack?
  }

  predicate Writes(p: Proc, id: nat) { (p.FetchingFiles? || p.Putting?) && p.id == id }

  /** No two installs of one version run. */
  ghost predicate OneEach(s: State) {
    forall p, q :: p in s.procs && q in s.procs && p != q && Installs(s.procs[p]) && Installs(s.procs[q]) ==>
      s.procs[p].version != s.procs[q].version
  }

  /** No install begins for a version that is complete. */
  ghost predicate NotComplete(s: State, e: Event) { e.BeginInstall? ==> !IsComplete(s, e.version) }

  /** No install begins while one of the same version runs. */
  ghost predicate OneInstall(s: State, e: Event) {
    e.BeginInstall? ==> forall pid :: pid in s.procs && Installs(s.procs[pid]) ==> s.procs[pid].version != e.version
  }

  /** No activation begins while one runs. */
  ghost predicate OneActivation(s: State, e: Event) {
    e.BeginActivate? ==> forall pid :: pid in s.procs ==> Installs(s.procs[pid])
  }

  // ----- one install on its own -----------------------------------------------------------------------

  /** The next so many steps of a process all work. */
  function Working(h: History, pid: nat, n: nat): History {
    if n == 0 then h else After(Working(h, pid, n - 1), Advance(pid, Works))
  }

  lemma WorkingRuns(w: World, s: State, h: History, pid: nat, n: nat)
    requires n > 0
    ensures Run(w, s, Working(h, pid, n)) == Apply(w, Run(w, s, Working(h, pid, n - 1)), Advance(pid, Works))
  {
    assert Working(h, pid, n) == After(Working(h, pid, n - 1), Advance(pid, Works));
  }

  lemma {:induction false} WorkingKeeps(w: World, s: State, h: History, pid: nat, n: nat, condition: (State, Event) -> bool)
    requires Keeps(w, s, h, condition) && forall t :: condition(t, Advance(pid, Works))
    ensures Keeps(w, s, Working(h, pid, n), condition)
    decreases n
  {
    if n > 0 { WorkingKeeps(w, s, h, pid, n - 1, condition); }
  }

  /** What a cache that was empty holds after the first `n` files. */
  function EntriesAfter(files: seq<Listed>, bodies: seq<Content>, n: nat): map<string, Content>
    requires n <= |files| == |bodies|
  {
    if n == 0 then map[] else EntriesAfter(files, bodies, n - 1)[files[n - 1].path := bodies[n - 1]]
  }

  /** Every path of the first files is there, and no other; under each stands the last body put there. */
  lemma {:induction false} EntriesAre(files: seq<Listed>, bodies: seq<Content>, n: nat, path: string)
    requires n <= |files| == |bodies|
    ensures path in EntriesAfter(files, bodies, n) <==> exists k :: 0 <= k < n && files[k].path == path
    ensures path in EntriesAfter(files, bodies, n) ==>
              exists k: nat :: IsLast(files, k, n) && files[k].path == path && EntriesAfter(files, bodies, n)[path] == bodies[k]
    decreases n
  {
    if n > 0 {
      EntriesAre(files, bodies, n - 1, path);
      if files[n - 1].path == path {
        assert IsLast(files, n - 1, n);
      } else if path in EntriesAfter(files, bodies, n) {
        var k: nat :| IsLast(files, k, n - 1) && files[k].path == path && EntriesAfter(files, bodies, n - 1)[path] == bodies[k];
        assert IsLast(files, k, n);
      }
    }
  }

  /** The state after the first `n` files of an install whose cache was empty. */
  function Filled(s: State, pid: nat, p: Proc, n: nat): State
    requires p.Putting? && p.id in s.caches && n <= |p.files| == |p.bodies|
  {
    s.(procs := s.procs[pid := p.(i := n)],
       caches := s.caches[p.id := Cache(s.caches[p.id].name, EntriesAfter(p.files, p.bodies, n))])
  }

  lemma FilledNext(w: World, s: State, pid: nat, p: Proc, n: nat)
    requires p.Putting? && p.id in s.caches && n < |p.files| == |p.bodies|
    ensures Apply(w, Filled(s, pid, p, n), Advance(pid, Works)) == Filled(s, pid, p, n + 1)
  {
    var t := Filled(s, pid, p, n);
    var next := Apply(w, t, Advance(pid, Works));
    assert next.procs == Filled(s, pid, p, n + 1).procs;
    assert next.caches == Filled(s, pid, p, n + 1).caches;
  }

  lemma FilledNone(s: State, pid: nat, p: Proc)
    requires pid in s.procs && s.procs[pid] == p && p.Putting? && p.i == 0 && |p.files| == |p.bodies|
    requires p.id in s.caches && s.caches[p.id].entries == map[]
    ensures Filled(s, pid, p, 0) == s
  {
    assert s.procs[pid := p.(i := 0)] == s.procs;
    assert s.caches[p.id := Cache(s.caches[p.id].name, map[])] == s.caches;
  }

  lemma {:induction false} PutsRun(w: World, s: State, h: History, pid: nat, p: Proc, n: nat)
    requires var t := Run(w, s, h);
             pid in t.procs && t.procs[pid] == p && p.Putting? && p.i == 0 && p.id in t.caches && t.caches[p.id].entries == map[]
    requires n <= |p.files| == |p.bodies|
    ensures Run(w, s, Working(h, pid, n)) == Filled(Run(w, s, h), pid, p, n)
    decreases n
  {
    if n == 0 {
      FilledNone(Run(w, s, h), pid, p);
    } else {
      PutsRun(w, s, h, pid, p, n - 1);
      FilledNext(w, Run(w, s, h), pid, p, n - 1);
      WorkingRuns(w, s, h, pid, n);
    }
  }

  /** An install up to the arrival of its files. */
  function Fetched(h: History, pid: nat, v: string, text: string, bodies: seq<Content>): History {
    var asked := After(After(h, BeginInstall(pid, v)), Advance(pid, Answer(text)));
    After(After(After(asked, Advance(pid, Works)), Advance(pid, Works)), Advance(pid, Bodies(bodies)))
  }

  /** The state with a new cache of that name in place of the old one. */
  function Renewed(s: State, v: string, entries: map<string, Content>): State {
    s.(names := s.names[NameOf(v) := s.next], caches := s.caches[s.next := Cache(NameOf(v), entries)], next := s.next + 1)
  }

  lemma FetchedRuns(w: World, s: State, h: History, pid: nat, v: string, text: string, bodies: seq<Content>)
    requires pid !in Run(w, s, h).procs && Installable(w, text, v, bodies)
    ensures var r := Run(w, s, h);
            Run(w, s, Fetched(h, pid, v, text, bodies)) ==
            Goes(Renewed(r, v, map[]), pid, Putting(v, text, r.next, FilesOf(w, text), bodies, 0))
  {
    var r := Run(w, s, h);
    var h1 := After(After(h, BeginInstall(pid, v)), Advance(pid, Answer(text)));
    AskedRuns(w, s, h, pid, v, text);
    var h2 := After(h1, Advance(pid, Works));
    var h3 := After(h2, Advance(pid, Works));
    assert Run(w, s, h2) == Apply(w, Run(w, s, h1), Advance(pid, Works));
    assert Run(w, s, h3) == Apply(w, Run(w, s, h2), Advance(pid, Works));
    ClearsAndOpens(w, r, pid, v, text);
    FilesArrive(w, Renewed(r, v, map[]), pid, v, text, r.next, bodies);
  }

  lemma AskedRuns(w: World, s: State, h: History, pid: nat, v: string, text: string)
    requires pid !in Run(w, s, h).procs && IsManifest(w, text, v)
    ensures Run(w, s, After(After(h, BeginInstall(pid, v)), Advance(pid, Answer(text)))) == Goes(Run(w, s, h), pid, Clearing(v, text))
  {
    var h0 := After(h, BeginInstall(pid, v));
    assert Run(w, s, h0) == Goes(Run(w, s, h), pid, FetchingManifest(v));
  }

  lemma ClearsAndOpens(w: World, s: State, pid: nat, v: string, text: string)
    ensures Apply(w, Apply(w, Goes(s, pid, Clearing(v, text)), Advance(pid, Works)), Advance(pid, Works)) ==
            Goes(Renewed(s, v, map[]), pid, FetchingFiles(v, text, s.next))
  {
    var cleared := Goes(Delete(s, NameOf(v)), pid, Opening(v, text));
    assert Apply(w, Goes(s, pid, Clearing(v, text)), Advance(pid, Works)) == cleared;
    OpensFresh(w, s, pid, v, text);
  }

  lemma OpensFresh(w: World, s: State, pid: nat, v: string, text: string)
    ensures Apply(w, Goes(Delete(s, NameOf(v)), pid, Opening(v, text)), Advance(pid, Works)) ==
            Goes(Renewed(s, v, map[]), pid, FetchingFiles(v, text, s.next))
  {
    var t := Apply(w, Goes(Delete(s, NameOf(v)), pid, Opening(v, text)), Advance(pid, Works));
    assert t.names == s.names[NameOf(v) := s.next];
    assert t.procs == s.procs[pid := FetchingFiles(v, text, s.next)];
  }

  lemma FilesArrive(w: World, s: State, pid: nat, v: string, text: string, id: nat, bodies: seq<Content>)
    requires AllMatch(w, FilesOf(w, text), bodies)
    ensures Apply(w, Goes(s, pid, FetchingFiles(v, text, id)), Advance(pid, Bodies(bodies))) ==
            Goes(s, pid, Putting(v, text, id, FilesOf(w, text), bodies, 0))
  {
    assert s.procs[pid := FetchingFiles(v, text, id)][pid := Putting(v, text, id, FilesOf(w, text), bodies, 0)] ==
           s.procs[pid := Putting(v, text, id, FilesOf(w, text), bodies, 0)];
  }

  /** What the cache of an install holds in the end. */
  function AllEntries(w: World, v: string, text: string, bodies: seq<Content>): map<string, Content>
    requires |FilesOf(w, text)| == |bodies|
  {
    EntriesAfter(FilesOf(w, text), bodies, |bodies|)[MANIFEST_PATH := Text(text)][COMPLETE_MARKER := Text(v)]
  }

  /** All the steps of an install, none of which fails. */
  function Installed(h: History, pid: nat, v: string, text: string, bodies: seq<Content>): History {
    Working(Fetched(h, pid, v, text, bodies), pid, |bodies| + 2)
  }

  /** The files of an install, once they have arrived. */
  lemma FilesPutOn(w: World, s: State, f: History, r: State, pid: nat, p: Proc)
    requires p.Putting? && p.id == r.next && p.i == 0 && |p.files| == |p.bodies|
    requires Run(w, s, f) == Goes(Renewed(r, p.version, map[]), pid, p)
    ensures Run(w, s, Working(f, pid, |p.bodies|)) ==
            Goes(Renewed(r, p.version, EntriesAfter(p.files, p.bodies, |p.bodies|)), pid, p.(i := |p.bodies|))
  {
    PutsRun(w, s, f, pid, p, |p.bodies|);
    FilledRenewed(r, pid, p.version, p, |p.bodies|);
  }

  lemma FilesPut(w: World, s: State, h: History, pid: nat, v: string, text: string, bodies: seq<Content>)
    requires pid !in Run(w, s, h).procs && Installable(w, text, v, bodies)
    ensures var r := Run(w, s, h);
            var files := FilesOf(w, text);
            Run(w, s, Working(Fetched(h, pid, v, text, bodies), pid, |bodies|)) ==
            Goes(Renewed(r, v, EntriesAfter(files, bodies, |bodies|)), pid, Putting(v, text, r.next, files, bodies, |bodies|))
  {
    FetchedRuns(w, s, h, pid, v, text, bodies);
    var r := Run(w, s, h);
    FilesPutOn(w, s, Fetched(h, pid, v, text, bodies), r, pid, Putting(v, text, r.next, FilesOf(w, text), bodies, 0));
  }

  lemma FilledRenewed(r: State, pid: nat, v: string, p: Proc, n: nat)
    requires p.Putting? && p.id == r.next && p.version == v && n <= |p.files| == |p.bodies|
    ensures Filled(Goes(Renewed(r, v, map[]), pid, p), pid, p, n) == Goes(Renewed(r, v, EntriesAfter(p.files, p.bodies, n)), pid, p.(i := n))
  {
    var t := Filled(Goes(Renewed(r, v, map[]), pid, p), pid, p, n);
    assert t.caches == r.caches[r.next := Cache(NameOf(v), EntriesAfter(p.files, p.bodies, n))];
    assert t.procs == r.procs[pid := p.(i := n)];
  }

  /**
  An install nobody interferes with, whose files all arrive with their hashes, ends with its version
  complete: its name leads to a new cache with the files, the manifest and the marker, and nothing
  else has changed.
  */
  lemma InstallCompletes(w: World, s: State, h: History, pid: nat, v: string, text: string, bodies: seq<Content>)
    requires pid !in Run(w, s, h).procs && Installable(w, text, v, bodies)
    ensures Run(w, s, Installed(h, pid, v, text, bodies)) == Renewed(Run(w, s, h), v, AllEntries(w, v, text, bodies))
    ensures IsComplete(Run(w, s, Installed(h, pid, v, text, bodies)), v)
  {
    FetchedRuns(w, s, h, pid, v, text, bodies);
    var r := Run(w, s, h);
    AllPutsRun(w, s, Fetched(h, pid, v, text, bodies), r, pid, Putting(v, text, r.next, FilesOf(w, text), bodies, 0));
  }

  lemma AllPutsRun(w: World, s: State, f: History, r: State, pid: nat, p: Proc)
    requires pid !in r.procs && p.Putting? && p.id == r.next && p.i == 0 && |p.files| == |p.bodies|
    requires Run(w, s, f) == Goes(Renewed(r, p.version, map[]), pid, p)
    ensures Run(w, s, Working(f, pid, |p.bodies| + 2)) ==
            Renewed(r, p.version, EntriesAfter(p.files, p.bodies, |p.bodies|)[MANIFEST_PATH := Text(p.text)][COMPLETE_MARKER := Text(p.version)])
  {
    FilesPutOn(w, s, f, r, pid, p);
    LastPutsRun(w, s, f, r, pid, EntriesAfter(p.files, p.bodies, |p.bodies|), p.(i := |p.bodies|));
  }

  lemma MarkerIsPut(w: World, r: State, pid: nat, e: map<string, Content>, p: Proc)
    requires pid !in r.procs && p.Putting? && p.id == r.next && p.i == |p.files| + 1 && |p.files| == |p.bodies|
    ensures Apply(w, Goes(Renewed(r, p.version, e), pid, p), Advance(pid, Works)) ==
            Renewed(r, p.version, e[COMPLETE_MARKER := Text(p.version)])
  {
    var t := Apply(w, Goes(Renewed(r, p.version, e), pid, p), Advance(pid, Works));
    assert t.procs == r.procs;
    assert t.caches == r.caches[r.next := Cache(NameOf(p.version), e[COMPLETE_MARKER := Text(p.version)])];
  }

  lemma ManifestIsPut(w: World, r: State, pid: nat, e: map<string, Content>, p: Proc)
    requires p.Putting? && p.id == r.next && p.i == |p.files| == |p.bodies|
    ensures Apply(w, Goes(Renewed(r, p.version, e), pid, p), Advance(pid, Works)) ==
            Goes(Renewed(r, p.version, e[MANIFEST_PATH := Text(p.text)]), pid, p.(i := p.i + 1))
  {
    var t := Apply(w, Goes(Renewed(r, p.version, e), pid, p), Advance(pid, Works));
    assert t.procs == r.procs[pid := p.(i := p.i + 1)];
    assert t.caches == r.caches[r.next := Cache(NameOf(p.version), e[MANIFEST_PATH := Text(p.text)])];
  }

  /** The manifest and the marker, after all files. */
  lemma LastPutsRun(w: World, s: State, f: History, r: State, pid: nat, e: map<string, Content>, p: Proc)
    requires pid !in r.procs && p.Putting? && p.id == r.next && p.i == |p.files| == |p.bodies|
    requires Run(w, s, Working(f, pid, p.i)) == Goes(Renewed(r, p.version, e), pid, p)
    ensures Run(w, s, Working(f, pid, p.i + 2)) ==
            Renewed(r, p.version, e[MANIFEST_PATH := Text(p.text)][COMPLETE_MARKER := Text(p.version)])
  {
    WorkingRuns(w, s, f, pid, p.i + 1);
    ManifestIsPut(w, r, pid, e, p);
    WorkingRuns(w, s, f, pid, p.i + 2);
    MarkerIsPut(w, r, pid, e[MANIFEST_PATH := Text(p.text)], p.(i := p.i + 1));
  }

  /** The history of a lone install meets a condition that its beginning meets and that asks nothing of the other steps. */
  lemma InstalledKeeps(w: World, s: State, h: History, pid: nat, v: string, text: string, bodies: seq<Content>, n: nat, condition: (State, Event) -> bool)
    requires Keeps(w, s, h, condition) && condition(Run(w, s, h), BeginInstall(pid, v))
    requires forall t, input :: condition(t, Advance(pid, input))
    ensures Keeps(w, s, Working(Fetched(h, pid, v, text, bodies), pid, n), condition)
  {
    var h0 := After(h, BeginInstall(pid, v));
    assert Keeps(w, s, h0, condition);
    var h1 := After(h0, Advance(pid, Answer(text)));
    assert Keeps(w, s, h1, condition);
    var h2 := After(h1, Advance(pid, Works));
    assert Keeps(w, s, h2, condition);
    var h3 := After(h2, Advance(pid, Works));
    assert Keeps(w, s, h3, condition);
    WorkingKeeps(w, s, Fetched(h, pid, v, text, bodies), pid, n, condition);
  }
}
