/**
What every interleaving of installs and activations keeps, if no manifest lists the marker or itself
and manifests of one version agree where they overlap: a marked cache holds one whole build.
*/
module ServiceWorkerLaws {
  import opened ServiceWorker
  import opened ServiceWorkerRuns
  import opened ServiceWorkerShape

  // ----- what is asked of the manifests ---------------------------------------------------------

  /** No manifest whose files are to be had lists a file that leads to the marker or to the manifest. */
  ghost predicate NeitherListed(w: World) {
    forall t: string, v: string, bodies: seq<Content>, f: Listed :: Installable(w, t, v, bodies) && f in FilesOf(w, t) ==>
      f.path != COMPLETE_MARKER && f.path != MANIFEST_PATH
  }

  /** Manifests of one version whose files are to be had ask for the same content wherever they lead to one path. */
  ghost predicate Compatible(w: World) {
    forall v: string, t: string, bodies: seq<Content>, u: string, bodies': seq<Content>, f: Listed, g: Listed ::
      Installable(w, t, v, bodies) && Installable(w, u, v, bodies') && f in FilesOf(w, t) && g in FilesOf(w, u) && f.path == g.path ==>
        Covers(w, f, g)
  }

  // ----- the invariant ------------------------------------------------------------------------------

  /** The content fits whatever a manifest of the version lists at that path. */
  ghost predicate Fits(w: World, name: string, path: string, c: Content) {
    forall t: string, v: string, bodies: seq<Content>, f: Listed ::
      Installable(w, t, v, bodies) && NameOf(v) == name && f in FilesOf(w, t) && f.path == path ==> Matches(w, f, c)
  }

  ghost predicate AllFit(w: World, c: Cache) { forall p :: p in c.entries ==> Fits(w, c.name, p, c.entries[p]) }

  ghost predicate HasFirst(c: Cache, files: seq<Listed>, i: nat) {
    forall k :: 0 <= k < |files| && k < i ==> files[k].path in c.entries
  }

  /** The stored manifest is one of the version, its files were to be had, and all of them are there. */
  ghost predicate StoresManifest(w: World, c: Cache, v: string) {
    && IsManifestOf(w, c, v)
    && (exists bodies :: Installable(w, c.entries[MANIFEST_PATH].t, v, bodies))
    && HasFirst(c, FilesOf(w, c.entries[MANIFEST_PATH].t), |FilesOf(w, c.entries[MANIFEST_PATH].t)|)
  }

  ghost predicate CacheOk(w: World, c: Cache) {
    && AllFit(w, c)
    && (forall v :: NameOf(v) == c.name && MANIFEST_PATH in c.entries ==> StoresManifest(w, c, v))
    && (COMPLETE_MARKER in c.entries ==> MANIFEST_PATH in c.entries && exists v :: NameOf(v) == c.name)
  }

  /** What a putting install has put is still there. */
  ghost predicate Progress(s: State, p: Proc) {
    p.Putting? && p.id in s.caches ==>
      HasFirst(s.caches[p.id], p.files, p.i) && (p.i > |p.files| ==> MANIFEST_PATH in s.caches[p.id].entries)
  }

  ghost predicate Inv(w: World, s: State) {
    && Shaped(w, s)
    && (forall id :: id in s.caches ==> CacheOk(w, s.caches[id]))
    && (forall pid :: pid in s.procs ==> Progress(s, s.procs[pid]))
  }

  // ----- one put --------------------------------------------------------------------------------------

  lemma FileFits(w: World, v: string, text: string, bodies: seq<Content>, k: nat)
    requires Compatible(w) && Installable(w, text, v, bodies) && k < |FilesOf(w, text)|
    ensures Fits(w, NameOf(v), FilesOf(w, text)[k].path, bodies[k])
  {
    var file := FilesOf(w, text)[k];
    forall t: string, u: string, bodies': seq<Content>, f: Listed
      | Installable(w, t, u, bodies') && NameOf(u) == NameOf(v) && f in FilesOf(w, t) && f.path == file.path
      ensures Matches(w, f, bodies[k])
    {
      NameOfInjective(u, v);
      assert Covers(w, file, f);
      assert bodies[k] == Bytes(bodies[k].b);
    }
  }

  lemma FilePutOk(w: World, c: Cache, v: string, text: string, bodies: seq<Content>, k: nat)
    requires NeitherListed(w) && Compatible(w) && CacheOk(w, c) && c.name == NameOf(v)
    requires Installable(w, text, v, bodies) && k < |FilesOf(w, text)|
    ensures CacheOk(w, Cache(c.name, c.entries[FilesOf(w, text)[k].path := bodies[k]]))
  {
    var file := FilesOf(w, text)[k];
    var after := Cache(c.name, c.entries[file.path := bodies[k]]);
    FileFits(w, v, text, bodies, k);
    assert file in FilesOf(w, text);
    forall u | NameOf(u) == c.name && MANIFEST_PATH in after.entries ensures StoresManifest(w, after, u) {
      assert StoresManifest(w, c, u);
    }
  }

  lemma ManifestPutOk(w: World, c: Cache, v: string, text: string, bodies: seq<Content>)
    requires NeitherListed(w) && CacheOk(w, c) && c.name == NameOf(v)
    requires Installable(w, text, v, bodies) && HasFirst(c, FilesOf(w, text), |FilesOf(w, text)|)
    ensures CacheOk(w, Cache(c.name, c.entries[MANIFEST_PATH := Text(text)]))
  {
    var after := Cache(c.name, c.entries[MANIFEST_PATH := Text(text)]);
    forall u | NameOf(u) == c.name ensures StoresManifest(w, after, u) { NameOfInjective(u, v); }
  }

  lemma MarkerPutOk(w: World, c: Cache, v: string)
    requires NeitherListed(w) && CacheOk(w, c) && c.name == NameOf(v) && MANIFEST_PATH in c.entries
    ensures CacheOk(w, Cache(c.name, c.entries[COMPLETE_MARKER := Text(v)]))
  {
    var after := Cache(c.name, c.entries[COMPLETE_MARKER := Text(v)]);
    forall u | NameOf(u) == c.name ensures StoresManifest(w, after, u) { assert StoresManifest(w, c, u); }
  }

  lemma PutOk(w: World, s: State, p: Proc)
    requires NeitherListed(w) && Compatible(w) && p.Putting? && ProcShaped(w, s, p) && Progress(s, p) && CacheOk(w, s.caches[p.id])
    ensures var c := s.caches[p.id]; CacheOk(w, Cache(c.name, c.entries[NextPath(p) := NextContent(p)]))
  {
    var c := s.caches[p.id];
    if p.i < |p.files| {
      FilePutOk(w, c, p.version, p.text, p.bodies, p.i);
    } else if p.i == |p.files| {
      ManifestPutOk(w, c, p.version, p.text, p.bodies);
    } else {
      MarkerPutOk(w, c, p.version);
    }
  }

  // ----- one step -------------------------------------------------------------------------------------

  lemma StepCacheOk(w: World, s: State, pid: nat, input: Input, id: nat)
    requires NeitherListed(w) && Compatible(w) && Inv(w, s) && pid in s.procs && id in StepProc(w, s, pid, s.procs[pid], input).caches
    ensures CacheOk(w, StepProc(w, s, pid, s.procs[pid], input).caches[id])
  {
    var p := s.procs[pid];
    StepCache(w, s, pid, input, id);
    if Puts(p, input) && p.id == id { PutOk(w, s, p); }
  }

  lemma ProgressStays(s: State, s': State, p: Proc)
    requires Grows(s, s') && Progress(s, p) && (p.Putting? ==> p.id in s.caches)
    ensures Progress(s', p)
  {
    if p.Putting? { assert s.caches[p.id].entries.Keys <= s'.caches[p.id].entries.Keys; }
  }

  lemma OwnProgress(w: World, s: State, pid: nat, input: Input)
    requires Shaped(w, s) && pid in s.procs && Progress(s, s.procs[pid])
    ensures var s' := StepProc(w, s, pid, s.procs[pid], input); pid in s'.procs ==> Progress(s', s'.procs[pid])
  {
    var p := s.procs[pid];
    assert ProcShaped(w, s, p);
    if Puts(p, input) { PutProgress(w, s, pid, p); }
  }

  lemma PutProgress(w: World, s: State, pid: nat, p: Proc)
    requires p.Putting? && ProcShaped(w, s, p) && Progress(s, p)
    ensures var s' := PutNext(s, pid, p); pid in s'.procs ==> Progress(s', s'.procs[pid])
  {
    if p.i < |p.files| {
      var c := PutNext(s, pid, p).caches[p.id];
      forall k | 0 <= k < |p.files| && k < p.i + 1 ensures p.files[k].path in c.entries {}
    }
  }

  lemma AdvanceKeepsInv(w: World, s: State, pid: nat, input: Input)
    requires NeitherListed(w) && Compatible(w) && Inv(w, s) && pid in s.procs
    ensures Inv(w, StepProc(w, s, pid, s.procs[pid], input))
  {
    var s' := Apply(w, s, Advance(pid, input));
    StepShaped(w, s, Advance(pid, input));
    StepGrows(w, s, Advance(pid, input));
    OthersStay(w, s, pid, input);
    OwnProgress(w, s, pid, input);
    forall q | q in s'.procs ensures Progress(s', s'.procs[q]) {
      if q != pid { assert ProcShaped(w, s, s.procs[q]); ProgressStays(s, s', s.procs[q]); }
    }
    forall id | id in s'.caches ensures CacheOk(w, s'.caches[id]) { StepCacheOk(w, s, pid, input, id); }
  }

  lemma StepKeepsInv(w: World, s: State, e: Event)
    requires NeitherListed(w) && Compatible(w) && Inv(w, s)
    ensures Inv(w, Apply(w, s, e))
  {
    if e.Advance? && e.pid in s.procs { AdvanceKeepsInv(w, s, e.pid, e.input); } else { StepShaped(w, s, e); }
  }

  // ----- every run ------------------------------------------------------------------------------------

  /**
  Whatever installs and activations run interleaved, and wherever they stop, a cache that carries the
  marker holds a manifest of its version and every file that manifest lists, and whatever stands in it
  has the hash that every manifest of the version gives it.
  */
  lemma {:induction false} EveryRunKeepsInv(w: World, s: State, h: History)
    requires NeitherListed(w) && Compatible(w) && Initial(s)
    ensures Inv(w, Run(w, s, h))
  {
    if h.After? {
      EveryRunKeepsInv(w, s, h.before);
      StepKeepsInv(w, Run(w, s, h.before), h.event);
    }
  }

  /** A file of a manifest whose files are all in the cache is there as listed. */
  lemma StoredMatches(w: World, c: Cache, v: string, text: string, bodies: seq<Content>, f: Listed)
    requires AllFit(w, c) && c.name == NameOf(v) && Installable(w, text, v, bodies) && f in FilesOf(w, text)
    requires HasFirst(c, FilesOf(w, text), |FilesOf(w, text)|)
    ensures f.path in c.entries && Matches(w, f, c.entries[f.path])
  {
    var k :| 0 <= k < |FilesOf(w, text)| && FilesOf(w, text)[k] == f;
    assert Fits(w, c.name, f.path, c.entries[f.path]);
  }

  lemma OkIsHonest(w: World, c: Cache)
    requires CacheOk(w, c)
    ensures HonestCache(w, c)
  {
    if COMPLETE_MARKER in c.entries {
      var v :| NameOf(v) == c.name;
      assert StoresManifest(w, c, v);
      var text := c.entries[MANIFEST_PATH].t;
      var bodies :| Installable(w, text, v, bodies);
      forall f | f in FilesOf(w, text) ensures f.path in c.entries && Matches(w, f, c.entries[f.path]) {
        StoredMatches(w, c, v, text, bodies, f);
      }
    }
  }

  lemma InvIsHonest(w: World, s: State)
    requires Inv(w, s)
    ensures Honest(w, s)
  {
    forall id | id in s.caches ensures HonestCache(w, s.caches[id]) { OkIsHonest(w, s.caches[id]); }
  }

  /**
  Offline, a worker answers from the complete cache of its own version or not at all: the cache holds
  a manifest of that version, and each file listed in it is answered with content of the listed hash.
  */
  lemma OfflineServesOneBuild(w: World, s: State, h: History, version: string)
    requires NeitherListed(w) && Compatible(w) && Initial(s)
    ensures ServesOneBuild(w, Run(w, s, h), version)
  {
    EveryRunKeepsInv(w, s, h);
    InvIsHonest(w, Run(w, s, h));
    HonestServes(w, Run(w, s, h), version);
  }

  /**
  An answer that is put together across several awaits is as good: when a cache was opened and seen to
  carry the marker at one time, then at every later time, whatever has happened to its name, it is
  marked and holds every file of the manifest it held then, with the hash listed there.
  */
  lemma ReadAcrossAwaits(w: World, s: State, g: History, h: History, id: nat, version: string)
    requires NeitherListed(w) && Compatible(w) && Initial(s) && Earlier(g, h)
    requires IsCacheOf(Run(w, s, g), id, version) && HasMarker(Run(w, s, g), id)
    ensures HasMarker(Run(w, s, h), id) && IsManifestOf(w, Run(w, s, g).caches[id], version)
    ensures forall f :: f in FilesOf(w, Run(w, s, g).caches[id].entries[MANIFEST_PATH].t) ==>
              var c := Run(w, s, h).caches[id]; f.path in c.entries && Matches(w, f, c.entries[f.path])
  {
    EveryRunKeepsInv(w, s, g);
    EveryRunKeepsInv(w, s, h);
    RunGrows(w, s, g, h);
    GrownStores(w, Run(w, s, g).caches[id], Run(w, s, h).caches[id], version);
  }

  lemma GrownStores(w: World, c: Cache, d: Cache, v: string)
    requires CacheOk(w, c) && AllFit(w, d) && c.name == d.name == NameOf(v) && c.entries.Keys <= d.entries.Keys && COMPLETE_MARKER in c.entries
    ensures IsManifestOf(w, c, v)
    ensures forall f :: f in FilesOf(w, c.entries[MANIFEST_PATH].t) ==> f.path in d.entries && Matches(w, f, d.entries[f.path])
  {
    assert StoresManifest(w, c, v);
    var text := c.entries[MANIFEST_PATH].t;
    var bodies :| Installable(w, text, v, bodies);
    forall f | f in FilesOf(w, text) ensures f.path in d.entries && Matches(w, f, d.entries[f.path]) {
      StoredMatches(w, d, v, text, bodies, f);
    }
  }
}
