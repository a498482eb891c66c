/**
The cache protocol of web/sw.js as a transition system. Any number of installs and activations, of
any versions, run interleaved; a step is what happens between two `await`s, and a process that takes
no further step has been stopped. A cache is an object that a name may or may not lead to: deleting
a name does not touch the object another process is still writing to.
*/
module ServiceWorker {
  import opened Basics

  const CACHE_PREFIX: string := "miasma-web-"
  const MANIFEST_PATH: string := "asset-manifest.json"
  const COMPLETE_MARKER: string := "__complete"
  const NOT_CACHED: string := "sw.js"
  const INDEX: string := "index.html"

  function NameOf(version: string): string { CACHE_PREFIX + version }

  lemma NameOfInjective(v: string, w: string)
    requires NameOf(v) == NameOf(w)
    ensures v == w
  {
    assert NameOf(v)[|CACHE_PREFIX|..] == v && NameOf(w)[|CACHE_PREFIX|..] == w;
  }

  // ----- files and manifests ---------------------------------------------------------------

  /** A response as the network gave it, or as the worker made it from a text. */
  datatype Content = Bytes(b: seq<int>) | Text(t: string)

  /**
  A file as a manifest lists it: its name, and the path that the name leads to from the worker's scope.
  Caches are keyed by the path. Names are distinct, but several may lead to one path.
  */
  datatype Listed = Listed(rel: string, path: string, hash: string)

  datatype Manifest = Manifest(version: string, files: seq<Listed>)

  /** What is not this protocol's: reading a manifest text as JSON, SHA-256 in hexadecimal, and the bytes of a text. */
  datatype World = World(parse: string -> Option<Manifest>, sha256: seq<int> -> string, utf8: string -> seq<int>)

  ghost predicate IsManifest(w: World, text: string, version: string) {
    w.parse(text).Some? && w.parse(text).value.version == version
  }

  predicate EndsWith(s: string, end: string) { |s| >= |end| && s[|s| - |end|..] == end }

  predicate IsTextName(p: string) { EndsWith(p, ".js") || EndsWith(p, ".html") || EndsWith(p, ".css") || EndsWith(p, ".json") }

  function DropReturns(b: seq<int>): seq<int> {
    if b == [] then [] else (if b[0] == 0x0d then [] else [b[0]]) + DropReturns(b[1..])
  }

  /** Line endings do not change the hash of a text file. */
  function Normalise(p: string, b: seq<int>): seq<int> { if IsTextName(p) then DropReturns(b) else b }

  function BytesOf(w: World, c: Content): seq<int> { match c case Bytes(b) => b case Text(t) => w.utf8(t) }

  predicate Matches(w: World, f: Listed, c: Content) { w.sha256(Normalise(f.rel, BytesOf(w, c))) == f.hash }

  /** The files of a manifest that go into the cache. */
  function ToCache(files: seq<Listed>): seq<Listed> {
    if files == [] then []
    else (if files[0].rel == NOT_CACHED then [] else [files[0]]) + ToCache(files[1..])
  }

  lemma {:induction false} ToCacheKeeps(files: seq<Listed>, f: Listed)
    ensures f in ToCache(files) <==> f in files && f.rel != NOT_CACHED
  {
    if files != [] {
      assert files == [files[0]] + files[1..];
      ToCacheKeeps(files[1..], f);
    }
  }

  // ----- caches and processes -----------------------------------------------------------------

  datatype Cache = Cache(name: string, entries: map<string, Content>)

  /** Where a process stands: each constructor is an `await` that has not finished. */
  datatype Proc =
    | FetchingManifest(version: string)
    | Clearing(version: string, text: string)
    | Opening(version: string, text: string)
    | FetchingFiles(version: string, text: string, id: nat)
    | Putting(version: string, text: string, id: nat, files: seq<Listed>, bodies: seq<Content>, i: nat)
    | RollingBack(version: string)
    | ActivateOpening(version: string)
    | ActivateMatching(version: string, id: nat)
    | ActivateListing(version: string)
    | Deleting(version: string, rest: set<string>)

  /** Which cache each name leads to, every cache made so far, the number of the next one, and the processes. */
  datatype State = State(names: map<string, nat>, caches: map<nat, Cache>, next: nat, procs: map<nat, Proc>)

  /** How an `await` ends. */
  datatype Input = Answer(text: string) | Bodies(bodies: seq<Content>) | Works | Picks(name: string) | Fails

  datatype Event =
    | BeginInstall(pid: nat, version: string)
    | BeginActivate(pid: nat, version: string)
    | Advance(pid: nat, input: Input)
    | Stop(pid: nat)

  function Ends(s: State, pid: nat): State { s.(procs := s.procs - {pid}) }

  function Goes(s: State, pid: nat, p: Proc): State { s.(procs := s.procs[pid := p]) }

  /** `caches.open`: the cache of that name, made if there is none. */
  function Open(s: State, name: string): (r: (State, nat))
    ensures r.0.procs == s.procs
  {
    if name in s.names then (s, s.names[name])
    else
      (s.(names := s.names[name := s.next], caches := s.caches[s.next := Cache(name, map[])], next := s.next + 1), s.next)
  }

  function Delete(s: State, name: string): State { s.(names := s.names - {name}) }

  function Put(s: State, id: nat, path: string, c: Content): (r: State)
    ensures r.procs == s.procs && r.names == s.names
  {
    if id !in s.caches then s
    else s.(caches := s.caches[id := s.caches[id].(entries := s.caches[id].entries[path := c])])
  }

  predicate HasMarker(s: State, id: nat) { id in s.caches && COMPLETE_MARKER in s.caches[id].entries }

  /** `fetchChecked` of every file: each body belongs to its file. */
  predicate AllMatch(w: World, files: seq<Listed>, bodies: seq<Content>) {
    |bodies| == |files| && forall k :: 0 <= k < |files| ==> bodies[k].Bytes? && Matches(w, files[k], bodies[k])
  }

  function FilesOf(w: World, text: string): seq<Listed> {
    match w.parse(text) case Some(m) => ToCache(m.files) case None => []
  }

  // ----- the steps --------------------------------------------------------------------------------

  /** The files one after the other, then the manifest, and the marker last. */
  function PutNext(s: State, pid: nat, p: Proc): State
    requires p.Putting?
  {
    if p.i < |p.files| && p.i < |p.bodies| then Goes(Put(s, p.id, p.files[p.i].path, p.bodies[p.i]), pid, p.(i := p.i + 1))
    else if p.i == |p.files| then Goes(Put(s, p.id, MANIFEST_PATH, Text(p.text)), pid, p.(i := p.i + 1))
    else Ends(Put(s, p.id, COMPLETE_MARKER, Text(p.version)), pid)
  }

  /** The next `await` of an install or an activation ends as the input says. */
  function StepProc(w: World, s: State, pid: nat, p: Proc, input: Input): State {
    match p
    case FetchingManifest(v) =>
      if input.Answer? && w.parse(input.text).Some? && w.parse(input.text).value.version == v
      then Goes(s, pid, Clearing(v, input.text)) else Ends(s, pid)
    case Clearing(v, text) => Goes(Delete(s, NameOf(v)), pid, Opening(v, text))
    case Opening(v, text) =>
      var (s', id) := Open(s, NameOf(v));
      Goes(s', pid, FetchingFiles(v, text, id))
    case FetchingFiles(v, text, id) =>
      if input.Bodies? && AllMatch(w, FilesOf(w, text), input.bodies) then Goes(s, pid, Putting(v, text, id, FilesOf(w, text), input.bodies, 0))
      else Goes(s, pid, RollingBack(v))
    case Putting(v, _, _, _, _, _) => if input.Fails? then Goes(s, pid, RollingBack(v)) else PutNext(s, pid, p)
    case RollingBack(v) => Ends(Delete(s, NameOf(v)), pid)
    case ActivateOpening(v) =>
      var (s', id) := Open(s, NameOf(v));
      Goes(s', pid, ActivateMatching(v, id))
    case ActivateMatching(v, id) => if HasMarker(s, id) then Goes(s, pid, ActivateListing(v)) else Ends(s, pid)
    case ActivateListing(v) => Goes(s, pid, Deleting(v, s.names.Keys - {NameOf(v)}))
    case Deleting(v, rest) =>
      if input.Picks? && input.name in rest then Goes(Delete(s, input.name), pid, Deleting(v, rest - {input.name}))
      else s
  }

  function Apply(w: World, s: State, e: Event): State {
    match e
    case BeginInstall(pid, v) => if pid in s.procs then s else Goes(s, pid, FetchingManifest(v))
    case BeginActivate(pid, v) => if pid in s.procs then s else Goes(s, pid, ActivateOpening(v))
    case Advance(pid, input) => if pid in s.procs then StepProc(w, s, pid, s.procs[pid], input) else s
    case Stop(pid) => Ends(s, pid)
  }

  /** What has happened so far, the latest event last. */
  datatype History = Nothing | After(before: History, event: Event)

  function Run(w: World, s: State, h: History): State {
    match h
    case Nothing => s
    case After(before, e) => Apply(w, Run(w, s, before), e)
  }

  // ----- the offline answer ---------------------------------------------------------------------

  predicate IsComplete(s: State, version: string) { NameOf(version) in s.names && HasMarker(s, s.names[NameOf(version)]) }

  function Lookup(c: Cache, path: string): Option<Content> {
    if path in c.entries then Some(c.entries[path]) else None
  }

  /** `cachedResponse`: only from the complete cache of this very version. */
  function CachedResponse(s: State, version: string, path: string, navigate: bool): Option<Content> {
    if !IsComplete(s, version) then None
    else
      var c := s.caches[s.names[NameOf(version)]];
      if navigate && Lookup(c, path).None? then Lookup(c, INDEX) else Lookup(c, path)
  }
}
