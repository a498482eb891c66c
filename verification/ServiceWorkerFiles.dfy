/** Which bodies have the hash a manifest lists: in text files line endings do not count. */
module ServiceWorkerFiles {
  import opened ServiceWorker
  import opened ServiceWorkerRuns

  // ----- dropping carriage returns -------------------------------------------------------------------

  const RETURN: int := 13

  /** `places` are the places of `kept` in `b`, in order, and elsewhere are carriage returns only. */
  ghost predicate KeepsAllBut(b: seq<int>, kept: seq<int>, places: seq<int>) {
    && |places| == |kept|
    && (forall i :: 0 <= i < |kept| ==> 0 <= places[i] < |b| && kept[i] == b[places[i]] != RETURN)
    && (forall i, j :: 0 <= i < j < |places| ==> places[i] < places[j])
    && (forall k :: 0 <= k < |b| && b[k] != RETURN ==> k in places)
  }

  ghost function PlacesKept(b: seq<int>): seq<int> {
    if b == [] then [] else PlacesKept(b[..|b| - 1]) + (if b[|b| - 1] == RETURN then [] else [|b| - 1])
  }

  lemma {:induction false} DropReturnsSnoc(b: seq<int>, x: int)
    ensures DropReturns(b + [x]) == DropReturns(b) + (if x == RETURN then [] else [x])
  {
    if b == [] {
      assert b + [x] == [x] && [x][1..] == [];
    } else {
      DropReturnsSnoc(b[1..], x);
      assert (b + [x])[1..] == b[1..] + [x];
    }
  }

  lemma KeepsOneMore(b: seq<int>, kept: seq<int>, places: seq<int>, x: int)
    requires KeepsAllBut(b, kept, places)
    ensures if x == RETURN then KeepsAllBut(b + [x], kept, places) else KeepsAllBut(b + [x], kept + [x], places + [|b|])
  {
    forall k | 0 <= k < |b| + 1 && (b + [x])[k] != RETURN ensures k in places + [|b|] && (k < |b| ==> k in places) {
      if k < |b| { assert b[k] != RETURN; }
    }
  }

  /** What is kept are the bytes that are not carriage returns, in their order and number. */
  lemma {:induction false} DropReturnsKeeps(b: seq<int>)
    ensures KeepsAllBut(b, DropReturns(b), PlacesKept(b))
    decreases |b|
  {
    if b != [] {
      var init, x := b[..|b| - 1], b[|b| - 1];
      assert b == init + [x];
      DropReturnsKeeps(init);
      DropReturnsSnoc(init, x);
      KeepsOneMore(init, DropReturns(init), PlacesKept(init), x);
      assert DropReturns(init) + [] == DropReturns(init) && PlacesKept(init) + [] == PlacesKept(init);
    }
  }

  // ----- text files --------------------------------------------------------------------------------------

  ghost predicate NamedLike(p: string, ext: string) { exists stem :: p == stem + ext }

  lemma EndsLike(p: string, ext: string)
    ensures EndsWith(p, ext) <==> NamedLike(p, ext)
  {
    if EndsWith(p, ext) { assert p == p[..|p| - |ext|] + ext; }
  }

  lemma TextNames(p: string)
    ensures IsTextName(p) <==> NamedLike(p, ".js") || NamedLike(p, ".html") || NamedLike(p, ".css") || NamedLike(p, ".json")
  {
    EndsLike(p, ".js");
    EndsLike(p, ".html");
    EndsLike(p, ".css");
    EndsLike(p, ".json");
  }

  /** Equal, or in a text file equal but for carriage returns. */
  ghost predicate SameFile(name: string, b: seq<int>, c: seq<int>) {
    b == c || (IsTextName(name) && DropReturns(b) == DropReturns(c))
  }

  /** A text file has the hash of what is left without carriage returns, any other that of its bytes. */
  lemma MatchesIs(w: World, f: Listed, c: Content)
    ensures IsTextName(f.rel) ==> (Matches(w, f, c) <==> w.sha256(DropReturns(BytesOf(w, c))) == f.hash)
    ensures !IsTextName(f.rel) ==> (Matches(w, f, c) <==> w.sha256(BytesOf(w, c)) == f.hash)
  {
  }

  lemma SameFileMatches(w: World, f: Listed, b: seq<int>, c: seq<int>)
    requires SameFile(f.rel, b, c)
    ensures Matches(w, f, Bytes(b)) <==> Matches(w, f, Bytes(c))
  {
    MatchesIs(w, f, Bytes(b));
    MatchesIs(w, f, Bytes(c));
  }

  /** A build served with other line endings in its text files can be installed exactly when it can with these. */
  lemma LineEndingsDoNotCount(w: World, text: string, v: string, bodies: seq<seq<int>>, bodies': seq<seq<int>>)
    requires |bodies| == |bodies'| == |FilesOf(w, text)|
    requires forall k :: 0 <= k < |bodies| ==> SameFile(FilesOf(w, text)[k].rel, bodies[k], bodies'[k])
    ensures Installable(w, text, v, Served(bodies)) <==> Installable(w, text, v, Served(bodies'))
  {
    var files := FilesOf(w, text);
    forall k | 0 <= k < |files| ensures Matches(w, files[k], Bytes(bodies[k])) <==> Matches(w, files[k], Bytes(bodies'[k])) {
      SameFileMatches(w, files[k], bodies[k], bodies'[k]);
    }
  }

  /** What is served, as responses. */
  function Served(bodies: seq<seq<int>>): (r: seq<Content>)
    ensures |r| == |bodies| && forall k :: 0 <= k < |r| ==> r[k] == Bytes(bodies[k])
  {
    seq(|bodies|, k requires 0 <= k < |bodies| => Bytes(bodies[k]))
  }

  /** Exactly the bodies of the right number, each with the hash listed for its file, let an install of the version go on. */
  lemma InstallableIs(w: World, text: string, v: string, bodies: seq<seq<int>>)
    ensures Installable(w, text, v, Served(bodies)) <==>
            && w.parse(text).Some? && w.parse(text).value.version == v && |bodies| == |FilesOf(w, text)|
            && forall k :: 0 <= k < |bodies| ==>
                 var f := FilesOf(w, text)[k];
                 f.hash == w.sha256(if IsTextName(f.rel) then DropReturns(bodies[k]) else bodies[k])
  {
    var files := FilesOf(w, text);
    if |bodies| == |files| {
      forall k | 0 <= k < |files|
        ensures Matches(w, files[k], Bytes(bodies[k])) <==>
                files[k].hash == w.sha256(if IsTextName(files[k].rel) then DropReturns(bodies[k]) else bodies[k])
      {
        MatchesIs(w, files[k], Bytes(bodies[k]));
      }
    }
  }
}
