/** What the file list of a torrent holds: names, paths and sizes, and which error stands for which defect. */
module TorrentLaws {
  import opened Basics
  import opened Decimal
  import opened Bencode
  import opened BencodeLaws
  import opened BencodeDicts
  import opened Texts
  import opened Torrent

  // ----- what stands in a dictionary ----------------------------------------------------------------

  /** The value is a dictionary with that entry. */
  ghost predicate Holds(v: Value, key: seq<byte>, x: Value) { v.Dict? && Entry(key, x) in v.entries }

  lemma HoldsIsGet(v: Value, key: seq<byte>, x: Value)
    requires WellFormed(v)
    ensures DictGet(v, key) == Some(x) <==> Holds(v, key, x)
  {
    if v.Dict? { GetIs(v.entries, key, x); }
  }

  ghost predicate HoldsAny(v: Value, key: seq<byte>) { exists x :: Holds(v, key, x) }

  ghost predicate HoldsInt(v: Value, key: seq<byte>) { exists n :: Holds(v, key, Int(n)) }

  ghost predicate HoldsList(v: Value, key: seq<byte>) { exists items :: Holds(v, key, List(items)) }

  lemma HoldsAnyIsGet(v: Value, key: seq<byte>)
    requires WellFormed(v)
    ensures HoldsAny(v, key) <==> DictGet(v, key).Some?
    ensures HoldsInt(v, key) <==> DictInt(v, key).Some?
    ensures HoldsList(v, key) <==> DictGet(v, key).Some? && DictGet(v, key).value.List?
  {
    if DictGet(v, key).Some? {
      HoldsIsGet(v, key, DictGet(v, key).value);
      var x := DictGet(v, key).value;
      if x.Int? { assert x == Int(x.i); }
      if x.List? { assert x == List(x.items); }
    }
    forall x | Holds(v, key, x) ensures DictGet(v, key) == Some(x) { HoldsIsGet(v, key, x); }
  }

  // ----- names, paths and sizes -----------------------------------------------------------------------

  /** The text under the key, or the default when there is none that is text. */
  ghost predicate NameIs(v: Value, utf8: Utf8, default: string, name: string) {
    if exists b :: Holds(v, KEY_NAME, Bytes(b)) && utf8(b).Some? then exists b :: Holds(v, KEY_NAME, Bytes(b)) && utf8(b) == Some(name)
    else name == default
  }

  lemma NameIsText(v: Value, utf8: Utf8, default: string)
    requires WellFormed(v)
    ensures NameIs(v, utf8, default, TextOr(v, KEY_NAME, utf8, default))
  {
    forall x | Holds(v, KEY_NAME, x) ensures DictGet(v, KEY_NAME) == Some(x) { HoldsIsGet(v, KEY_NAME, x); }
    if DictGet(v, KEY_NAME).Some? {
      var x := DictGet(v, KEY_NAME).value;
      HoldsIsGet(v, KEY_NAME, x);
      if x.Bytes? { assert x == Bytes(x.b); }
    }
  }

  /** The parts that are text, in their order. */
  ghost function TextParts(parts: seq<Value>, utf8: Utf8): seq<string> {
    if parts == [] then []
    else
      var p := parts[0];
      (if p.Bytes? && utf8(p.b).Some? then [utf8(p.b).value] else []) + TextParts(parts[1..], utf8)
  }

  /** A path is the name and the text parts, a slash between each two. */
  lemma {:induction false} PathIsJoined(name: string, parts: seq<Value>, utf8: Utf8)
    ensures JoinPath(name, parts, utf8) == Join([name] + TextParts(parts, utf8), '/')
    decreases |parts|
  {
    if parts == [] {
      assert [name] + TextParts(parts, utf8) == [name];
    } else {
      var p, rest := parts[0], TextParts(parts[1..], utf8);
      if p.Bytes? && utf8(p.b).Some? {
        var s := utf8(p.b).value;
        PathIsJoined(name + "/" + s, parts[1..], utf8);
        OnePartMore(name, s, rest);
      } else {
        PathIsJoined(name, parts[1..], utf8);
        assert [] + rest == rest;
      }
    }
  }

  lemma OnePartMore(name: string, s: string, rest: seq<string>)
    ensures Join([name + "/" + s] + rest, '/') == Join([name] + ([s] + rest), '/')
  {
    JoinFirstTwo(name, s, rest, '/');
    assert [name] + ([s] + rest) == [name, s] + rest;
  }

  /** Name and parts are found again at the slashes, if they hold none. */
  lemma PathSplits(name: string, parts: seq<Value>, utf8: Utf8)
    requires '/' !in name && forall p :: p in TextParts(parts, utf8) ==> '/' !in p
    ensures Split(JoinPath(name, parts, utf8), '/') == [name] + TextParts(parts, utf8)
  {
    PathIsJoined(name, parts, utf8);
    SplitOfJoin([name] + TextParts(parts, utf8), '/');
  }

  /** The cast: the number itself if it is not negative, and in any case the one that differs by a multiple of 2^64. */
  lemma CastIs(i: int)
    requires IsI64(i)
    ensures 0 <= AsU64(i) < 0x1_0000_0000_0000_0000 && (i >= 0 ==> AsU64(i) == i)
    ensures AsU64(i) == i || AsU64(i) == i + 0x1_0000_0000_0000_0000
  {
  }

  // ----- the whole list ----------------------------------------------------------------------------------

  /** A file as an entry of `files` describes it. */
  ghost predicate Describes(e: Value, f: FileEntry, name: string, utf8: Utf8) {
    exists n, parts ::
      && Holds(e, KEY_LENGTH, Int(n)) && Holds(e, KEY_PATH, List(parts))
      && IsI64(n) && f.size == AsU64(n) && f.path == Join([name] + TextParts(parts, utf8), '/')
  }

  ghost predicate IsFile(e: Value) { HoldsInt(e, KEY_LENGTH) && HoldsList(e, KEY_PATH) }

  lemma FileOfIs(name: string, e: Value, utf8: Utf8)
    requires WellFormed(e)
    ensures FileOf(name, e, utf8).Ok? <==> IsFile(e)
    ensures IsFile(e) ==> Describes(e, FileOf(name, e, utf8).value, name, utf8)
    ensures !IsFile(e) ==> FileOf(name, e, utf8) == Err(if HoldsInt(e, KEY_LENGTH) then FileMissingPath else FileMissingLength)
  {
    HoldsAnyIsGet(e, KEY_LENGTH);
    HoldsAnyIsGet(e, KEY_PATH);
    if IsFile(e) {
      var n, parts := DictInt(e, KEY_LENGTH).value, DictGet(e, KEY_PATH).value.items;
      GetIsInside(e, KEY_LENGTH);
      HoldsIsGet(e, KEY_LENGTH, Int(n));
      HoldsIsGet(e, KEY_PATH, List(parts));
      PathIsJoined(name, parts, utf8);
    }
  }

  /** The list goes on from what was done with a file for each entry. */
  ghost predicate Continues(list: seq<FileEntry>, done: seq<FileEntry>, entries: seq<Value>, name: string, utf8: Utf8) {
    && |list| == |done| + |entries| && done <= list
    && forall i :: 0 <= i < |entries| ==> Describes(entries[i], list[|done| + i], name, utf8)
  }

  lemma ContinuesOn(list: seq<FileEntry>, done: seq<FileEntry>, f: FileEntry, entries: seq<Value>, name: string, utf8: Utf8)
    requires entries != [] && Describes(entries[0], f, name, utf8) && Continues(list, done + [f], entries[1..], name, utf8)
    ensures Continues(list, done, entries, name, utf8)
  {
    assert done + [f] <= list;
    assert list[|done|] == f;
    forall i | 0 <= i < |entries| ensures Describes(entries[i], list[|done| + i], name, utf8) {
      if i > 0 { assert entries[i] == entries[1..][i - 1]; }
    }
  }

  lemma {:induction false} AllFiles(name: string, entries: seq<Value>, utf8: Utf8, done: seq<FileEntry>)
    requires forall e :: e in entries ==> WellFormed(e) && IsFile(e)
    ensures var r := FilesFrom(name, entries, utf8, done); r.Ok? && Continues(r.value, done, entries, name, utf8)
    decreases |entries|
  {
    if entries != [] {
      assert entries[0] in entries;
      FileOfIs(name, entries[0], utf8);
      var f := FileOf(name, entries[0], utf8).value;
      AllFiles(name, entries[1..], utf8, done + [f]);
      ContinuesOn(FilesFrom(name, entries, utf8, done).value, done, f, entries, name, utf8);
    }
  }

  lemma {:induction false} FirstBadFile(name: string, entries: seq<Value>, utf8: Utf8, done: seq<FileEntry>, k: nat)
    requires (forall e :: e in entries ==> WellFormed(e)) && k < |entries| && !IsFile(entries[k])
    requires forall i :: 0 <= i < k ==> IsFile(entries[i])
    ensures FilesFrom(name, entries, utf8, done) == Err(if HoldsInt(entries[k], KEY_LENGTH) then FileMissingPath else FileMissingLength)
    decreases |entries|
  {
    assert entries[0] in entries;
    FileOfIs(name, entries[0], utf8);
    if k > 0 {
      FirstBadFile(name, entries[1..], utf8, done + [FileOf(name, entries[0], utf8).value], k - 1);
    }
  }

  /** A list of files: as many as there are entries, in their order, each as its entry describes it. */
  lemma ManyFiles(info: Value, items: seq<Value>, utf8: Utf8)
    requires WellFormed(info) && Holds(info, KEY_FILES, List(items)) && forall e :: e in items ==> IsFile(e)
    ensures FilesOf(info, utf8).Ok? && |FilesOf(info, utf8).value| == |items|
    ensures exists name :: NameIs(info, utf8, "torrent", name)
              && forall i :: 0 <= i < |items| ==> Describes(items[i], FilesOf(info, utf8).value[i], name, utf8)
  {
    HoldsIsGet(info, KEY_FILES, List(items));
    GetIsInside(info, KEY_FILES);
    var name := TextOr(info, KEY_NAME, utf8, "torrent");
    NameIsText(info, utf8, "torrent");
    AllFiles(name, items, utf8, []);
  }

  /** A single file: its name, or the default, and its length. */
  lemma OneFile(info: Value, n: int, utf8: Utf8)
    requires WellFormed(info) && !HoldsAny(info, KEY_FILES) && Holds(info, KEY_LENGTH, Int(n))
    ensures IsI64(n) && FilesOf(info, utf8).Ok? && |FilesOf(info, utf8).value| == 1
    ensures var f := FilesOf(info, utf8).value[0]; f.size == AsU64(n) && NameIs(info, utf8, "file", f.path)
  {
    HoldsAnyIsGet(info, KEY_FILES);
    HoldsIsGet(info, KEY_LENGTH, Int(n));
    GetIsInside(info, KEY_LENGTH);
    NameIsText(info, utf8, "file");
  }

  /** Which error stands for which defect; nothing else is an error. */
  lemma ErrorsAre(info: Value, utf8: Utf8)
    requires WellFormed(info)
    ensures FilesOf(info, utf8) == Err(FilesNotAList) <==> HoldsAny(info, KEY_FILES) && !HoldsList(info, KEY_FILES)
    ensures FilesOf(info, utf8) == Err(MissingLength) <==> !HoldsAny(info, KEY_FILES) && !HoldsInt(info, KEY_LENGTH)
    ensures FilesOf(info, utf8) == Err(FileMissingLength) <==>
            exists items, k :: Holds(info, KEY_FILES, List(items)) && FirstBad(items, k) && !HoldsInt(items[k], KEY_LENGTH)
    ensures FilesOf(info, utf8) == Err(FileMissingPath) <==>
            exists items, k :: Holds(info, KEY_FILES, List(items)) && FirstBad(items, k) && HoldsInt(items[k], KEY_LENGTH)
    ensures FilesOf(info, utf8).Err? ==> FilesOf(info, utf8).error in {FilesNotAList, MissingLength, FileMissingLength, FileMissingPath}
  {
    HoldsAnyIsGet(info, KEY_FILES);
    HoldsAnyIsGet(info, KEY_LENGTH);
    if HoldsList(info, KEY_FILES) {
      var items := DictGet(info, KEY_FILES).value.items;
      HoldsIsGet(info, KEY_FILES, List(items));
      forall other | Holds(info, KEY_FILES, List(other)) ensures other == items { HoldsIsGet(info, KEY_FILES, List(other)); }
      GetIsInside(info, KEY_FILES);
      FilesListErrors(info, items, utf8);
    }
  }

  ghost predicate FirstBad(items: seq<Value>, k: int) {
    0 <= k < |items| && !IsFile(items[k]) && forall i :: 0 <= i < k ==> IsFile(items[i])
  }

  lemma FilesListErrors(info: Value, items: seq<Value>, utf8: Utf8)
    requires WellFormed(info) && DictGet(info, KEY_FILES) == Some(List(items)) && forall e :: e in items ==> WellFormed(e)
    ensures FilesOf(info, utf8) == Err(FileMissingLength) <==> exists k :: FirstBad(items, k) && !HoldsInt(items[k], KEY_LENGTH)
    ensures FilesOf(info, utf8) == Err(FileMissingPath) <==> exists k :: FirstBad(items, k) && HoldsInt(items[k], KEY_LENGTH)
    ensures FilesOf(info, utf8).Err? ==> FilesOf(info, utf8).error in {FileMissingLength, FileMissingPath}
  {
    var name := TextOr(info, KEY_NAME, utf8, "torrent");
    if forall e :: e in items ==> IsFile(e) {
      AllFiles(name, items, utf8, []);
      assert forall k :: 0 <= k < |items| ==> items[k] in items;
    } else {
      var e :| e in items && !IsFile(e);
      FirstBadExists(items, e);
      var k :| FirstBad(items, k);
      forall j | FirstBad(items, j) ensures j == k {}
      FirstBadFile(name, items, utf8, [], k);
    }
  }

  lemma {:induction false} FirstBadExists(items: seq<Value>, e: Value)
    requires e in items && !IsFile(e)
    ensures exists k :: FirstBad(items, k)
    decreases |items|
  {
    var n := |items| - 1;
    if bad :| bad in items[..n] && !IsFile(bad) {
      FirstBadExists(items[..n], bad);
      var k :| FirstBad(items[..n], k);
      assert FirstBad(items, k);
    } else {
      assert items == items[..n] + [items[n]];
      forall i | 0 <= i < n ensures IsFile(items[i]) { assert items[i] in items[..n]; }
      assert FirstBad(items, n);
    }
  }

  // ----- a written torrent is read ---------------------------------------------------------------------------

  /** A file to write: the parts of its path and its size. */
  datatype ToWrite = ToWrite(parts: seq<seq<byte>>, size: nat)

  predicate Writable(f: ToWrite) { f.size <= I64_MAX && forall p :: p in f.parts ==> |p| <= ISIZE_MAX }

  function PartValues(parts: seq<seq<byte>>): (r: seq<Value>)
    ensures |r| == |parts| && forall i :: 0 <= i < |r| ==> r[i] == Bytes(parts[i])
  {
    seq(|parts|, i requires 0 <= i < |parts| => Bytes(parts[i]))
  }

  function FileValue(f: ToWrite): Value { Dict([Entry(KEY_LENGTH, Int(f.size)), Entry(KEY_PATH, List(PartValues(f.parts)))]) }

  function FileValues(files: seq<ToWrite>): (r: seq<Value>)
    ensures |r| == |files| && forall i :: 0 <= i < |r| ==> r[i] == FileValue(files[i])
  {
    seq(|files|, i requires 0 <= i < |files| => FileValue(files[i]))
  }

  /** The info dictionary of several files under a name. */
  function InfoValue(name: seq<byte>, files: seq<ToWrite>): Value {
    Dict([Entry(KEY_FILES, List(FileValues(files))), Entry(KEY_NAME, Bytes(name))])
  }

  /** The info dictionary of a single file. */
  function SingleValue(name: seq<byte>, size: nat): Value { Dict([Entry(KEY_LENGTH, Int(size)), Entry(KEY_NAME, Bytes(name))]) }

  lemma TwoEntries(a: Entry, b: Entry)
    requires LexLess(a.key, b.key) && |a.key| <= ISIZE_MAX && |b.key| <= ISIZE_MAX && WellFormed(a.val) && WellFormed(b.val)
    ensures WellFormed(Dict([a, b])) && Height(Dict([a, b])) == 1 + Max(Height(a.val), Height(b.val))
  {
    var es := [a, b];
    assert es[1..] == [b] && [b][1..] == [];
    assert EntriesHeight([b]) == Max(Height(b.val), 0);
  }

  lemma {:induction false} FlatList(items: seq<Value>, h: nat)
    requires forall x :: x in items ==> Height(x) <= h
    ensures ItemsHeight(items) <= h
  {
    if items != [] {
      assert items[0] in items;
      FlatList(items[1..], h);
    }
  }

  lemma FileValueIs(f: ToWrite)
    requires Writable(f)
    ensures WellFormed(FileValue(f)) && Height(FileValue(f)) <= 3 && IsFile(FileValue(f))
    ensures Holds(FileValue(f), KEY_LENGTH, Int(f.size)) && Holds(FileValue(f), KEY_PATH, List(PartValues(f.parts)))
  {
    var values := PartValues(f.parts);
    forall x | x in values ensures WellFormed(x) && Height(x) <= 1 {
      var i :| 0 <= i < |values| && values[i] == x;
      assert f.parts[i] in f.parts;
    }
    FlatList(values, 1);
    assert LexLess(KEY_LENGTH, KEY_PATH);
    var a, b := Entry(KEY_LENGTH, Int(f.size)), Entry(KEY_PATH, List(values));
    TwoEntries(a, b);
    assert a in [a, b] && b in [a, b];
  }

  lemma InfoValueIs(name: seq<byte>, files: seq<ToWrite>)
    requires |name| <= ISIZE_MAX && forall f :: f in files ==> Writable(f)
    ensures WellFormed(InfoValue(name, files)) && Height(InfoValue(name, files)) <= 5
    ensures Holds(InfoValue(name, files), KEY_FILES, List(FileValues(files))) && Holds(InfoValue(name, files), KEY_NAME, Bytes(name))
    ensures forall e :: e in FileValues(files) ==> IsFile(e)
  {
    var values := FileValues(files);
    forall x | x in values ensures WellFormed(x) && Height(x) <= 3 && IsFile(x) {
      var i :| 0 <= i < |values| && values[i] == x;
      assert files[i] in files;
      FileValueIs(files[i]);
    }
    FlatList(values, 3);
    assert LexLess(KEY_FILES, KEY_NAME);
    var a, b := Entry(KEY_FILES, List(values)), Entry(KEY_NAME, Bytes(name));
    TwoEntries(a, b);
    assert a in [a, b] && b in [a, b];
  }

  /** What a written file is listed as. */
  ghost function ListedAs(name: string, f: ToWrite, utf8: Utf8): FileEntry {
    FileEntry(Join([name] + TextParts(PartValues(f.parts), utf8), '/'), f.size)
  }

  lemma DescribedAs(f: ToWrite, e: FileEntry, name: string, utf8: Utf8)
    requires Writable(f) && Describes(FileValue(f), e, name, utf8)
    ensures e == ListedAs(name, f, utf8)
  {
    FileValueIs(f);
    var v := FileValue(f);
    var n, parts :| Holds(v, KEY_LENGTH, Int(n)) && Holds(v, KEY_PATH, List(parts)) && IsI64(n) && e.size == AsU64(n)
                    && e.path == Join([name] + TextParts(parts, utf8), '/');
    HoldsIsGet(v, KEY_LENGTH, Int(n));
    HoldsIsGet(v, KEY_LENGTH, Int(f.size));
    HoldsIsGet(v, KEY_PATH, List(parts));
    HoldsIsGet(v, KEY_PATH, List(PartValues(f.parts)));
  }

  /** The name of a written dictionary is the text written, or the default if it is no text. */
  lemma WrittenName(info: Value, name: seq<byte>, utf8: Utf8, default: string, s: string)
    requires WellFormed(info) && Holds(info, KEY_NAME, Bytes(name)) && NameIs(info, utf8, default, s)
    ensures s == if utf8(name).Some? then utf8(name).value else default
  {
    HoldsIsGet(info, KEY_NAME, Bytes(name));
    forall b | Holds(info, KEY_NAME, Bytes(b)) ensures b == name { HoldsIsGet(info, KEY_NAME, Bytes(b)); }
  }

  /**
  A written info dictionary, with anything after it, is read as one entry for each file, in order: the
  name and the parts with slashes between them, and the size.
  */
  lemma WrittenInfoIsListed(name: seq<byte>, files: seq<ToWrite>, tail: seq<byte>, utf8: Utf8)
    requires |name| <= ISIZE_MAX && forall f :: f in files ==> Writable(f)
    ensures var d := Decode(Encode(InfoValue(name, files)) + tail);
            && d == Ok((InfoValue(name, files), tail)) && WellFormed(InfoValue(name, files))
            && FilesOf(InfoValue(name, files), utf8).Ok?
            && var list := FilesOf(InfoValue(name, files), utf8).value;
               var text := if utf8(name).Some? then utf8(name).value else "torrent";
               |list| == |files| && forall i :: 0 <= i < |files| ==> list[i] == ListedAs(text, files[i], utf8)
  {
    var info := InfoValue(name, files);
    InfoValueIs(name, files);
    DecodeEncode(info, tail, MAX_DEPTH);
    ManyFiles(info, FileValues(files), utf8);
    var list := FilesOf(info, utf8).value;
    var text :| NameIs(info, utf8, "torrent", text) && forall i :: 0 <= i < |files| ==> Describes(FileValues(files)[i], list[i], text, utf8);
    WrittenName(info, name, utf8, "torrent", text);
    forall i | 0 <= i < |files| ensures list[i] == ListedAs(text, files[i], utf8) {
      assert files[i] in files;
      DescribedAs(files[i], list[i], text, utf8);
    }
  }

  lemma WrittenSingleIsListed(name: seq<byte>, size: nat, tail: seq<byte>, utf8: Utf8)
    requires |name| <= ISIZE_MAX && size <= I64_MAX
    ensures WellFormed(SingleValue(name, size)) && Decode(Encode(SingleValue(name, size)) + tail) == Ok((SingleValue(name, size), tail))
    ensures FilesOf(SingleValue(name, size), utf8) ==
            Ok([FileEntry(if utf8(name).Some? then utf8(name).value else "file", size)])
  {
    var info := SingleValue(name, size);
    SingleValueIs(name, size);
    DecodeEncode(info, tail, MAX_DEPTH);
    SingleListed(info, name, size, utf8);
  }

  lemma SingleValueIs(name: seq<byte>, size: nat)
    requires |name| <= ISIZE_MAX && size <= I64_MAX
    ensures var info := SingleValue(name, size);
            && WellFormed(info) && Height(info) <= MAX_DEPTH && !HoldsAny(info, KEY_FILES)
            && Holds(info, KEY_LENGTH, Int(size)) && Holds(info, KEY_NAME, Bytes(name))
  {
    var a, b := Entry(KEY_LENGTH, Int(size)), Entry(KEY_NAME, Bytes(name));
    assert LexLess(KEY_LENGTH, KEY_NAME);
    TwoEntries(a, b);
    assert a in [a, b] && b in [a, b] && forall e :: e in [a, b] ==> e.key != KEY_FILES;
  }

  lemma SingleListed(info: Value, name: seq<byte>, size: nat, utf8: Utf8)
    requires WellFormed(info) && !HoldsAny(info, KEY_FILES) && Holds(info, KEY_LENGTH, Int(size)) && Holds(info, KEY_NAME, Bytes(name))
    ensures FilesOf(info, utf8) == Ok([FileEntry(if utf8(name).Some? then utf8(name).value else "file", size)])
  {
    OneFile(info, size, utf8);
    var f := FilesOf(info, utf8).value[0];
    WrittenName(info, name, utf8, "file", f.path);
    CastIs(size);
    assert FilesOf(info, utf8).value == [f];
  }

  /** In a torrent the list is that of its info dictionary, whatever else the torrent holds and whatever follows it. */
  lemma TorrentIsItsInfo(torrent: Value, info: Value, tail: seq<byte>, utf8: Utf8)
    requires WellFormed(torrent) && Height(torrent) <= MAX_DEPTH && Holds(torrent, KEY_INFO, info)
    requires |Encode(torrent) + tail| <= ISIZE_MAX
    ensures WellFormed(info) && TorrentFiles(Encode(torrent) + tail, utf8) == FilesOf(info, utf8)
  {
    DecodeEncode(torrent, tail, MAX_DEPTH);
    HoldsIsGet(torrent, KEY_INFO, info);
    GetIsInside(torrent, KEY_INFO);
  }

  /** Without a value for `info`, or with bytes that are no value, there are no files. */
  lemma NoInfo(torrentBytes: seq<byte>, utf8: Utf8)
    requires |torrentBytes| <= ISIZE_MAX
    ensures Decode(torrentBytes).Err? ==> TorrentFiles(torrentBytes, utf8) == Err(Malformed(Decode(torrentBytes).error))
    ensures TorrentFiles(torrentBytes, utf8) == Err(MissingInfo) <==>
            Decode(torrentBytes).Ok? && !HoldsAny(Decode(torrentBytes).value.0, KEY_INFO)
  {
    if Decode(torrentBytes).Ok? {
      DecodeSound(torrentBytes, MAX_DEPTH);
      var v := Decode(torrentBytes).value.0;
      HoldsAnyIsGet(v, KEY_INFO);
      if DictGet(v, KEY_INFO).Some? {
        GetIsInside(v, KEY_INFO);
        ErrorsAre(DictGet(v, KEY_INFO).value, utf8);
      }
    }
  }
}
