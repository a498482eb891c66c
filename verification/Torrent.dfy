/**
The file list of a torrent: `parse_info_dict` and the detour of `parse_torrent_file_info`, which
encodes the info dictionary it has just decoded so that the other function can decode it again.

`utf8` stands for `str::from_utf8(..).ok()`.
*/
module Torrent {
  import opened Basics
  import opened Decimal
  import opened Bencode
  import opened BencodeLaws

  type Utf8 = seq<byte> -> Option<string>

  datatype FileEntry = FileEntry(path: string, size: nat)

  datatype TorrentError =
    | Malformed(e: Error)
    | MissingInfo
    | FilesNotAList
    | FileMissingLength
    | FileMissingPath
    | MissingLength

  type Files = Result<seq<FileEntry>, TorrentError>

  const KEY_INFO: seq<byte> := [105, 110, 102, 111]
  const KEY_FILES: seq<byte> := [102, 105, 108, 101, 115]
  const KEY_NAME: seq<byte> := [110, 97, 109, 101]
  const KEY_LENGTH: seq<byte> := [108, 101, 110, 103, 116, 104]
  const KEY_PATH: seq<byte> := [112, 97, 116, 104]

  /** `Value::dict_get`. */
  function DictGet(v: Value, key: seq<byte>): Option<Value> {
    if v.Dict? then Get(v.entries, key) else None
  }

  /** `dict_get(..).and_then(as_int)`. */
  function DictInt(v: Value, key: seq<byte>): Option<int> {
    match DictGet(v, key)
    case Some(Int(i)) => Some(i)
    case _ => None
  }

  /** The cast of an `i64` to `u64` or `usize`. */
  function AsU64(i: int): nat
    requires IsI64(i)
  {
    if i < 0 then i + 0x1_0000_0000_0000_0000 else i
  }

  function TextOr(v: Value, key: seq<byte>, utf8: Utf8, default: string): string {
    match DictGet(v, key)
    case Some(Bytes(b)) => (match utf8(b) case Some(s) => s case None => default)
    case _ => default
  }

  /** Parts that are not text are passed over. */
  function JoinPath(path: string, parts: seq<Value>, utf8: Utf8): string
    decreases |parts|
  {
    if parts == [] then path
    else
      var longer := match parts[0]
        case Bytes(b) => (match utf8(b) case Some(s) => path + "/" + s case None => path)
        case _ => path;
      JoinPath(longer, parts[1..], utf8)
  }

  function FileOf(name: string, entry: Value, utf8: Utf8): Result<FileEntry, TorrentError>
    requires WellFormed(entry)
  {
    match DictInt(entry, KEY_LENGTH)
    case None => Err(FileMissingLength)
    case Some(size) =>
      match DictGet(entry, KEY_PATH)
      case Some(List(parts)) =>
        GetIsInside(entry, KEY_LENGTH);
        Ok(FileEntry(JoinPath(name, parts, utf8), AsU64(size)))
      case _ => Err(FileMissingPath)
  }

  function FilesFrom(name: string, entries: seq<Value>, utf8: Utf8, done: seq<FileEntry>): Files
    requires forall e :: e in entries ==> WellFormed(e)
    decreases |entries|
  {
    if entries == [] then Ok(done)
    else match FileOf(name, entries[0], utf8)
      case Err(e) => Err(e)
      case Ok(f) => FilesFrom(name, entries[1..], utf8, done + [f])
  }

  /** The file list read straight from a decoded info dictionary. */
  function FilesOf(info: Value, utf8: Utf8): Files
    requires WellFormed(info)
  {
    match DictGet(info, KEY_FILES)
    case Some(f) =>
      GetIsInside(info, KEY_FILES);
      if !f.List? then Err(FilesNotAList)
      else FilesFrom(TextOr(info, KEY_NAME, utf8, "torrent"), f.items, utf8, [])
    case None =>
      match DictInt(info, KEY_LENGTH)
      case None => Err(MissingLength)
      case Some(size) =>
        GetIsInside(info, KEY_LENGTH);
        Ok([FileEntry(TextOr(info, KEY_NAME, utf8, "file"), AsU64(size))])
  }

  lemma {:induction false} GetMember(es: seq<Entry>, key: seq<byte>)
    requires Get(es, key).Some?
    ensures Entry(key, Get(es, key).value) in es
    ensures Height(Get(es, key).value) <= EntriesHeight(es)
  {
    if es[0].key == key { assert es[0] in es; } else { GetMember(es[1..], key); }
  }

  /** What a dictionary holds is a value too, and nested less deep than the dictionary. */
  lemma GetIsInside(v: Value, key: seq<byte>)
    requires WellFormed(v) && DictGet(v, key).Some?
    ensures WellFormed(DictGet(v, key).value)
    ensures Height(DictGet(v, key).value) < Height(v)
  {
    GetMember(v.entries, key);
  }

  /** `parse_info_dict`. */
  method ParseInfoDict(infoBytes: seq<byte>, utf8: Utf8) returns (r: Files)
    requires |infoBytes| <= ISIZE_MAX
    ensures Decode(infoBytes).Err? ==> r == Err(Malformed(Decode(infoBytes).error))
    ensures Decode(infoBytes).Ok? ==>
              WellFormed(Decode(infoBytes).value.0) && r == FilesOf(Decode(infoBytes).value.0, utf8)
  {
    var d := Decode(infoBytes);
    if d.Err? {
      return Err(Malformed(d.error));
    }
    DecodeSound(infoBytes, MAX_DEPTH);
    var info := d.value.0;
    var files: seq<FileEntry> := [];
    var f := DictGet(info, KEY_FILES);
    if f.Some? {
      GetIsInside(info, KEY_FILES);
      var name := TextOr(info, KEY_NAME, utf8, "torrent");
      if !f.value.List? {
        return Err(FilesNotAList);
      }
      var entries := f.value.items;
      for i := 0 to |entries|
        invariant FilesFrom(name, entries, utf8, []) == FilesFrom(name, entries[i..], utf8, files)
      {
        var entry := FileOf(name, entries[i], utf8);
        if entry.Err? {
          return Err(entry.error);
        }
        assert entries[i..][1..] == entries[i + 1..];
        files := files + [entry.value];
      }
      assert entries[|entries|..] == [];
    } else {
      var size := DictInt(info, KEY_LENGTH);
      if size.None? {
        return Err(MissingLength);
      }
      GetIsInside(info, KEY_LENGTH);
      files := [FileEntry(TextOr(info, KEY_NAME, utf8, "file"), AsU64(size.value))];
    }
    r := Ok(files);
  }

  /**
  `parse_torrent_file_info`: the detour through bytes gives the list that reading the info
  dictionary in place would give, and never fails on the way (in particular not on depth).
  */
  method ParseTorrentFileInfo(torrentBytes: seq<byte>, utf8: Utf8) returns (r: Files)
    requires |torrentBytes| <= ISIZE_MAX
    ensures r == TorrentFiles(torrentBytes, utf8)
  {
    var d := Decode(torrentBytes);
    if d.Err? {
      return Err(Malformed(d.error));
    }
    var info := DictGet(d.value.0, KEY_INFO);
    if info.None? {
      return Err(MissingInfo);
    }
    InfoReadsBack(torrentBytes);
    var infoBytes := Encode(info.value);
    r := ParseInfoDict(infoBytes, utf8);
  }

  /** The same list with no detour. */
  function TorrentFiles(torrentBytes: seq<byte>, utf8: Utf8): Files
    requires |torrentBytes| <= ISIZE_MAX
  {
    var d := Decode(torrentBytes);
    if d.Err? then Err(Malformed(d.error))
    else
      DecodeSound(torrentBytes, MAX_DEPTH);
      match DictGet(d.value.0, KEY_INFO)
      case None => Err(MissingInfo)
      case Some(info) => GetIsInside(d.value.0, KEY_INFO); FilesOf(info, utf8)
  }

  lemma {:induction false} EntrySize(es: seq<Entry>, key: seq<byte>)
    requires Get(es, key).Some?
    ensures |Encode(Get(es, key).value)| <= |EncodeEntries(es)|
  {
    if es[0].key != key { EntrySize(es[1..], key); }
  }

  /** The info dictionary of an accepted torrent is read back from its own encoding. */
  lemma InfoReadsBack(torrentBytes: seq<byte>)
    requires |torrentBytes| <= ISIZE_MAX && Decode(torrentBytes).Ok?
    requires DictGet(Decode(torrentBytes).value.0, KEY_INFO).Some?
    ensures var info := DictGet(Decode(torrentBytes).value.0, KEY_INFO).value;
            |Encode(info)| <= |torrentBytes| && Decode(Encode(info)) == Ok((info, []))
  {
    var torrent := Decode(torrentBytes).value.0;
    var info := DictGet(torrent, KEY_INFO).value;
    DecodeSound(torrentBytes, MAX_DEPTH);
    GetIsInside(torrent, KEY_INFO);
    DecodeEncode(info, [], MAX_DEPTH);
    assert Encode(info) + [] == Encode(info);
    DecodeConsumes(torrentBytes, MAX_DEPTH);
    EntrySize(torrent.entries, KEY_INFO);
  }

  /** The list depends on the decoded torrent only: not on how it was spelled nor on what follows it. */
  lemma SameTorrentSameFiles(torrentBytes: seq<byte>, junk: seq<byte>, utf8: Utf8)
    requires Decode(torrentBytes).Ok? && |torrentBytes| + |junk| <= ISIZE_MAX
    ensures var v := Decode(torrentBytes).value.0;
            && |Encode(v)| <= |torrentBytes|
            && TorrentFiles(Encode(v) + junk, utf8) == TorrentFiles(torrentBytes, utf8)
            && TorrentFiles(torrentBytes + junk, utf8) == TorrentFiles(torrentBytes, utf8)
  {
    ReEncode(torrentBytes, junk);
  }
}
