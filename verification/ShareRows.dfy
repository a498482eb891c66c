/**
The stored form of shares in web/js/storage.js: how a share becomes a row, how rows of the first
schema are upgraded in place, and how a row is turned back into a share.
*/
module ShareRows {
  import opened Basics
  import opened Radix
  import opened Base64

  // ----- shares and rows -------------------------------------------------------------------

  /** A share object; a number that is absent, or is no number, is `None`. */
  datatype Share = Share(
    version: Option<int>, midPrefix: Option<string>, segmentIndex: Option<int>, slotIndex: Option<int>,
    originalLen: Option<int>, timestamp: Option<int>, binary: Option<seq<int>>, bincode: Option<string>)

  datatype Data = Nothing | Json(share: Share) | Buffer(bytes: seq<int>)

  datatype Encoding = NoEncoding | BincodeV1 | LegacyJsonV1

  datatype Row = Row(
    midPrefixHex: string, slotIndex: Option<int>, segmentIndex: Option<int>, version: Option<int>,
    originalLen: Option<int>, data: Data, encoding: Encoding, timestamp: Option<int>)

  /** `x || d`: zero counts as absent. */
  function Or(x: Option<int>, d: int): int { if x.None? || x.value == 0 then d else x.value }

  function OrText(x: Option<string>, d: string): string { if x.None? || x.value == "" then d else x.value }

  predicate BytesOnly(share: Share) { share.binary.Some? ==> AreDigits(share.binary.value, 256) }

  // ----- bytes of a share ---------------------------------------------------------------------

  /** `shareBinaryBytes`: the bytes themselves, or else what the base64 text decodes to. */
  function ShareBinaryBytes(share: Share): Option<seq<int>> {
    if share.binary.Some? then share.binary
    else if share.bincode.Some? && share.bincode.value != "" then Atob(share.bincode.value)
    else None
  }

  /** `bytesToBase64`: chunk by chunk, so that no call takes more than 0x8000 characters at once. */
  method BytesToBase64(bytes: seq<int>) returns (text: string)
    requires AreDigits(bytes, 256)
    ensures text == Btoa(bytes)
  {
    var binary: seq<int> := [];
    var i := 0;
    while i < |bytes|
      invariant 0 <= i
      invariant if i < |bytes| then binary == bytes[..i] else binary == bytes
    {
      var end := if |bytes| < i + 0x8000 then |bytes| else i + 0x8000;
      var part: seq<int> := [];
      for j := i to end
        invariant part == bytes[i..j]
      {
        part := part + [bytes[j]];
      }
      assert bytes[..i] + bytes[i..end] == bytes[..end];
      binary := binary + part;
      i := i + 0x8000;
    }
    text := Btoa(binary);
  }

  /** `shareToPortableJson`: the share in the form that is exported; without bytes it is left as it is. */
  function PortableJson(share: Share): Share
    requires BytesOnly(share)
  {
    match ShareBinaryBytes(share)
    case None => share
    case Some(b) =>
      Share(Some(Or(share.version, 1)), Some(OrText(share.midPrefix, "")), Some(Or(share.segmentIndex, 0)),
            Some(if share.slotIndex.Some? then share.slotIndex.value else 0), Some(Or(share.originalLen, 0)),
            Some(Or(share.timestamp, 0)), None, Some(Btoa(b)))
  }

  lemma BtoaOfNothing(b: seq<int>)
    requires AreDigits(b, 256)
    ensures Btoa(b) == "" <==> b == []
  {
  }

  /** Exporting keeps the bytes of a share exactly unless they are there and empty; exporting an export changes nothing. */
  lemma PortableKeepsBytes(share: Share)
    requires BytesOnly(share)
    ensures ShareBinaryBytes(PortableJson(share)) == ShareBinaryBytes(share) <==> ShareBinaryBytes(share) != Some([])
    ensures PortableJson(PortableJson(share)) == PortableJson(share)
  {
    if ShareBinaryBytes(share).Some? {
      var b := ShareBinaryBytes(share).value;
      AtobOfBtoa(b);
      BtoaOfNothing(b);
    }
  }

  /** Each field of an export: that of the share, or its default; the bytes as text and not besides. */
  lemma PortableFields(share: Share)
    requires BytesOnly(share)
    ensures ShareBinaryBytes(share).None? ==> PortableJson(share) == share
    ensures ShareBinaryBytes(share).Some? ==>
              var x := PortableJson(share);
              && x.version.Some? && x.version.value == (if share.version.Some? && share.version.value != 0 then share.version.value else 1)
              && x.midPrefix == Some(if share.midPrefix.Some? then share.midPrefix.value else "")
              && x.segmentIndex == Some(if share.segmentIndex.Some? then share.segmentIndex.value else 0)
              && x.slotIndex == Some(if share.slotIndex.Some? then share.slotIndex.value else 0)
              && x.originalLen == Some(if share.originalLen.Some? then share.originalLen.value else 0)
              && x.timestamp == Some(if share.timestamp.Some? then share.timestamp.value else 0)
              && x.binary.None? && x.bincode.Some? && Atob(x.bincode.value) == ShareBinaryBytes(share)
  {
    if ShareBinaryBytes(share).Some? { AtobOfBtoa(ShareBinaryBytes(share).value); }
  }

  // ----- rows ------------------------------------------------------------------------------------

  /** `hydrateShareRecord`: the row with its bytes presented as a share. */
  function Hydrate(row: Row): Row {
    if row.encoding == BincodeV1 && row.data.Buffer? then
      row.(data := Json(Share(
        Some(Or(row.version, 1)), Some(row.midPrefixHex), Some(Or(row.segmentIndex, 0)), row.slotIndex,
        Some(Or(row.originalLen, 0)), Some(Or(row.timestamp, 0)), Some(row.data.bytes), None)))
    else row
  }

  /** The row with the bytes of its share in place of the share. */
  function Converted(row: Row, share: Share, b: seq<int>): Row {
    row.(segmentIndex := Some(Or(share.segmentIndex, 0)), version := Some(Or(share.version, 1)),
         originalLen := Some(Or(share.originalLen, 0)), data := Buffer(b), encoding := BincodeV1,
         timestamp := Some(Or(share.timestamp, Or(row.timestamp, 0))))
  }

  /** One row of the upgrade from the first schema. */
  function Upgrade(row: Row): Row {
    if row.data.Json? && row.data.share.bincode.Some? && row.data.share.bincode.value != "" then
      var share := row.data.share;
      match Atob(share.bincode.value)
      case None => row
      case Some(b) => Converted(row, share, b)
    else row
  }

  /** The row holds a share whose text is base64: exactly what the upgrade converts. */
  predicate Convertible(row: Row) {
    && row.data.Json? && row.data.share.bincode.Some? && row.data.share.bincode.value != ""
    && Atob(row.data.share.bincode.value).Some?
  }

  /** The share a reader gets from a row, if the row presents one. */
  function Presented(row: Row): Option<Share> {
    var h := Hydrate(row);
    if h.data.Json? then Some(h.data.share) else None
  }

  function BytesOf(row: Row): Option<seq<int>> {
    if Presented(row).Some? then ShareBinaryBytes(Presented(row).value) else None
  }

  lemma UpgradeTwice(row: Row)
    ensures Upgrade(Upgrade(row)) == Upgrade(row)
    ensures Upgrade(row) != row <==> Convertible(row)
    ensures Upgrade(row).midPrefixHex == row.midPrefixHex && Upgrade(row).slotIndex == row.slotIndex
  {
  }

  /**
  A reader gets the same bytes from the upgraded row, unless the old row held a share that carried
  bytes besides its text, and other ones.
  */
  lemma UpgradeKeepsBytes(row: Row)
    ensures BytesOf(Upgrade(row)) == BytesOf(row) <==>
            !Convertible(row) || row.data.share.binary.None? || row.data.share.binary == Atob(row.data.share.bincode.value)
  {
  }

  /**
  The exported form of an upgraded row is that of the old share exactly when the row names the
  prefix and the slot of the share, and a share without a timestamp stands in a row without one.
  */
  lemma UpgradeKeepsExport(row: Row)
    requires Convertible(row) && row.data.share.binary.None?
    ensures Presented(row) == Some(row.data.share) && Presented(Upgrade(row)).Some? && BytesOnly(Presented(Upgrade(row)).value)
    ensures var share := row.data.share;
            PortableJson(Presented(Upgrade(row)).value) == PortableJson(share) <==>
              && row.midPrefixHex == OrText(share.midPrefix, "")
              && Or(row.slotIndex, 0) == Or(share.slotIndex, 0)
              && (Or(share.timestamp, 0) == 0 ==> Or(row.timestamp, 0) == 0)
  {
  }

  /** Field by field, what a reader is presented and what an upgraded row holds. */
  lemma RowFields(row: Row)
    ensures row.encoding == BincodeV1 && row.data.Buffer? ==>
              && Presented(row).Some?
              && var s := Presented(row).value;
                 && s.binary == Some(row.data.bytes) && s.bincode == None && s.midPrefix == Some(row.midPrefixHex) && s.slotIndex == row.slotIndex
                 && s.version == Some(if row.version.Some? && row.version.value != 0 then row.version.value else 1)
                 && s.segmentIndex == Some(if row.segmentIndex.Some? then row.segmentIndex.value else 0)
                 && s.originalLen == Some(if row.originalLen.Some? then row.originalLen.value else 0)
                 && s.timestamp == Some(if row.timestamp.Some? then row.timestamp.value else 0)
    ensures !(row.encoding == BincodeV1 && row.data.Buffer?) ==> Presented(row) == if row.data.Json? then Some(row.data.share) else None
    ensures Convertible(row) ==>
              var (u, s) := (Upgrade(row), row.data.share);
              && u.encoding == BincodeV1 && u.data.Buffer? && Some(u.data.bytes) == Atob(s.bincode.value)
              && u.midPrefixHex == row.midPrefixHex && u.slotIndex == row.slotIndex
              && u.version == Some(if s.version.Some? && s.version.value != 0 then s.version.value else 1)
              && u.segmentIndex == Some(if s.segmentIndex.Some? then s.segmentIndex.value else 0)
              && u.originalLen == Some(if s.originalLen.Some? then s.originalLen.value else 0)
              && u.timestamp == Some(if s.timestamp.Some? && s.timestamp.value != 0 then s.timestamp.value
                                     else if row.timestamp.Some? then row.timestamp.value else 0)
  {
  }

  /** What the upgrade writes in place of a row, if anything. */
  method Replacement(row: Row) returns (r: Option<Row>)
    ensures Upgrade(row) == if r.Some? then r.value else row
  {
    r := None;
    if row.data.Json? && row.data.share.bincode.Some? && |row.data.share.bincode.value| > 0 {
      var share := row.data.share;
      var binary := Atob(share.bincode.value);
      if binary.Some? {
        r := Some(Converted(row, share, binary.value));
      }
    }
  }

  /** The first rows are changed by `f`, the others are as they were. */
  ghost predicate ChangedUpTo(was: seq<Row>, now: seq<Row>, f: Row -> Row, i: nat) {
    && i <= |was| == |now|
    && (forall k :: 0 <= k < i ==> now[k] == f(was[k]))
    && (forall k :: i <= k < |was| ==> now[k] == was[k])
  }

  lemma ChangedNext(was: seq<Row>, now: seq<Row>, f: Row -> Row, i: nat)
    requires ChangedUpTo(was, now, f, i) && i < |was|
    ensures ChangedUpTo(was, now[i := f(now[i])], f, i + 1)
  {
  }

  /** The cursor of the upgrade visits every row and writes each one in place. */
  method UpgradeRows(rows: array<Row>)
    modifies rows
    ensures forall i :: 0 <= i < rows.Length ==> rows[i] == Upgrade(old(rows[i]))
  {
    var i := 0;
    while i < rows.Length
      invariant i <= rows.Length && ChangedUpTo(old(rows[..]), rows[..], Upgrade, i)
    {
      ghost var now := rows[..];
      var written := Replacement(rows[i]);
      if written.Some? {
        rows[i] := written.value;
      }
      assert rows[..] == now[i := Upgrade(now[i])];
      ChangedNext(old(rows[..]), now, Upgrade, i);
      i := i + 1;
    }
  }
}
