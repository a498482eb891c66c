/** Saving shares in the browser's database and reading them back, from web/js/storage.js. */
module ShareStore {
  import opened Basics
  import opened Mid
  import opened ShareRows

  // ----- one row -----------------------------------------------------------------------------

  /** The primary key of the object store: prefix and slot. */
  type Key = (string, int)

  function SlotOf(i: nat, share: Share): int { if share.slotIndex.Some? then share.slotIndex.value else i }

  /** The row for the share at position `i`. */
  function SaveRow(prefix: string, i: nat, share: Share): Row {
    var binary := ShareBinaryBytes(share);
    Row(OrText(share.midPrefix, prefix), Some(SlotOf(i, share)), Some(Or(share.segmentIndex, 0)), Some(Or(share.version, 1)),
        Some(Or(share.originalLen, 0)), if binary.Some? then Buffer(binary.value) else Json(share),
        if binary.Some? then BincodeV1 else LegacyJsonV1, Some(Or(share.timestamp, 0)))
  }

  function KeyOf(row: Row): Key { (row.midPrefixHex, if row.slotIndex.Some? then row.slotIndex.value else 0) }

  /** Reading a saved row gives the bytes that were saved, and the upgrade leaves such rows alone. */
  lemma SavedIsRead(prefix: string, i: nat, share: Share)
    ensures BytesOf(SaveRow(prefix, i, share)) == ShareBinaryBytes(share)
    ensures Upgrade(SaveRow(prefix, i, share)) == SaveRow(prefix, i, share)
  {
  }

  /** The export of a saved share is that of the share, exactly when the share named its own prefix and slot, or they do not differ. */
  lemma SavedIsExported(prefix: string, i: nat, share: Share)
    requires BytesOnly(share) && ShareBinaryBytes(share).Some?
    ensures var p := Presented(SaveRow(prefix, i, share));
            && p.Some? && BytesOnly(p.value)
            && (PortableJson(p.value) == PortableJson(share) <==>
                  && (OrText(share.midPrefix, "") == "" ==> prefix == "")
                  && (share.slotIndex.None? ==> i == 0))
  {
  }

  /** Field by field, the row a share is saved in. */
  lemma SavedFields(prefix: string, i: nat, share: Share)
    ensures var row := SaveRow(prefix, i, share);
            && row.midPrefixHex == (if share.midPrefix.Some? && share.midPrefix.value != "" then share.midPrefix.value else prefix)
            && row.slotIndex == Some(if share.slotIndex.Some? then share.slotIndex.value else i)
            && row.version == Some(if share.version.Some? && share.version.value != 0 then share.version.value else 1)
            && row.segmentIndex == Some(if share.segmentIndex.Some? then share.segmentIndex.value else 0)
            && row.originalLen == Some(if share.originalLen.Some? then share.originalLen.value else 0)
            && row.timestamp == Some(if share.timestamp.Some? then share.timestamp.value else 0)
            && KeyOf(row) == (row.midPrefixHex, row.slotIndex.value)
            && (ShareBinaryBytes(share).Some? ==> row.encoding == BincodeV1 && row.data == Buffer(ShareBinaryBytes(share).value))
            && (ShareBinaryBytes(share).None? ==> row.encoding == LegacyJsonV1 && row.data == Json(share))
  {
  }

  // ----- all rows --------------------------------------------------------------------------------

  function RowsFor(prefix: string, shares: seq<Share>): (list: seq<Row>)
    ensures |list| == |shares| && forall i :: 0 <= i < |shares| ==> list[i] == SaveRow(prefix, i, shares[i])
  {
    seq(|shares|, i requires 0 <= i < |shares| => SaveRow(prefix, i, shares[i]))
  }

  /** The table after the first `n` rows have been put, the later one replacing the earlier. */
  function PutAll(rows: map<Key, Row>, list: seq<Row>, n: nat): map<Key, Row>
    requires n <= |list|
  {
    if n == 0 then rows else PutAll(rows, list, n - 1)[KeyOf(list[n - 1]) := list[n - 1]]
  }

  /** What stands under a key: the last row of that key, or else what was there before. */
  lemma {:induction false} PutAllAt(rows: map<Key, Row>, list: seq<Row>, n: nat, i: nat)
    requires i < n <= |list| && forall j :: i < j < n ==> KeyOf(list[j]) != KeyOf(list[i])
    ensures KeyOf(list[i]) in PutAll(rows, list, n) && PutAll(rows, list, n)[KeyOf(list[i])] == list[i]
    decreases n
  {
    if i < n - 1 { PutAllAt(rows, list, n - 1, i); }
  }

  lemma {:induction false} PutAllElse(rows: map<Key, Row>, list: seq<Row>, n: nat, key: Key)
    requires n <= |list| && forall j :: 0 <= j < n ==> KeyOf(list[j]) != key
    ensures key in PutAll(rows, list, n) <==> key in rows
    ensures key in rows ==> PutAll(rows, list, n)[key] == rows[key]
    decreases n
  {
    if n > 0 { PutAllElse(rows, list, n - 1, key); }
  }

  datatype Meta = Meta(createdAt: int, originalLen: int, dataShards: int, totalShards: int)

  datatype SaveError = Connected | NoPrefix(error: MidError)

  /** The database of the page. */
  class ShareDb {
    var shares: map<Key, Row>
    var metadata: map<string, Meta>

    constructor ()
      ensures shares == map[] && metadata == map[]
    {
      shares, metadata := map[], map[];
    }

    /** Each row replaces what stood under its key. */
    method PutRows(list: seq<Row>)
      modifies this`shares
      ensures shares == PutAll(old(shares), list, |list|)
    {
      for i := 0 to |list|
        invariant shares == PutAll(old(shares), list, i)
      {
        shares := shares[KeyOf(list[i]) := list[i]];
      }
    }

    /** `saveShares`: all rows and the metadata in one transaction, or nothing. */
    method SaveShares(mid: string, list: seq<Share>, k: int, n: int, connected: bool, now: int)
      returns (r: Result<(), SaveError>)
      modifies this
      ensures connected ==> r == Err(Connected)
      ensures !connected ==> (r.Ok? <==> SavePrefix(mid).Ok?)
      ensures r.Err? ==> shares == old(shares) && metadata == old(metadata)
      ensures r.Ok? ==> shares == PutAll(old(shares), RowsFor(SavePrefix(mid).value, list), |list|)
      ensures r.Ok? ==>
        metadata == old(metadata)[mid := Meta(now, if list == [] then 0 else Or(list[0].originalLen, 0), k, n)]
    {
      if connected { return Err(Connected); }
      var prefix := SavePrefix(mid);
      if prefix.Err? { return Err(NoPrefix(prefix.error)); }
      PutRows(RowsFor(prefix.value, list));
      metadata := metadata[mid := Meta(now, if list == [] then 0 else Or(list[0].originalLen, 0), k, n)];
      r := Ok(());
    }
  }

  // ----- reading back ------------------------------------------------------------------------------

  /** The rows among the first `n` that the caller accepts, as shares. */
  function Kept(rows: seq<Row>, n: nat, accept: Row -> bool): seq<Row>
    requires n <= |rows|
  {
    if n == 0 then []
    else Kept(rows, n - 1, accept) + (if accept(Hydrate(rows[n - 1])) then [Hydrate(rows[n - 1])] else [])
  }

  lemma {:induction false} KeptGrows(rows: seq<Row>, i: nat, n: nat, accept: Row -> bool)
    requires i <= n <= |rows|
    ensures Kept(rows, i, accept) <= Kept(rows, n, accept)
    decreases n
  {
    if i < n { KeptGrows(rows, i, n - 1, accept); }
  }

  predicate Reached(count: nat, limit: Option<nat>) { limit.Some? && count >= limit.value }

  function Cut(rows: seq<Row>, limit: Option<nat>): seq<Row> {
    if Reached(|rows|, limit) then rows[..limit.value] else rows
  }

  /** The rows kept, as presented, stand at these places of the cursor, in order; every accepted row is among them. */
  ghost predicate KeepsAccepted(rows: seq<Row>, kept: seq<Row>, places: seq<int>, accept: Row -> bool) {
    && |places| == |kept|
    && (forall i :: 0 <= i < |kept| ==> 0 <= places[i] < |rows| && kept[i] == Hydrate(rows[places[i]]) && accept(kept[i]))
    && (forall i, j :: 0 <= i < j < |places| ==> places[i] < places[j])
    && (forall k :: 0 <= k < |rows| && accept(Hydrate(rows[k])) ==> k in places)
  }

  ghost function PlacesKept(rows: seq<Row>, n: nat, accept: Row -> bool): seq<int>
    requires n <= |rows|
  {
    if n == 0 then [] else PlacesKept(rows, n - 1, accept) + (if accept(Hydrate(rows[n - 1])) then [n - 1] else [])
  }

  lemma {:induction false} KeptIs(rows: seq<Row>, n: nat, accept: Row -> bool)
    requires n <= |rows|
    ensures KeepsAccepted(rows[..n], Kept(rows, n, accept), PlacesKept(rows, n, accept), accept)
    decreases n
  {
    if n > 0 {
      KeptIs(rows, n - 1, accept);
      KeepsOneMore(rows[..n - 1], rows[n - 1], Kept(rows, n - 1, accept), PlacesKept(rows, n - 1, accept), accept);
      assert rows[..n] == rows[..n - 1] + [rows[n - 1]];
      assert Kept(rows, n - 1, accept) + [] == Kept(rows, n - 1, accept);
      assert PlacesKept(rows, n - 1, accept) + [] == PlacesKept(rows, n - 1, accept);
    }
  }

  lemma KeepsOneMore(rows: seq<Row>, row: Row, kept: seq<Row>, places: seq<int>, accept: Row -> bool)
    requires KeepsAccepted(rows, kept, places, accept)
    ensures if accept(Hydrate(row)) then KeepsAccepted(rows + [row], kept + [Hydrate(row)], places + [|rows|], accept)
            else KeepsAccepted(rows + [row], kept, places, accept)
  {
    forall k | 0 <= k < |rows| + 1 && accept(Hydrate((rows + [row])[k])) ensures k in places + [|rows|] && (k < |rows| ==> k in places) {
      if k < |rows| { assert accept(Hydrate(rows[k])); }
    }
  }

  /** No more than the limit, from the front, and all of them if there are no more. */
  lemma CutIs(rows: seq<Row>, limit: Option<nat>)
    ensures Cut(rows, limit) <= rows
    ensures limit.None? ==> Cut(rows, limit) == rows
    ensures limit.Some? ==> |Cut(rows, limit)| == if |rows| < limit.value then |rows| else limit.value
  {
  }

  /** `cursorCollect`: it stops early, yet returns the first accepted rows up to the limit, no others. */
  method CursorCollect(rows: seq<Row>, limit: Option<nat>, accept: Row -> bool) returns (result: seq<Row>)
    ensures result == Cut(Kept(rows, |rows|, accept), limit)
  {
    result := [];
    var i := 0;
    while i < |rows| && !Reached(|result|, limit)
      invariant 0 <= i <= |rows| && result == Kept(rows, i, accept)
      invariant limit.Some? ==> |result| <= limit.value
    {
      var row := Hydrate(rows[i]);
      if accept(row) { result := result + [row]; }
      i := i + 1;
    }
    KeptGrows(rows, i, |rows|, accept);
  }
}
