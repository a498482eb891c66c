/** The way of a dissolved file through the browser: written, read, saved, collected, packed, unpacked. */
module ShareJourney {
  import opened Basics
  import opened Radix
  import opened Frames
  import opened Mid
  import opened ShareRows
  import opened ShareBundle
  import opened DissolveBundle
  import opened DissolveLaws
  import opened ShareStore

  // ----- what a cursor shows ---------------------------------------------------------------------

  function Slot(row: Row): int { KeyOf(row).1 }

  /** The rows of a prefix in the order of their slots, as the index of the database gives them. */
  ghost predicate IsCursor(rows: seq<Row>, table: map<Key, Row>, prefix: string) {
    && (forall i, j :: 0 <= i < j < |rows| ==> Slot(rows[i]) < Slot(rows[j]))
    && (forall i :: 0 <= i < |rows| ==> rows[i].midPrefixHex == prefix && KeyOf(rows[i]) in table && table[KeyOf(rows[i])] == rows[i])
    && (forall key :: key in table && key.0 == prefix ==> exists i :: 0 <= i < |rows| && rows[i] == table[key])
  }

  /** Increasing numbers that are exactly those below `n` are 0, 1, 2, and so on. */
  lemma {:induction false} Counted(s: seq<int>, n: nat, j: nat)
    requires forall i, k :: 0 <= i < k < |s| ==> s[i] < s[k]
    requires (forall i :: 0 <= i < |s| ==> 0 <= s[i] < n) && (forall v :: 0 <= v < n ==> v in s)
    requires j < n
    ensures j < |s| && s[j] == j
    decreases j
  {
    forall i | 0 <= i < j ensures i < |s| && s[i] == i { Counted(s, n, i); }
    assert j in s;
    var k :| 0 <= k < |s| && s[k] == j;
    AtLeast(s, k);
    if k < j { assert s[k] == k; }
  }

  lemma {:induction false} AtLeast(s: seq<int>, k: nat)
    requires forall i, l :: 0 <= i < l < |s| ==> s[i] < s[l]
    requires (forall i :: 0 <= i < |s| ==> 0 <= s[i]) && k < |s|
    ensures s[k] >= k
    decreases k
  {
    if k > 0 { AtLeast(s, k - 1); }
  }

  // ----- shares in slots 0, 1, 2, … ------------------------------------------------------------------

  /** Rows that all carry the prefix and stand in the slot of their position. */
  ghost predicate InOrder(list: seq<Row>, prefix: string) {
    forall i :: 0 <= i < |list| ==> KeyOf(list[i]) == (prefix, i)
  }

  lemma ListedIsShown(table: map<Key, Row>, list: seq<Row>, prefix: string, rows: seq<Row>, i: nat)
    requires InOrder(list, prefix) && IsCursor(rows, PutAll(table, list, |list|), prefix) && i < |list|
    ensures list[i] in rows
  {
    PutAllAt(table, list, |list|, i);
    var key: Key := (prefix, i);
    var r :| 0 <= r < |rows| && rows[r] == PutAll(table, list, |list|)[key];
    assert rows[r] in rows;
  }

  /** Put into a table that had no row of the prefix, they are what a cursor shows, in their order. */
  lemma CursorShows(table: map<Key, Row>, list: seq<Row>, prefix: string, rows: seq<Row>)
    requires InOrder(list, prefix) && forall key :: key in table ==> key.0 != prefix
    requires IsCursor(rows, PutAll(table, list, |list|), prefix)
    ensures rows == list
  {
    forall i | 0 <= i < |list| ensures list[i] in rows {
      ListedIsShown(table, list, prefix, rows, i);
    }
    forall r | 0 <= r < |rows| ensures 0 <= Slot(rows[r]) < |list| && rows[r] == list[Slot(rows[r])] {
      RowIsListed(table, list, prefix, rows[r]);
    }
    SameOrder(list, prefix, rows);
  }

  lemma SameOrder(list: seq<Row>, prefix: string, rows: seq<Row>)
    requires InOrder(list, prefix) && forall i, j :: 0 <= i < j < |rows| ==> Slot(rows[i]) < Slot(rows[j])
    requires forall i :: 0 <= i < |list| ==> list[i] in rows
    requires forall r :: 0 <= r < |rows| ==> 0 <= Slot(rows[r]) < |list| && rows[r] == list[Slot(rows[r])]
    ensures rows == list
  {
    var slots := seq(|rows|, i requires 0 <= i < |rows| => Slot(rows[i]));
    forall i | 0 <= i < |list| ensures i in slots {
      assert list[i] in rows;
      var r :| 0 <= r < |rows| && rows[r] == list[i];
      assert slots[r] == i;
    }
    forall i | 0 <= i < |list| ensures i < |rows| && rows[i] == list[i] { Counted(slots, |list|, i); }
    if |rows| > |list| {
      AtLeast(slots, |list|);
    } else if |rows| < |list| {
      Counted(slots, |list|, |rows|);
    }
    assert |rows| == |list|;
  }

  lemma RowIsListed(table: map<Key, Row>, list: seq<Row>, prefix: string, row: Row)
    requires InOrder(list, prefix) && forall key :: key in table ==> key.0 != prefix
    requires row.midPrefixHex == prefix && KeyOf(row) in PutAll(table, list, |list|)
    requires PutAll(table, list, |list|)[KeyOf(row)] == row
    ensures 0 <= Slot(row) < |list| && row == list[Slot(row)]
  {
    if 0 <= Slot(row) < |list| {
      PutAllAt(table, list, |list|, Slot(row));
    } else {
      PutAllElse(table, list, |list|, KeyOf(row));
    }
  }

  // ----- the journey -----------------------------------------------------------------------------------

  function Everything(row: Row): bool { true }

  lemma {:induction false} KeptAll(rows: seq<Row>, n: nat)
    requires n <= |rows|
    ensures |Kept(rows, n, Everything)| == n && forall i :: 0 <= i < n ==> Kept(rows, n, Everything)[i] == Hydrate(rows[i])
  {
    if n > 0 { KeptAll(rows, n - 1); }
  }

  /** The shares of collected rows. */
  function SharesIn(rows: seq<Row>): seq<Share>
    requires forall i :: 0 <= i < |rows| ==> rows[i].data.Json?
  {
    seq(|rows|, i requires 0 <= i < |rows| => rows[i].data.share)
  }

  /** A share read from a bundle comes back from its row with the same bytes, under its prefix and slot. */
  lemma SavedShare(prefix: string, i: nat, part: Bytes)
    requires prefix != "" && AreDigits(part, 256)
    ensures var row := SaveRow(prefix, i, ShareAt(prefix, i, part));
            && KeyOf(row) == (prefix, i)
            && Hydrate(row).data.Json? && BytesOnly(Hydrate(row).data.share)
            && ShareBinaryBytes(Hydrate(row).data.share) == Some(part)
  {
  }

  /**
  What the module wrote for a digest, read by the page, saved into a table without rows of that
  prefix, collected, packed and handed back, is unpacked to the shares that were written, exactly
  when each of them has at most a mebibyte and is accepted.
  */
  lemma SharesComeBack(
    digest: Bytes, k: nat, parts: seq<Bytes>, utf8: Bytes -> string, table: map<Key, Row>, rows: seq<Row>, accept: Bytes -> bool)
    requires AreDigits(digest, 256) && |digest| == 32 && Carried(parts) && k < 65536 && IsTextDecoder(utf8)
    requires IsAscii(MidText(digest)) && EncodeBundle(MidText(digest), k, |parts|, parts).Ok?
    requires forall key :: key in table ==> key.0 != Hex(digest[..8])
    requires IsCursor(rows, PutAll(table, RowsFor(Hex(digest[..8]), SharesOf(Hex(digest[..8]), parts)), |parts|), Hex(digest[..8]))
    ensures var sent := EncodeBundle(MidText(digest), k, |parts|, parts).value;
            AreDigits(sent, 256) && Parse(sent, utf8) == Ok(Bundle(MidText(digest), SharesOf(Hex(digest[..8]), parts), k, |parts|))
    ensures SavePrefix(MidText(digest)) == Ok(Hex(digest[..8]))
    ensures var collected := Kept(rows, |rows|, Everything);
            && (forall i :: 0 <= i < |collected| ==> collected[i].data.Json?)
            && BytesInside(SharesIn(collected))
            && Pack(SharesIn(collected)).Ok?
            && AreDigits(Pack(SharesIn(collected)).value, 256)
            && (Unpack(Pack(SharesIn(collected)).value, accept) == Ok(parts) <==>
                  forall i :: 0 <= i < |parts| ==> |parts[i]| <= MAX_BINCODE_SIZE && accept(parts[i]))
  {
    DissolveComesThrough(digest, k, |parts|, parts, utf8);
    OneKeyPerMid(digest);
    SavedAndPacked(Hex(digest[..8]), parts, table, rows);
    PackUnpack(parts, accept);
  }

  lemma PackedFrom(shares: seq<Share>, parts: seq<Bytes>)
    requires Carried(parts) && |shares| == |parts|
    requires forall i :: 0 <= i < |parts| ==> BytesOnly(shares[i]) && ShareBinaryBytes(shares[i]) == Some(parts[i])
    ensures BytesInside(shares) && Pack(shares) == Ok(Packed(parts))
  {
    assert PartsOf(shares) == parts;
  }

  lemma SavedAndPacked(prefix: string, parts: seq<Bytes>, table: map<Key, Row>, rows: seq<Row>)
    requires prefix != "" && Carried(parts) && forall key :: key in table ==> key.0 != prefix
    requires IsCursor(rows, PutAll(table, RowsFor(prefix, SharesOf(prefix, parts)), |parts|), prefix)
    ensures var collected := Kept(rows, |rows|, Everything);
            && (forall i :: 0 <= i < |collected| ==> collected[i].data.Json?)
            && BytesInside(SharesIn(collected))
            && Pack(SharesIn(collected)) == Ok(Packed(parts))
  {
    var list := RowsFor(prefix, SharesOf(prefix, parts));
    forall i | 0 <= i < |parts|
      ensures KeyOf(list[i]) == (prefix, i) && Hydrate(list[i]).data.Json? && BytesOnly(Hydrate(list[i]).data.share)
      ensures ShareBinaryBytes(Hydrate(list[i]).data.share) == Some(parts[i])
    {
      SavedShare(prefix, i, parts[i]);
    }
    CursorShows(table, list, prefix, rows);
    KeptAll(rows, |rows|);
    PackedFrom(SharesIn(Kept(rows, |rows|, Everything)), parts);
  }
}
