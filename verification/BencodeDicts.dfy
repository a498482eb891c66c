/** Dictionaries: what is found under a key, and that of repeated keys the last one counts. */
module BencodeDicts {
  import opened Basics
  import opened Decimal
  import opened Bencode
  import opened BencodeLaws

  // ----- looking up ---------------------------------------------------------------------------

  /** In a dictionary a key stands at most once, and looking it up finds what stands there. */
  lemma {:induction false} GetIs(es: seq<Entry>, key: seq<byte>, val: Value)
    requires KeysSorted(es)
    ensures Get(es, key) == Some(val) <==> Entry(key, val) in es
  {
    if es != [] {
      GetIs(es[1..], key, val);
      assert es == [es[0]] + es[1..];
      if es[0].key == key {
        forall e | e in es[1..] ensures e.key != key {
          var j :| 0 <= j < |es[1..]| && es[1..][j] == e;
          assert es[j + 1] == e && LexLess(es[0].key, es[j + 1].key);
          LexIrreflexive(key);
        }
      }
    }
  }

  /** After an insert the key has the new value, and every other key what it had. */
  lemma {:induction false} InsertGets(es: seq<Entry>, key: seq<byte>, val: Value, k: seq<byte>)
    ensures Get(Insert(es, key, val), k) == if k == key then Some(val) else Get(es, k)
  {
    if es == [] {
      assert [Entry(key, val)][1..] == [];
    } else if es[0].key == key {
      assert Insert(es, key, val)[1..] == es[1..];
    } else if LexLess(key, es[0].key) {
      assert Insert(es, key, val)[1..] == es;
    } else {
      InsertGets(es[1..], key, val, k);
      assert Insert(es, key, val)[1..] == Insert(es[1..], key, val);
    }
  }

  /** Two dictionaries in which the same is found are the same. */
  lemma {:induction false} SameGetsSameDict(a: seq<Entry>, b: seq<Entry>)
    requires KeysSorted(a) && KeysSorted(b) && forall k :: Get(a, k) == Get(b, k)
    ensures a == b
  {
    assert a != [] ==> Get(a, a[0].key) == Get(b, a[0].key);
    assert b != [] ==> Get(a, b[0].key) == Get(b, b[0].key);
    if a != [] && b != [] {
      FirstIsLeast(a, b);
      FirstIsLeast(b, a);
      LexTotal(a[0].key, b[0].key);
      if LexLess(a[0].key, b[0].key) { LexTransitive(a[0].key, b[0].key, a[0].key); LexIrreflexive(a[0].key); }
      forall k ensures Get(a[1..], k) == Get(b[1..], k) {
        if k == a[0].key { NotInRest(a); NotInRest(b); } else { assert Get(a, k) == Get(b, k); }
      }
      SameGetsSameDict(a[1..], b[1..]);
      assert a == [a[0]] + a[1..] && b == [b[0]] + b[1..];
    }
  }

  lemma FirstIsLeast(a: seq<Entry>, b: seq<Entry>)
    requires a != [] && b != [] && KeysSorted(b) && Get(a, a[0].key) == Get(b, a[0].key)
    ensures a[0].key == b[0].key || LexLess(b[0].key, a[0].key)
  {
    GetIs(b, a[0].key, a[0].val);
    var j :| 0 <= j < |b| && b[j] == a[0];
  }

  lemma NotInRest(a: seq<Entry>)
    requires a != [] && KeysSorted(a)
    ensures Get(a[1..], a[0].key) == None
  {
    if Get(a[1..], a[0].key).Some? {
      var v := Get(a[1..], a[0].key).value;
      GetIs(a[1..], a[0].key, v);
      var j :| 0 <= j < |a[1..]| && a[1..][j] == Entry(a[0].key, v);
      assert a[j + 1].key == a[0].key && LexLess(a[0].key, a[j + 1].key);
      LexIrreflexive(a[0].key);
    }
  }

  // ----- entries in any order, with repeats --------------------------------------------------------

  /** No later entry has the key of this one. */
  predicate IsLast(es: seq<Entry>, i: nat) { i < |es| && forall j :: i < j < |es| ==> es[j].key != es[i].key }

  /** Under each key stands the value of its last occurrence, and no other key is there. */
  ghost predicate HoldsLast(m: seq<Entry>, es: seq<Entry>) {
    && (forall i: nat :: IsLast(es, i) ==> Get(m, es[i].key) == Some(es[i].val))
    && (forall k :: Get(m, k).Some? ==> exists e :: e in es && e.key == k)
  }

  lemma InsertAllSnoc(done: seq<Entry>, es: seq<Entry>, e: Entry)
    ensures InsertAll(done, es + [e]) == Insert(InsertAll(done, es), e.key, e.val)
    decreases es
  {
    if es == [] {
      assert (es + [e])[1..] == [];
    } else {
      assert (es + [e])[1..] == es[1..] + [e];
      InsertAllSnoc(Insert(done, es[0].key, es[0].val), es[1..], e);
    }
  }

  lemma {:induction false} InsertAllHoldsLast(es: seq<Entry>)
    ensures KeysSorted(InsertAll([], es)) && HoldsLast(InsertAll([], es), es)
    decreases |es|
  {
    if es != [] {
      var init, e := es[..|es| - 1], es[|es| - 1];
      assert es == init + [e];
      InsertAllHoldsLast(init);
      InsertAllSnoc([], init, e);
      InsertKeepsSorted(InsertAll([], init), e.key, e.val);
      HoldsLastNext(InsertAll([], init), init, e);
    }
  }

  lemma HoldsLastNext(m: seq<Entry>, es: seq<Entry>, e: Entry)
    requires HoldsLast(m, es)
    ensures HoldsLast(Insert(m, e.key, e.val), es + [e])
  {
    var all := es + [e];
    forall i: nat | IsLast(all, i) ensures Get(Insert(m, e.key, e.val), all[i].key) == Some(all[i].val) {
      InsertGets(m, e.key, e.val, all[i].key);
      if i < |es| {
        assert all[|es|].key != all[i].key;
        assert forall j :: i < j < |es| ==> all[j] == es[j];
        assert IsLast(es, i);
      }
    }
    forall k | Get(Insert(m, e.key, e.val), k).Some? ensures exists x :: x in all && x.key == k {
      InsertGets(m, e.key, e.val, k);
      if k == e.key { assert e in all; } else { var x :| x in es && x.key == k; assert x in all; }
    }
  }

  lemma DecodeAnyOnto(es: seq<Entry>, tail: seq<byte>, depth: nat)
    requires forall e :: e in es ==> |e.key| <= ISIZE_MAX && WellFormed(e.val)
    requires EntriesHeight(es) <= depth
    ensures DecodeDict(EntriesOnto(es, tail), ReadAt(depth), []) == Ok((Dict(InsertAll([], es)), tail))
  {
    forall e | e in es ensures ReadsBack(e.val, depth) {
      forall t ensures DecodeInner(Onto(e.val, t), depth) == Reading(e.val, t, depth) { DecodeOnto(e.val, t, depth); }
    }
    DecodeEntriesOnto(es, tail, depth, []);
  }

  lemma PrintedDict(es: seq<Entry>, tail: seq<byte>)
    ensures var data := Encode(Dict(es)) + tail;
            data != [] && data[0] == LETTER_D && data[1..] == EntriesOnto(es, tail)
  {
    OntoIsAppend(Dict(es), tail);
  }

  lemma DictIsRead(data: seq<byte>, depth: nat, v: Value, tail: seq<byte>)
    requires depth > 0 && data != [] && data[0] == LETTER_D && DecodeDict(data[1..], ReadAt(depth - 1), []) == Ok((v, tail))
    ensures DecodeInner(data, depth) == Ok((v, tail))
  {
  }

  /**
  Printed entries, in any order and with keys repeated, are read as the dictionary that holds under
  each key the value of its last occurrence; it is the only dictionary that does.
  */
  lemma DecodeAnyEntries(es: seq<Entry>, tail: seq<byte>, depth: nat)
    requires forall e :: e in es ==> |e.key| <= ISIZE_MAX && WellFormed(e.val)
    requires 0 < depth && EntriesHeight(es) < depth
    ensures var r := DecodeInner(Encode(Dict(es)) + tail, depth);
            && r.Ok? && r.value.0.Dict? && r.value.1 == tail
            && KeysSorted(r.value.0.entries) && HoldsLast(r.value.0.entries, es)
  {
    assert DecodeInner(Encode(Dict(es)) + tail, depth) == Ok((Dict(InsertAll([], es)), tail)) by {
      PrintedDict(es, tail);
      DecodeAnyOnto(es, tail, depth - 1);
      DictIsRead(Encode(Dict(es)) + tail, depth, Dict(InsertAll([], es)), tail);
    }
    InsertAllHoldsLast(es);
  }

  /** Whatever holds the last value of each key is found to be the same. */
  lemma LastsDetermine(a: seq<Entry>, b: seq<Entry>, es: seq<Entry>)
    requires KeysSorted(a) && KeysSorted(b) && HoldsLast(a, es) && HoldsLast(b, es)
    ensures a == b
  {
    forall k ensures Get(a, k) == Get(b, k) {
      if e :| e in es && e.key == k { LastExists(es, k); var i: nat :| IsLast(es, i) && es[i].key == k; }
    }
    SameGetsSameDict(a, b);
  }

  lemma {:induction false} LastExists(es: seq<Entry>, k: seq<byte>)
    requires exists e :: e in es && e.key == k
    ensures exists i: nat :: IsLast(es, i) && es[i].key == k
    decreases |es|
  {
    var n := |es| - 1;
    if es[n].key == k {
      assert IsLast(es, n);
    } else {
      var e :| e in es && e.key == k;
      assert e in es[..n];
      LastExists(es[..n], k);
      var i: nat :| IsLast(es[..n], i) && es[..n][i].key == k;
      assert IsLast(es, i);
    }
  }
}
