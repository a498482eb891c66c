/** The stable sort (`sort_by`, `sort`) and the `dedup` of Rust vectors, for keys compared lexicographically. */
module Sorting {
  import opened Basics

  ghost predicate SortedBy<T>(s: seq<T>, key: T -> seq<int>) {
    forall i, j :: 0 <= i < j < |s| ==> LexLeq(key(s[i]), key(s[j]))
  }

  function InsertBy<T>(x: T, s: seq<T>, key: T -> seq<int>): seq<T> {
    if s == [] || LexLeq(key(x), key(s[0])) then [x] + s else [s[0]] + InsertBy(x, s[1..], key)
  }

  function Sort<T>(s: seq<T>, key: T -> seq<int>): seq<T> {
    if s == [] then [] else InsertBy(s[0], Sort(s[1..], key), key)
  }

  lemma {:induction false} InsertByMembers<T>(x: T, s: seq<T>, key: T -> seq<int>)
    ensures multiset(InsertBy(x, s, key)) == multiset(s) + multiset{x}
  {
    if s != [] && !LexLeq(key(x), key(s[0])) {
      InsertByMembers(x, s[1..], key);
      assert s == [s[0]] + s[1..];
    }
  }

  lemma {:induction false} InsertBySorted<T>(x: T, s: seq<T>, key: T -> seq<int>)
    requires SortedBy(s, key)
    ensures SortedBy(InsertBy(x, s, key), key)
  {
    var out := InsertBy(x, s, key);
    if s == [] || LexLeq(key(x), key(s[0])) {
      forall j | 0 < j < |out| ensures LexLeq(key(x), key(out[j])) {
        if j > 1 { LexLeqTransitive(key(x), key(s[0]), key(s[j - 1])); }
      }
    } else {
      LexTotal(key(x), key(s[0]));
      InsertBySorted(x, s[1..], key);
      var rest := InsertBy(x, s[1..], key);
      forall j | 0 < j < |out| ensures LexLeq(key(out[0]), key(out[j])) {
        InsertByMembers(x, s[1..], key);
        assert out[j] == rest[j - 1] && rest[j - 1] in multiset(rest);
        assert rest[j - 1] == x || rest[j - 1] in s[1..];
      }
      forall i, j | 0 < i < j < |out| ensures LexLeq(key(out[i]), key(out[j])) {
        assert out[i] == rest[i - 1] && out[j] == rest[j - 1];
      }
    }
  }

  lemma {:induction false} SortSorts<T>(s: seq<T>, key: T -> seq<int>)
    ensures SortedBy(Sort(s, key), key)
    ensures multiset(Sort(s, key)) == multiset(s)
  {
    if s != [] {
      SortSorts(s[1..], key);
      InsertBySorted(s[0], Sort(s[1..], key), key);
      InsertByMembers(s[0], Sort(s[1..], key), key);
      assert s == [s[0]] + s[1..];
    }
  }

  lemma SortKeepsMembers<T>(s: seq<T>, key: T -> seq<int>, x: T)
    ensures x in Sort(s, key) <==> x in s
  {
    SortSorts(s, key);
    assert x in Sort(s, key) <==> x in multiset(Sort(s, key));
  }

  /** The elements with key `k`, in order. */
  ghost function WithKey<T>(s: seq<T>, key: T -> seq<int>, k: seq<int>): seq<T> {
    if s == [] then [] else (if key(s[0]) == k then [s[0]] else []) + WithKey(s[1..], key, k)
  }

  lemma {:induction false} InsertByStable<T>(x: T, s: seq<T>, key: T -> seq<int>, k: seq<int>)
    ensures WithKey(InsertBy(x, s, key), key, k) == (if key(x) == k then [x] else []) + WithKey(s, key, k)
  {
    var out := InsertBy(x, s, key);
    if s == [] || LexLeq(key(x), key(s[0])) {
      assert out[1..] == s;
    } else {
      assert key(x) != key(s[0]);
      assert out[0] == s[0] && out[1..] == InsertBy(x, s[1..], key);
      InsertByStable(x, s[1..], key, k);
    }
  }

  /** Elements that compare equal stay in the order they had. */
  lemma {:induction false} SortIsStable<T>(s: seq<T>, key: T -> seq<int>, k: seq<int>)
    ensures WithKey(Sort(s, key), key, k) == WithKey(s, key, k)
  {
    if s != [] {
      SortIsStable(s[1..], key, k);
      InsertByStable(s[0], Sort(s[1..], key), key, k);
    }
  }

  // ----- a stable sort is the only one ------------------------------------------------------------

  lemma {:induction false} WithKeyHolds<T>(s: seq<T>, key: T -> seq<int>, k: seq<int>)
    ensures WithKey(s, key, k) != [] <==> exists i :: 0 <= i < |s| && key(s[i]) == k
  {
    if s != [] {
      WithKeyHolds(s[1..], key, k);
      assert forall i :: 0 < i < |s| ==> s[i] == s[1..][i - 1];
      if key(s[0]) != k && WithKey(s[1..], key, k) != [] {
        var i :| 0 <= i < |s[1..]| && key(s[1..][i]) == k;
        assert key(s[i + 1]) == k;
      }
    }
  }

  /** A sorted sequence starts with the least key that occurs in it. */
  lemma LeastFirst<T>(s: seq<T>, key: T -> seq<int>, k: seq<int>)
    requires SortedBy(s, key) && WithKey(s, key, k) != []
    ensures s != [] && LexLeq(key(s[0]), k)
  {
    WithKeyHolds(s, key, k);
  }

  lemma LexAntisymmetric(a: seq<int>, b: seq<int>)
    requires LexLeq(a, b) && LexLeq(b, a)
    ensures a == b
  {
    if a != b {
      LexTransitive(a, b, a);
      LexIrreflexive(a);
    }
  }

  lemma HeadHasKey<T>(s: seq<T>, key: T -> seq<int>)
    requires s != []
    ensures WithKey(s, key, key(s[0])) == [s[0]] + WithKey(s[1..], key, key(s[0]))
  {}

  lemma SameHead<T>(s: seq<T>, t: seq<T>, key: T -> seq<int>)
    requires SortedBy(s, key) && SortedBy(t, key) && s != [] && t != []
    requires WithKey(s, key, key(s[0])) == WithKey(t, key, key(s[0])) && WithKey(s, key, key(t[0])) == WithKey(t, key, key(t[0]))
    ensures s[0] == t[0]
  {
    HeadHasKey(s, key);
    HeadHasKey(t, key);
    LeastFirst(t, key, key(s[0]));
    LeastFirst(s, key, key(t[0]));
    LexAntisymmetric(key(s[0]), key(t[0]));
    assert WithKey(s, key, key(s[0]))[0] == s[0] && WithKey(t, key, key(t[0]))[0] == t[0];
  }

  lemma SameTail<T>(s: seq<T>, t: seq<T>, key: T -> seq<int>, k: seq<int>)
    requires s != [] && t != [] && s[0] == t[0] && WithKey(s, key, k) == WithKey(t, key, k)
    ensures WithKey(s[1..], key, k) == WithKey(t[1..], key, k)
  {
    DropSame(if key(s[0]) == k then [s[0]] else [], WithKey(s[1..], key, k), WithKey(t[1..], key, k));
  }

  lemma NoneAlike<T>(s: seq<T>, t: seq<T>, key: T -> seq<int>)
    requires forall k :: WithKey(s, key, k) == WithKey(t, key, k)
    ensures s == [] <==> t == []
  {
    if s != [] { HeadHasKey(s, key); }
    if t != [] { HeadHasKey(t, key); }
  }

  lemma {:induction false} SortedAlike<T>(s: seq<T>, t: seq<T>, key: T -> seq<int>)
    requires SortedBy(s, key) && SortedBy(t, key)
    requires forall k :: WithKey(s, key, k) == WithKey(t, key, k)
    ensures s == t
    decreases |s|
  {
    NoneAlike(s, t, key);
    if s != [] {
      SameHead(s, t, key);
      forall k ensures WithKey(s[1..], key, k) == WithKey(t[1..], key, k) { SameTail(s, t, key, k); }
      SortedAlike(s[1..], t[1..], key);
      assert s == [s[0]] + s[1..] && t == [t[0]] + t[1..];
    }
  }

  lemma DropSame<T>(a: seq<T>, b: seq<T>, c: seq<T>)
    requires a + b == a + c
    ensures b == c
  {
    assert (a + b)[|a|..] == b && (a + c)[|a|..] == c;
  }

  /**
  Whatever algorithm sorts: a result that is sorted and keeps, for every key, the elements with that
  key in their order, is this one. So the sort stands for `sort_by`, which promises no more.
  */
  lemma StableSortIsUnique<T>(s: seq<T>, t: seq<T>, key: T -> seq<int>)
    requires SortedBy(t, key) && forall k :: WithKey(t, key, k) == WithKey(s, key, k)
    ensures t == Sort(s, key) && multiset(t) == multiset(s)
  {
    SortSorts(s, key);
    forall k ensures WithKey(Sort(s, key), key, k) == WithKey(s, key, k) { SortIsStable(s, key, k); }
    SortedAlike(t, Sort(s, key), key);
  }

  /** `Vec::dedup`. */
  function Dedup<T(==)>(s: seq<T>): seq<T> {
    if |s| < 2 then s
    else if s[0] == s[1] then Dedup(s[1..])
    else [s[0]] + Dedup(s[1..])
  }

  lemma {:induction false} DedupKeepsMembers<T>(s: seq<T>, x: T)
    ensures x in Dedup(s) <==> x in s
  {
    if |s| >= 2 {
      DedupKeepsMembers(s[1..], x);
      assert s == [s[0]] + s[1..];
    }
  }

  ghost predicate StrictlySortedBy<T>(s: seq<T>, key: T -> seq<int>) {
    forall i, j :: 0 <= i < j < |s| ==> LexLess(key(s[i]), key(s[j]))
  }

  /** With keys that tell elements apart, removing neighbours that are equal leaves no duplicate. */
  lemma {:induction false} DedupSorted<T>(s: seq<T>, key: T -> seq<int>)
    requires SortedBy(s, key)
    requires forall x, y :: x in s && y in s && key(x) == key(y) ==> x == y
    ensures StrictlySortedBy(Dedup(s), key)
  {
    if |s| >= 2 {
      DedupSorted(s[1..], key);
      if s[0] != s[1] {
        var rest := Dedup(s[1..]);
        forall j | 0 <= j < |rest| ensures LexLess(key(s[0]), key(rest[j])) {
          DedupKeepsMembers(s[1..], rest[j]);
          var m :| 0 <= m < |s[1..]| && s[1..][m] == rest[j];
          assert LexLess(key(s[0]), key(s[1]));
          if m > 0 { LexTransitiveLeq(key(s[0]), key(s[1]), key(s[m + 1])); }
        }
      }
    }
  }

  lemma LexTransitiveLeq(a: seq<int>, b: seq<int>, c: seq<int>)
    requires LexLess(a, b) && LexLeq(b, c)
    ensures LexLess(a, c)
  {
    if b != c { LexTransitive(a, b, c); }
  }
}
