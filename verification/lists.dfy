/** List building, keep-first deduplication and stable sorting, as the analysis modules use them. */
module Lists {
  import opened Common

  // ---------------------------------------------------------------- collecting

  /** What `f` gives for each element, one after the other. */
  function Collect<T, R>(s: seq<T>, f: T -> seq<R>): seq<R> {
    if s == [] then [] else Collect(s[..|s| - 1], f) + f(s[|s| - 1])
  }

  lemma {:induction false} CollectHas<T, R>(s: seq<T>, f: T -> seq<R>, r: R)
    ensures r in Collect(s, f) <==> exists t :: t in s && r in f(t)
  {
    if s != [] {
      var n := |s| - 1;
      CollectHas(s[..n], f, r);
      assert forall t :: t in s <==> t in s[..n] || t == s[n];
    }
  }

  lemma {:induction false} CollectAppend<T, R>(a: seq<T>, b: seq<T>, f: T -> seq<R>)
    ensures Collect(a + b, f) == Collect(a, f) + Collect(b, f)
  {
    if b == [] {
      assert a + b == a;
    } else {
      var n := |b| - 1;
      CollectAppend(a, b[..n], f);
      assert (a + b)[..|a + b| - 1] == a + b[..n];
    }
  }

  // ---------------------------------------------------------------- deduplication

  predicate HasKey<T, K(==)>(s: seq<T>, key: T -> K, k: K) {
    exists i | 0 <= i < |s| :: key(s[i]) == k
  }

  /** The elements whose key has not come before. */
  function Dedupe<T, K(==)>(s: seq<T>, key: T -> K): seq<T> {
    if s == [] then []
    else
      var kept, last := Dedupe(s[..|s| - 1], key), s[|s| - 1];
      if HasKey(kept, key, key(last)) then kept else kept + [last]
  }

  method DedupeBySeen<T, K(==,!new)>(s: seq<T>, key: T -> K) returns (kept: seq<T>)
    ensures kept == Dedupe(s, key)
  {
    kept := [];
    var seen: set<K> := {};
    for i := 0 to |s|
      invariant kept == Dedupe(s[..i], key)
      invariant forall k :: k in seen <==> HasKey(kept, key, k)
    {
      assert s[..i + 1][..i] == s[..i];
      if key(s[i]) !in seen {
        seen := seen + {key(s[i])};
        KeysGrow(kept, key, s[i]);
        kept := kept + [s[i]];
      }
    }
    assert s[..|s|] == s;
  }

  lemma KeysGrow<T, K(!new)>(s: seq<T>, key: T -> K, x: T)
    ensures forall k :: HasKey(s + [x], key, k) <==> HasKey(s, key, k) || k == key(x)
  {
    forall k
      ensures HasKey(s + [x], key, k) <==> HasKey(s, key, k) || k == key(x)
    {
      KeyGrows(s, key, x, k);
    }
  }

  lemma KeyGrows<T, K>(s: seq<T>, key: T -> K, x: T, k: K)
    ensures HasKey(s + [x], key, k) <==> HasKey(s, key, k) || k == key(x)
  {
    assert (s + [x])[|s|] == x;
    if i :| 0 <= i < |s| && key(s[i]) == k { assert (s + [x])[i] == s[i]; }
    if i :| 0 <= i < |s + [x]| && key((s + [x])[i]) == k {
      if i < |s| { assert s[i] == (s + [x])[i]; }
    }
  }

  ghost predicate DistinctKeys<T, K>(s: seq<T>, key: T -> K) {
    forall i, j | 0 <= i < j < |s| :: key(s[i]) != key(s[j])
  }

  /** Deduplication keeps one element for every key, the first, and nothing that was not there. */
  lemma {:induction false} DedupeIsExact<T, K>(s: seq<T>, key: T -> K)
    ensures DistinctKeys(Dedupe(s, key), key)
    ensures forall t | t in Dedupe(s, key) :: t in s
    ensures forall t | t in s :: HasKey(Dedupe(s, key), key, key(t))
  {
    if s != [] {
      var n := |s| - 1;
      DedupeIsExact(s[..n], key);
      var kept, last := Dedupe(s[..n], key), s[n];
      assert s == s[..n] + [last];
      if !HasKey(kept, key, key(last)) {
        DistinctGrow(kept, key, last);
        forall t | t in s
          ensures HasKey(kept + [last], key, key(t))
        {
          KeyGrows(kept, key, last, key(t));
        }
      }
    }
  }

  /** The first element with a key. */
  function FirstOf<T, K(==)>(s: seq<T>, key: T -> K, k: K): Option<T> {
    if s == [] then None
    else
      var earlier := FirstOf(s[..|s| - 1], key, k);
      if earlier.None? && key(s[|s| - 1]) == k then Some(s[|s| - 1]) else earlier
  }

  lemma {:induction false} FirstOfIsExact<T, K>(s: seq<T>, key: T -> K, k: K)
    ensures FirstOf(s, key, k).Some? <==> exists t :: t in s && key(t) == k
    ensures FirstOf(s, key, k).Some? ==> FirstOf(s, key, k).value in s && key(FirstOf(s, key, k).value) == k
  {
    if s != [] {
      var n := |s| - 1;
      FirstOfIsExact(s[..n], key, k);
      assert forall t :: t in s <==> t in s[..n] || t == s[n];
    }
  }

  lemma {:induction false} FirstOfAppend<T, K>(a: seq<T>, b: seq<T>, key: T -> K, k: K)
    ensures FirstOf(a + b, key, k) == if FirstOf(a, key, k).Some? then FirstOf(a, key, k) else FirstOf(b, key, k)
  {
    if b == [] {
      assert a + b == a;
    } else {
      var n := |b| - 1;
      FirstOfAppend(a, b[..n], key, k);
      assert (a + b)[..|a + b| - 1] == a + b[..n];
    }
  }

  lemma {:induction false} FirstOfDedupe<T, K>(s: seq<T>, key: T -> K, k: K)
    ensures FirstOf(Dedupe(s, key), key, k) == FirstOf(s, key, k)
  {
    if s != [] {
      var n := |s| - 1;
      var kept := Dedupe(s[..n], key);
      FirstOfDedupe(s[..n], key, k);
      FirstOfIsExact(kept, key, k);
      if HasKey(kept, key, key(s[n])) {
        var i :| 0 <= i < |kept| && key(kept[i]) == key(s[n]);
      } else {
        TakeAppend(kept, [s[n]]);
      }
    }
  }

  /** What is kept is the first of its key. */
  lemma DedupeKeepsFirst<T, K>(s: seq<T>, key: T -> K, t: T)
    ensures t in Dedupe(s, key) <==> FirstOf(s, key, key(t)) == Some(t)
  {
    FirstOfDedupe(s, key, key(t));
    FirstOfIsExact(Dedupe(s, key), key, key(t));
    DedupeIsExact(s, key);
  }

  lemma DistinctGrow<T, K>(s: seq<T>, key: T -> K, x: T)
    requires DistinctKeys(s, key) && !HasKey(s, key, key(x))
    ensures DistinctKeys(s + [x], key)
  {
    forall i, j | 0 <= i < j < |s + [x]|
      ensures key((s + [x])[i]) != key((s + [x])[j])
    {
      assert (s + [x])[i] == s[i];
    }
  }

  // ---------------------------------------------------------------- stable sorting

  /** Puts `x` behind everything that does not rank higher. */
  function InsertLast<T>(s: seq<T>, rank: T -> int, x: T): seq<T> {
    if s == [] || rank(s[|s| - 1]) <= rank(x) then s + [x]
    else InsertLast(s[..|s| - 1], rank, x) + [s[|s| - 1]]
  }

  function StableSort<T>(s: seq<T>, rank: T -> int): seq<T> {
    if s == [] then [] else InsertLast(StableSort(s[..|s| - 1], rank), rank, s[|s| - 1])
  }

  ghost predicate IsSorted<T>(s: seq<T>, rank: T -> int) {
    forall i, j | 0 <= i < j < |s| :: rank(s[i]) <= rank(s[j])
  }

  /** The elements of one rank, in order. */
  function OfRank<T>(s: seq<T>, rank: T -> int, r: int): seq<T> {
    if s == [] then []
    else
      var earlier := OfRank(s[..|s| - 1], rank, r);
      if rank(s[|s| - 1]) == r then earlier + [s[|s| - 1]] else earlier
  }

  lemma {:induction false} InsertPermutes<T>(s: seq<T>, rank: T -> int, x: T)
    ensures multiset(InsertLast(s, rank, x)) == multiset(s) + multiset{x}
  {
    if s != [] && rank(s[|s| - 1]) > rank(x) {
      InsertPermutes(s[..|s| - 1], rank, x);
      SplitLast(s);
    }
  }

  lemma {:induction false} InsertIsSorted<T>(s: seq<T>, rank: T -> int, x: T)
    requires IsSorted(s, rank)
    ensures IsSorted(InsertLast(s, rank, x), rank)
  {
    if s != [] && rank(s[|s| - 1]) > rank(x) {
      var n := |s| - 1;
      InsertIsSorted(s[..n], rank, x);
      InsertPermutes(s[..n], rank, x);
      forall t | t in s[..n]
        ensures rank(t) <= rank(s[n])
      {
        var i :| 0 <= i < n && s[i] == t;
      }
      var inserted := InsertLast(s[..n], rank, x);
      forall t | t in inserted
        ensures rank(t) <= rank(s[n])
      {
        InsertPermutes(s[..n], rank, x);
        assert t in multiset(inserted);
      }
      SnocIsSorted(inserted, rank, s[n]);
    }
  }

  lemma OfRankSnoc<T>(s: seq<T>, x: T, rank: T -> int, r: int)
    ensures OfRank(s + [x], rank, r) == if rank(x) == r then OfRank(s, rank, r) + [x] else OfRank(s, rank, r)
  {
    TakeAppend(s, [x]);
  }

  lemma {:induction false} InsertIsStable<T>(s: seq<T>, rank: T -> int, x: T, r: int)
    ensures OfRank(InsertLast(s, rank, x), rank, r) == OfRank(s + [x], rank, r)
  {
    if s != [] && rank(s[|s| - 1]) > rank(x) {
      var n := |s| - 1;
      InsertIsStable(s[..n], rank, x, r);
      OfRankSnoc(InsertLast(s[..n], rank, x), s[n], rank, r);
      OfRankSnoc(s, x, rank, r);
      OfRankSnoc(s[..n], x, rank, r);
    }
  }

  lemma SnocIsSorted<T>(s: seq<T>, rank: T -> int, x: T)
    requires IsSorted(s, rank) && forall t | t in s :: rank(t) <= rank(x)
    ensures IsSorted(s + [x], rank)
  {
  }

  /** The result is sorted, a permutation, and keeps the order of elements of equal rank. */
  lemma {:induction false} StableSortIsStable<T>(s: seq<T>, rank: T -> int)
    ensures IsSorted(StableSort(s, rank), rank)
    ensures multiset(StableSort(s, rank)) == multiset(s)
    ensures forall r :: OfRank(StableSort(s, rank), rank, r) == OfRank(s, rank, r)
  {
    if s != [] {
      var n, last := |s| - 1, s[|s| - 1];
      var front := StableSort(s[..n], rank);
      StableSortIsStable(s[..n], rank);
      InsertIsSorted(front, rank, last);
      InsertPermutes(front, rank, last);
      SplitLast(s);
      forall r
        ensures OfRank(StableSort(s, rank), rank, r) == OfRank(s, rank, r)
      {
        InsertIsStable(front, rank, last, r);
        OfRankSnoc(front, last, rank, r);
      }
    }
  }

  lemma SortHas<T>(s: seq<T>, rank: T -> int, t: T)
    ensures t in StableSort(s, rank) <==> t in s
  {
    StableSortIsStable(s, rank);
    assert t in StableSort(s, rank) <==> t in multiset(StableSort(s, rank));
    assert t in s <==> t in multiset(s);
  }
}
