/**
 * The array operations every collection of the dashboard goes through:
 * `find` by id, an in-place write to the entry found, `filter` by id and the
 * stable `sort` behind every sorted view. Entries are generic; `idOf` reads
 * an entry's id and `key` its sort key.
 */
module Records {

  import opened Wrappers
  import opened Text

  /** `s.find(x => idOf(x) === id)`, as an index: the FIRST entry with that id. */
  function FirstIndex<T>(s: seq<T>, idOf: T -> int, id: int): (r: Option<nat>)
    ensures r.Some? ==> r.value < |s| && idOf(s[r.value]) == id
                        && forall j :: 0 <= j < r.value ==> idOf(s[j]) != id
    ensures r.None? ==> forall j :: 0 <= j < |s| ==> idOf(s[j]) != id
  {
    if s == [] then None
    else if idOf(s[0]) == id then Some(0)
    else match FirstIndex(s[1..], idOf, id)
      case None => None
      case Some(k) => Some(k + 1)
  }

  /** `s.find(x => idOf(x) === id)` as the scan it performs: the index of
      the first entry with the id, or nothing when no entry has it. */
  method Find<T>(s: seq<T>, idOf: T -> int, id: int) returns (r: Option<nat>)
    ensures r == FirstIndex(s, idOf, id)
  {
    var i := 0;
    while i < |s|
      invariant 0 <= i <= |s|
      invariant forall j :: 0 <= j < i ==> idOf(s[j]) != id
    {
      if idOf(s[i]) == id {
        return Some(i);
      }
      i := i + 1;
    }
    return None;
  }

  /** Where the first match is depends on the ids alone. */
  lemma {:induction false} FirstIndexSameIds<T>(s: seq<T>, t: seq<T>, idOf: T -> int, id: int)
    requires |s| == |t| && forall j :: 0 <= j < |s| ==> idOf(s[j]) == idOf(t[j])
    ensures FirstIndex(s, idOf, id) == FirstIndex(t, idOf, id)
  {
    if s != [] && idOf(s[0]) != id {
      FirstIndexSameIds(s[1..], t[1..], idOf, id);
    }
  }

  /** Writing to the object `find` returned: `f` is applied to the first
      entry with the id, if there is one, and the sequence is otherwise left
      as it is. */
  function UpdateFirst<T>(s: seq<T>, idOf: T -> int, id: int, f: T -> T): (r: seq<T>)
    ensures |r| == |s|
    ensures forall j :: 0 <= j < |s| && Some(j) != FirstIndex(s, idOf, id) ==> r[j] == s[j]
    ensures FirstIndex(s, idOf, id).Some? ==> r[FirstIndex(s, idOf, id).value] == f(s[FirstIndex(s, idOf, id).value])
  {
    match FirstIndex(s, idOf, id)
    case None => s
    case Some(i) => s[i := f(s[i])]
  }

  /** A write that keeps ids in place and undoes itself, applied twice to the
      same id, restores the sequence. */
  lemma UpdateFirstTwice<T>(s: seq<T>, idOf: T -> int, id: int, f: T -> T)
    requires forall x :: idOf(f(x)) == idOf(x)
    requires forall x :: f(f(x)) == x
    ensures UpdateFirst(UpdateFirst(s, idOf, id, f), idOf, id, f) == s
  {
    var t := UpdateFirst(s, idOf, id, f);
    FirstIndexSameIds(s, t, idOf, id);
  }

  /** `a` is `b` with some entries taken out, the rest in their order. */
  ghost predicate IsSubsequence<T>(a: seq<T>, b: seq<T>)
  {
    if a == [] then true
    else if b == [] then false
    else (a[0] == b[0] && IsSubsequence(a[1..], b[1..])) || IsSubsequence(a, b[1..])
  }

  /** `s.filter(keep)`: the entries that pass, in their order. */
  function Filter<T>(s: seq<T>, keep: T -> bool): (r: seq<T>)
    ensures |r| <= |s|
    ensures forall i :: 0 <= i < |r| ==> keep(r[i])
  {
    if s == [] then []
    else if keep(s[0]) then [s[0]] + Filter(s[1..], keep)
    else Filter(s[1..], keep)
  }

  /** The filtered entries keep their relative order. */
  lemma {:induction false} FilterIsSubsequence<T>(s: seq<T>, keep: T -> bool)
    ensures IsSubsequence(Filter(s, keep), s)
  {
    if s != [] {
      FilterIsSubsequence(s[1..], keep);
      var r := Filter(s, keep);
      if keep(s[0]) {
        assert r[0] == s[0] && r[1..] == Filter(s[1..], keep);
      }
    }
  }

  /** Every passing entry is kept as often as it occurs, every other entry
      is dropped; with the order kept, this pins the result down. */
  lemma {:induction false} FilterCount<T>(s: seq<T>, keep: T -> bool, x: T)
    ensures multiset(Filter(s, keep))[x] == if keep(x) then multiset(s)[x] else 0
  {
    if s != [] {
      FilterCount(s[1..], keep, x);
      assert s == [s[0]] + s[1..];
    }
  }

  /** Filtering is a homomorphism of concatenation. */
  lemma {:induction false} FilterAppend<T>(a: seq<T>, b: seq<T>, keep: T -> bool)
    ensures Filter(a + b, keep) == Filter(a, keep) + Filter(b, keep)
  {
    if a != [] {
      var ab := a + b;
      assert ab != [] && ab[0] == a[0] && ab[1..] == a[1..] + b;
      FilterAppend(a[1..], b, keep);
      if keep(a[0]) {
        calc {
          Filter(ab, keep);
          [a[0]] + Filter(a[1..] + b, keep);
          [a[0]] + (Filter(a[1..], keep) + Filter(b, keep));
          ([a[0]] + Filter(a[1..], keep)) + Filter(b, keep);
        }
      } else {
        assert Filter(ab, keep) == Filter(a[1..] + b, keep);
      }
    } else {
      assert a + b == b;
    }
  }

  /** `s.filter(x => idOf(x) !== id)`. */
  function RemoveId<T>(s: seq<T>, idOf: T -> int, id: int): (r: seq<T>)
    ensures |r| <= |s|
    ensures forall i :: 0 <= i < |r| ==> idOf(r[i]) != id
  {
    Filter(s, x => idOf(x) != id)
  }

  /** Removing by id looks at the first entry, then at the rest. */
  lemma RemoveIdFirst<T>(s: seq<T>, idOf: T -> int, id: int)
    requires s != []
    ensures RemoveId(s, idOf, id) == (if idOf(s[0]) == id then [] else [s[0]]) + RemoveId(s[1..], idOf, id)
  {
  }

  /** Removing by id drops exactly the entries with that id and keeps the
      others, as often as they occur and in their order. */
  lemma RemoveIdExact<T>(s: seq<T>, idOf: T -> int, id: int, x: T)
    ensures IsSubsequence(RemoveId(s, idOf, id), s)
    ensures multiset(RemoveId(s, idOf, id))[x] == if idOf(x) == id then 0 else multiset(s)[x]
  {
    FilterIsSubsequence(s, y => idOf(y) != id);
    FilterCount(s, y => idOf(y) != id, x);
  }

  /** Removing an id that no entry has changes nothing. */
  lemma {:induction false} RemoveAbsentId<T>(s: seq<T>, idOf: T -> int, id: int)
    requires FirstIndex(s, idOf, id).None?
    ensures RemoveId(s, idOf, id) == s
  {
    if s != [] {
      RemoveAbsentId(s[1..], idOf, id);
      assert s == [s[0]] + s[1..];
    }
  }

  /** Pushing an entry with an id no other entry has and then filtering
      that id out gives the sequence back: a fresh entry can be deleted
      without touching the others. */
  lemma RemoveIdAfterPush<T>(s: seq<T>, idOf: T -> int, x: T)
    requires FirstIndex(s, idOf, idOf(x)).None?
    ensures RemoveId(s + [x], idOf, idOf(x)) == s
  {
    var keep := y => idOf(y) != idOf(x);
    FilterAppend(s, [x], keep);
    RemoveAbsentId(s, idOf, idOf(x));
    assert Filter([x], keep) == [];
  }

  /** A strict total order on sort keys, as a comparator returning a
      negative number describes one. */
  ghost predicate StrictTotalOrder<K(!new)>(less: (K, K) -> bool)
  {
    && (forall a :: !less(a, a))
    && (forall a, b, c :: less(a, b) && less(b, c) ==> less(a, c))
    && (forall a, b :: a == b || less(a, b) || less(b, a))
  }

  /** No entry's key is below the key of an entry before it. */
  ghost predicate SortedBy<T, K>(s: seq<T>, key: T -> K, less: (K, K) -> bool)
  {
    forall i, j :: 0 <= i < j < |s| ==> !less(key(s[j]), key(s[i]))
  }

  /** Numeric order, the order of a comparator `(a, b) => a - b`. */
  predicate IntLess(a: int, b: int)
  {
    a < b
  }

  lemma IntLessIsStrictTotalOrder()
    ensures StrictTotalOrder(IntLess)
  {
  }

  /** Code-point order on strings is a strict total order. */
  lemma LexLessIsStrictTotalOrder()
    ensures StrictTotalOrder(LexLess)
  {
    forall a: string ensures !LexLess(a, a) {
      LexLessIrreflexive(a);
    }
    forall a: string, b: string, c: string | LexLess(a, b) && LexLess(b, c)
      ensures LexLess(a, c)
    {
      LexLessTransitive(a, b, c);
    }
    forall a: string, b: string ensures a == b || LexLess(a, b) || LexLess(b, a) {
      LexLessTotal(a, b);
    }
  }

  /** Every entry that survives a filter was in the filtered sequence. */
  lemma FilterMember<T>(s: seq<T>, keep: T -> bool, x: T)
    requires x in Filter(s, keep)
    ensures x in s && keep(x)
  {
    FilterCount(s, keep, x);
    assert x in multiset(Filter(s, keep));
  }

  /** An entry is kept exactly when it occurs in `s` and passes the test. */
  lemma FilterContains<T>(s: seq<T>, keep: T -> bool, x: T)
    ensures x in Filter(s, keep) <==> x in s && keep(x)
  {
    FilterCount(s, keep, x);
    assert x in Filter(s, keep) <==> x in multiset(Filter(s, keep));
    assert x in s <==> x in multiset(s);
  }

  /** Filtering a sorted sequence leaves it sorted. */
  lemma {:induction false} FilterSorted<T, K>(s: seq<T>, keep: T -> bool, key: T -> K, less: (K, K) -> bool)
    requires SortedBy(s, key, less)
    ensures SortedBy(Filter(s, keep), key, less)
  {
    if s != [] {
      FilterSorted(s[1..], keep, key, less);
      var rest := Filter(s[1..], keep);
      if keep(s[0]) {
        forall j | 0 <= j < |rest| ensures !less(key(rest[j]), key(s[0])) {
          FilterMember(s[1..], keep, rest[j]);
        }
        var r := [s[0]] + rest;
        forall i, j | 0 <= i < j < |r| ensures !less(key(r[j]), key(r[i])) {
          if i > 0 { assert r[i] == rest[i - 1] && r[j] == rest[j - 1]; }
        }
      }
    }
  }

  /** Removing by id from a sorted sequence leaves it sorted. */
  lemma RemoveIdSorted<T, K>(s: seq<T>, idOf: T -> int, id: int, key: T -> K, less: (K, K) -> bool)
    requires SortedBy(s, key, less)
    ensures SortedBy(RemoveId(s, idOf, id), key, less)
  {
    FilterSorted(s, x => idOf(x) != id, key, less);
  }

  /** The entries of `s` whose key is `k`, in their order in `s`. */
  function WithKey<T, K(==)>(s: seq<T>, key: T -> K, k: K): (r: seq<T>)
  {
    Filter(s, x => key(x) == k)
  }

  /** `x` placed before the first entry whose key is not below its own. */
  function InsertBy<T, K>(x: T, s: seq<T>, key: T -> K, less: (K, K) -> bool): (r: seq<T>)
    ensures multiset(r) == multiset(s) + multiset{x}
  {
    if s == [] || !less(key(s[0]), key(x)) then [x] + s
    else
      assert s == [s[0]] + s[1..];
      [s[0]] + InsertBy(x, s[1..], key, less)
  }

  /** `[...s].sort(cmp)` for a comparator that orders by `key`: a stable
      insertion sort on a copy, so the stored order is never touched. */
  function SortBy<T, K>(s: seq<T>, key: T -> K, less: (K, K) -> bool): (r: seq<T>)
    ensures multiset(r) == multiset(s)
  {
    if s == [] then []
    else
      assert s == [s[0]] + s[1..];
      InsertBy(s[0], SortBy(s[1..], key, less), key, less)
  }

  lemma {:induction false} InsertBySorted<T, K(!new)>(x: T, s: seq<T>, key: T -> K, less: (K, K) -> bool)
    requires StrictTotalOrder(less)
    requires SortedBy(s, key, less)
    ensures SortedBy(InsertBy(x, s, key, less), key, less)
  {
    if s != [] && less(key(s[0]), key(x)) {
      var rest := InsertBy(x, s[1..], key, less);
      InsertBySorted(x, s[1..], key, less);
      forall y | y in rest ensures !less(key(y), key(s[0])) {
        assert y in multiset(rest);
        if y != x {
          assert y in s[1..];
        }
      }
    }
  }

  /** The sorted copy is in ascending key order. */
  lemma {:induction false} SortBySorted<T, K(!new)>(s: seq<T>, key: T -> K, less: (K, K) -> bool)
    requires StrictTotalOrder(less)
    ensures SortedBy(SortBy(s, key, less), key, less)
  {
    if s != [] {
      SortBySorted(s[1..], key, less);
      InsertBySorted(s[0], SortBy(s[1..], key, less), key, less);
    }
  }

  lemma {:induction false} InsertByWithKey<T, K(!new)>(x: T, s: seq<T>, key: T -> K, less: (K, K) -> bool, k: K)
    requires StrictTotalOrder(less)
    ensures WithKey(InsertBy(x, s, key, less), key, k)
         == (if key(x) == k then [x] else []) + WithKey(s, key, k)
  {
    if s != [] && less(key(s[0]), key(x)) {
      InsertByWithKey(x, s[1..], key, less, k);
      assert key(s[0]) != key(x);
      FilterAppend([s[0]], InsertBy(x, s[1..], key, less), y => key(y) == k);
      FilterAppend([s[0]], s[1..], y => key(y) == k);
      assert s == [s[0]] + s[1..];
    } else {
      FilterAppend([x], s, y => key(y) == k);
    }
  }

  /** The sort is stable: entries with equal keys keep their relative order. */
  lemma {:induction false} SortByStable<T, K(!new)>(s: seq<T>, key: T -> K, less: (K, K) -> bool, k: K)
    requires StrictTotalOrder(less)
    ensures WithKey(SortBy(s, key, less), key, k) == WithKey(s, key, k)
  {
    if s != [] {
      SortByStable(s[1..], key, less, k);
      InsertByWithKey(s[0], SortBy(s[1..], key, less), key, less, k);
      FilterAppend([s[0]], s[1..], y => key(y) == k);
      assert s == [s[0]] + s[1..];
    }
  }

  /** `f(0), ..., f(n - 1)`, built one element at a time as a loop appends them. */
  function Tabulate<T>(f: nat -> T, n: nat): (r: seq<T>)
    ensures |r| == n
  {
    if n == 0 then [] else Tabulate(f, n - 1) + [f(n - 1)]
  }

  /** `f(0), ..., f(n - 1)`, all at once. */
  function Table<T>(f: nat -> T, n: nat): (r: seq<T>)
    ensures |r| == n && forall i :: 0 <= i < n ==> r[i] == f(i)
  {
    seq(n, (i: int) requires 0 <= i => f(i))
  }

  /** Appending `f(i)` for `i` from 0 up to `n` builds the table of `f`. */
  lemma {:induction false} TabulateIsTable<T>(f: nat -> T, n: nat)
    ensures Tabulate(f, n) == Table(f, n)
  {
    if n > 0 {
      TabulateIsTable(f, n - 1);
    }
  }

  /** Writing a key twice keeps only the second value. */
  lemma OverwriteKey<K, V>(m: map<K, V>, k: K, a: V, b: V)
    ensures m[k := a][k := b] == m[k := b]
  {
  }
}
