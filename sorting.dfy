/**
 * The queryset operations the aggregation depends on, over rows already fetched
 * into memory: `filter`/`exclude` keep the rows satisfying a condition in their
 * fetched order, and `order_by` sorts them stably by a key.  Rows with equal keys
 * keep their fetched order (the database leaves that order open; the stable
 * choice is the deterministic one).
 */
module Sorting {

  /** The rows of `s` that satisfy `p`, in order. */
  function Filter<T>(s: seq<T>, p: T -> bool): (r: seq<T>)
    ensures |r| <= |s|
    ensures forall x | x in r :: x in s && p(x)
    ensures forall x | x in s && p(x) :: x in r
  {
    if s == [] then []
    else (if p(s[0]) then [s[0]] else []) + Filter(s[1..], p)
  }

  /** `le` compares every two keys and is transitive: a sort order with ties. */
  ghost predicate TotalPreorder<K(!new)>(le: (K, K) -> bool) {
    && (forall a, b :: le(a, b) || le(b, a))
    && (forall a, b, c :: le(a, b) && le(b, c) ==> le(a, c))
  }

  /** Every row's key is at most the key of every later row. */
  ghost predicate SortedBy<T, K>(s: seq<T>, key: T -> K, le: (K, K) -> bool) {
    forall i, j :: 0 <= i < j < |s| ==> le(key(s[i]), key(s[j]))
  }

  /** Puts `x` before the first row whose key is not below `key(x)`. */
  function Insert<T, K(!new)>(x: T, s: seq<T>, key: T -> K, le: (K, K) -> bool): (r: seq<T>)
    ensures multiset(r) == multiset(s) + multiset{x}
  {
    if s == [] || le(key(x), key(s[0])) then [x] + s
    else
      assert s == [s[0]] + s[1..];
      [s[0]] + Insert(x, s[1..], key, le)
  }

  /** A key at most the first key of a sorted sequence is at most all of its keys. */
  lemma BelowSorted<T, K(!new)>(k: K, t: seq<T>, key: T -> K, le: (K, K) -> bool)
    requires TotalPreorder(le) && SortedBy(t, key, le)
    requires t != [] && le(k, key(t[0]))
    ensures forall y | y in t :: le(k, key(y))
  {
    forall y | y in t ensures le(k, key(y)) {
      var j :| 0 <= j < |t| && t[j] == y;
      if j > 0 {
        assert le(key(t[0]), key(t[j]));
      }
    }
  }

  /** A row whose key is at most every key of a sorted sequence can go in front of it. */
  lemma ConsSorted<T, K>(y: T, t: seq<T>, key: T -> K, le: (K, K) -> bool)
    requires SortedBy(t, key, le) && forall z | z in t :: le(key(y), key(z))
    ensures SortedBy([y] + t, key, le)
  {
    var r := [y] + t;
    forall i, j | 0 <= i < j < |r| ensures le(key(r[i]), key(r[j])) {
      assert r[j] == t[j - 1] && r[j] in t;
      if i > 0 {
        assert r[i] == t[i - 1];
      }
    }
  }

  lemma TailSorted<T, K>(s: seq<T>, key: T -> K, le: (K, K) -> bool)
    requires SortedBy(s, key, le) && s != []
    ensures SortedBy(s[1..], key, le)
  {
    forall i, j | 0 <= i < j < |s| - 1 ensures le(key(s[1..][i]), key(s[1..][j])) {
      assert s[1..][i] == s[i + 1] && s[1..][j] == s[j + 1];
    }
  }

  /** When `x` goes behind the first row, that row's key is at most every key after it. */
  lemma HeadBelowInsert<T, K(!new)>(x: T, s: seq<T>, key: T -> K, le: (K, K) -> bool)
    requires TotalPreorder(le) && SortedBy(s, key, le)
    requires s != [] && le(key(s[0]), key(x))
    ensures forall y | y in Insert(x, s[1..], key, le) :: le(key(s[0]), key(y))
  {
    var rest := Insert(x, s[1..], key, le);
    forall y | y in rest ensures le(key(s[0]), key(y)) {
      assert multiset(rest)[y] > 0;
      if y != x {
        assert y in s[1..];
        var j :| 1 <= j < |s| && s[j] == y;
      }
    }
  }

  /** Inserting into a sorted sequence keeps it sorted. */
  lemma {:induction false} InsertSorted<T, K(!new)>(x: T, s: seq<T>, key: T -> K, le: (K, K) -> bool)
    requires TotalPreorder(le) && SortedBy(s, key, le)
    ensures SortedBy(Insert(x, s, key, le), key, le)
  {
    if s == [] {
      assert Insert(x, s, key, le) == [x];
    } else if le(key(x), key(s[0])) {
      BelowSorted(key(x), s, key, le);
      ConsSorted(x, s, key, le);
    } else {
      TailSorted(s, key, le);
      InsertSorted(x, s[1..], key, le);
      assert le(key(s[0]), key(x));
      HeadBelowInsert(x, s, key, le);
      ConsSorted(s[0], Insert(x, s[1..], key, le), key, le);
    }
  }

  /** `order_by`: a stable insertion sort of `s` by `key`. */
  function SortBy<T, K(!new)>(s: seq<T>, key: T -> K, le: (K, K) -> bool): (r: seq<T>)
    requires TotalPreorder(le)
    ensures multiset(r) == multiset(s)
    ensures SortedBy(r, key, le)
  {
    if s == [] then []
    else
      assert s == [s[0]] + s[1..];
      InsertSorted(s[0], SortBy(s[1..], key, le), key, le);
      Insert(s[0], SortBy(s[1..], key, le), key, le)
  }

  lemma SortBySingleton<T, K(!new)>(x: T, key: T -> K, le: (K, K) -> bool)
    requires TotalPreorder(le)
    ensures SortBy([x], key, le) == [x]
  {
    assert [x][1..] == [];
  }

  /** `Filter` keeps every occurrence of a row that satisfies `p`, and no other. */
  lemma {:induction false} FilterCount<T>(s: seq<T>, p: T -> bool, x: T)
    ensures multiset(Filter(s, p))[x] == if p(x) then multiset(s)[x] else 0
  {
    if s != [] {
      FilterCount(s[1..], p, x);
      assert s == [s[0]] + s[1..];
    }
  }

  lemma FilterCons<T>(x: T, s: seq<T>, p: T -> bool)
    ensures Filter([x] + s, p) == (if p(x) then [x] else []) + Filter(s, p)
  {
    assert ([x] + s)[1..] == s;
  }

  /** Filtering a sorted sequence after inserting `x` is inserting into the filtered one. */
  lemma {:induction false} FilterInsert<T, K(!new)>(x: T, t: seq<T>, key: T -> K, le: (K, K) -> bool, p: T -> bool)
    requires TotalPreorder(le) && SortedBy(t, key, le)
    ensures Filter(Insert(x, t, key, le), p)
         == if p(x) then Insert(x, Filter(t, p), key, le) else Filter(t, p)
  {
    if t == [] {
      FilterCons(x, [], p);
    } else if le(key(x), key(t[0])) {
      FilterInsertFront(x, t, key, le, p);
    } else {
      assert SortedBy(t[1..], key, le) by {
        forall i, j | 0 <= i < j < |t| - 1 ensures le(key(t[1..][i]), key(t[1..][j])) {
          assert t[1..][i] == t[i + 1] && t[1..][j] == t[j + 1];
        }
      }
      FilterInsert(x, t[1..], key, le, p);
      FilterInsertBehind(x, t, key, le, p);
    }
  }

  lemma FilterInsertBehind<T, K(!new)>(x: T, t: seq<T>, key: T -> K, le: (K, K) -> bool, p: T -> bool)
    requires t != [] && !le(key(x), key(t[0]))
    requires Filter(Insert(x, t[1..], key, le), p)
          == if p(x) then Insert(x, Filter(t[1..], p), key, le) else Filter(t[1..], p)
    ensures Filter(Insert(x, t, key, le), p)
         == if p(x) then Insert(x, Filter(t, p), key, le) else Filter(t, p)
  {
    if p(t[0]) {
      FilterInsertBehindHead(x, t, key, le, p);
    } else {
      var rest := Insert(x, t[1..], key, le);
      assert Insert(x, t, key, le) == [t[0]] + rest;
      FilterCons(t[0], rest, p);
      assert Filter(Insert(x, t, key, le), p) == Filter(rest, p);
      assert Filter(t, p) == Filter(t[1..], p);
    }
  }

  lemma FilterInsertBehindHead<T, K(!new)>(x: T, t: seq<T>, key: T -> K, le: (K, K) -> bool, p: T -> bool)
    requires t != [] && !le(key(x), key(t[0])) && p(t[0])
    requires Filter(Insert(x, t[1..], key, le), p)
          == if p(x) then Insert(x, Filter(t[1..], p), key, le) else Filter(t[1..], p)
    ensures Filter(Insert(x, t, key, le), p)
         == if p(x) then Insert(x, Filter(t, p), key, le) else Filter(t, p)
  {
    var rest := Insert(x, t[1..], key, le);
    assert Insert(x, t, key, le) == [t[0]] + rest;
    FilterCons(t[0], rest, p);
    assert Filter(Insert(x, t, key, le), p) == [t[0]] + Filter(rest, p);
    if p(x) {
      FilterInsertBehindKept(x, t, key, le, p);
    }
  }

  lemma FilterInsertBehindKept<T, K(!new)>(x: T, t: seq<T>, key: T -> K, le: (K, K) -> bool, p: T -> bool)
    requires t != [] && !le(key(x), key(t[0])) && p(t[0]) && p(x)
    ensures Insert(x, Filter(t, p), key, le) == [t[0]] + Insert(x, Filter(t[1..], p), key, le)
  {
    var ft' := Filter(t[1..], p);
    assert t == [t[0]] + t[1..];
    FilterCons(t[0], t[1..], p);
    var ft := [t[0]] + ft';
    assert ft[0] == t[0] && ft[1..] == ft';
  }

  lemma FilterInsertFront<T, K(!new)>(x: T, t: seq<T>, key: T -> K, le: (K, K) -> bool, p: T -> bool)
    requires TotalPreorder(le) && SortedBy(t, key, le)
    requires t != [] && le(key(x), key(t[0]))
    ensures Filter(Insert(x, t, key, le), p)
         == if p(x) then Insert(x, Filter(t, p), key, le) else Filter(t, p)
  {
    assert Insert(x, t, key, le) == [x] + t;
    FilterCons(x, t, p);
    var ft := Filter(t, p);
    if p(x) && ft != [] {
      BelowSorted(key(x), t, key, le);
      assert ft[0] in t;
    }
  }

  /** Filtering commutes with the stable sort. */
  lemma {:induction false} FilterSortBy<T, K(!new)>(s: seq<T>, key: T -> K, le: (K, K) -> bool, p: T -> bool)
    requires TotalPreorder(le)
    ensures Filter(SortBy(s, key, le), p) == SortBy(Filter(s, p), key, le)
  {
    if s != [] {
      FilterSortBy(s[1..], key, le, p);
      FilterInsert(s[0], SortBy(s[1..], key, le), key, le, p);
      var fs := Filter(s[1..], p);
      if p(s[0]) {
        assert Filter(s, p) == [s[0]] + fs;
        assert ([s[0]] + fs)[1..] == fs;
      } else {
        assert Filter(s, p) == fs;
      }
    }
  }

  /** A sequence whose keys are all equivalent to `k` is left as it is by the sort. */
  lemma {:induction false} SortByAllEquivalent<T, K(!new)>(s: seq<T>, key: T -> K, le: (K, K) -> bool, k: K)
    requires TotalPreorder(le)
    requires forall x :: x in s ==> le(key(x), k) && le(k, key(x))
    ensures SortBy(s, key, le) == s
  {
    if s != [] {
      SortByAllEquivalent(s[1..], key, le, k);
      assert s[1..] != [] ==> s[1] in s;
    }
  }

  /**
   * Stability: the rows whose key is equivalent to `k` appear in the sorted
   * result in exactly the order they were fetched in.
   */
  lemma SortByStable<T, K(!new)>(s: seq<T>, key: T -> K, le: (K, K) -> bool, k: K)
    requires TotalPreorder(le)
    ensures var tie := (x: T) => le(key(x), k) && le(k, key(x));
            Filter(SortBy(s, key, le), tie) == Filter(s, tie)
  {
    var tie := (x: T) => le(key(x), k) && le(k, key(x));
    FilterSortBy(s, key, le, tie);
    SortByAllEquivalent(Filter(s, tie), key, le, k);
  }

  /** Two successive filters keep the rows satisfying both conditions. */
  lemma {:induction false} FilterFilter<T>(s: seq<T>, p: T -> bool, q: T -> bool, pq: T -> bool)
    requires forall x :: pq(x) == (p(x) && q(x))
    ensures Filter(Filter(s, p), q) == Filter(s, pq)
  {
    if s != [] {
      FilterFilter(s[1..], p, q, pq);
      assert s == [s[0]] + s[1..];
      FilterCons(s[0], s[1..], p);
      FilterCons(s[0], s[1..], pq);
      if p(s[0]) {
        FilterCons(s[0], Filter(s[1..], p), q);
        assert Filter(s, p) == [s[0]] + Filter(s[1..], p);
        assert pq(s[0]) == q(s[0]);
      } else {
        assert !pq(s[0]);
        assert Filter(s, p) == Filter(s[1..], p);
      }
    }
  }

  lemma {:induction false} FilterSnoc<T>(s: seq<T>, x: T, p: T -> bool)
    ensures Filter(s + [x], p) == Filter(s, p) + (if p(x) then [x] else [])
  {
    if s == [] {
      assert s + [x] == [x] && [x][1..] == [];
    } else {
      var head := if p(s[0]) then [s[0]] else [];
      FilterSnoc(s[1..], x, p);
      assert (s + [x])[1..] == s[1..] + [x] && (s + [x])[0] == s[0];
      calc {
        Filter(s + [x], p);
        head + Filter(s[1..] + [x], p);
        head + (Filter(s[1..], p) + (if p(x) then [x] else []));
        (head + Filter(s[1..], p)) + (if p(x) then [x] else []);
      }
    }
  }

  /** The count form of `FilterCount`, for every row of `s` at once. */
  lemma FilterCounts<T>(s: seq<T>, p: T -> bool)
    ensures forall x | x in s :: multiset(Filter(s, p))[x] == if p(x) then multiset(s)[x] else 0
  {
    forall x | x in s ensures multiset(Filter(s, p))[x] == if p(x) then multiset(s)[x] else 0 {
      FilterCount(s, p, x);
    }
  }

  /** No value occurs twice. */
  predicate NoDuplicates<T(==)>(s: seq<T>) {
    forall i, j :: 0 <= i < j < |s| ==> s[i] != s[j]
  }

  /** The first occurrence of every value of `s`: each used group once; the sort that follows fixes the order. */
  function Distinct<T(==)>(s: seq<T>): (r: seq<T>)
    ensures forall x | x in s :: x in r
    ensures forall x | x in r :: x in s
    ensures NoDuplicates(r)
  {
    if s == [] then []
    else
      var d := Distinct(s[..|s| - 1]);
      var x := s[|s| - 1];
      assert s == s[..|s| - 1] + [x];
      if x in d then d else d + [x]
  }

  lemma DistinctPair<T>(x: T)
    ensures Distinct([x, x]) == [x]
  {
    assert [x, x][..1] == [x] && [x][..0] == [];
    assert Distinct([x]) == [x];
  }

  /** A sequence with the same elements and counts as a sequence without duplicates has none. */
  lemma NoDuplicatesPermutation<T>(s: seq<T>, t: seq<T>)
    requires NoDuplicates(s) && multiset(s) == multiset(t)
    ensures NoDuplicates(t)
  {
    forall i, j | 0 <= i < j < |t| ensures t[i] != t[j] {
      if t[i] == t[j] {
        assert multiset(t)[t[i]] >= 2 by {
          assert t == t[..i] + [t[i]] + t[i + 1..j] + [t[j]] + t[j + 1..];
        }
        SingleCount(s, t[i]);
        assert false;
      }
    }
  }

  lemma {:induction false} SingleCount<T>(s: seq<T>, x: T)
    requires NoDuplicates(s)
    ensures multiset(s)[x] <= 1
  {
    if s != [] {
      assert NoDuplicates(s[1..]) by {
        forall i, j | 0 <= i < j < |s| - 1 ensures s[1..][i] != s[1..][j] {
          assert s[1..][i] == s[i + 1] && s[1..][j] == s[j + 1];
        }
      }
      SingleCount(s[1..], x);
      assert s == [s[0]] + s[1..];
    }
  }

  /** Code-point lexicographic order of strings (the order of `order_by` on a text column). */
  predicate StrLe(a: string, b: string) {
    if a == [] then true
    else if b == [] then false
    else if a[0] != b[0] then a[0] < b[0]
    else StrLe(a[1..], b[1..])
  }

  lemma {:induction false} StrLeTotal(a: string, b: string)
    ensures StrLe(a, b) || StrLe(b, a)
  {
    if a != [] && b != [] && a[0] == b[0] {
      StrLeTotal(a[1..], b[1..]);
    }
  }

  lemma {:induction false} StrLeTransitive(a: string, b: string, c: string)
    requires StrLe(a, b) && StrLe(b, c)
    ensures StrLe(a, c)
  {
    if a != [] && b != [] && c != [] && a[0] == b[0] && b[0] == c[0] {
      StrLeTransitive(a[1..], b[1..], c[1..]);
    }
  }

  lemma {:induction false} StrLeAntisymmetric(a: string, b: string)
    requires StrLe(a, b) && StrLe(b, a)
    ensures a == b
  {
    if a != [] && b != [] {
      StrLeAntisymmetric(a[1..], b[1..]);
      assert a == [a[0]] + a[1..] && b == [b[0]] + b[1..];
    }
  }
}
