/** What the document store's `$match` and `$sort` stages mean, for any row
    type: filtering keeps rows in their order, and sorting arranges rows by
    a vector of integer keys (a descending key is stored negated). The store
    does not promise a stable sort, so results are specified as "some sorted
    permutation"; `SortBy` is one such permutation. */
module Ordering {
  import opened Common

  /** Lexicographic "strictly before" on key vectors. */
  predicate LexLess(a: seq<int>, b: seq<int>)
    decreases |a|
  {
    |a| > 0 && |b| > 0 && (a[0] < b[0] || (a[0] == b[0] && LexLess(a[1..], b[1..])))
  }

  lemma {:induction false} LexLessTransitive(a: seq<int>, b: seq<int>, c: seq<int>)
    requires LexLess(a, b) && LexLess(b, c)
    ensures LexLess(a, c)
    decreases |a|
  {
    if a[0] == b[0] && b[0] == c[0] {
      LexLessTransitive(a[1..], b[1..], c[1..]);
    }
  }

  lemma {:induction false} LexLessIrreflexive(a: seq<int>)
    ensures !LexLess(a, a)
    decreases |a|
  {
    if |a| > 0 {
      LexLessIrreflexive(a[1..]);
    }
  }

  /** No row is strictly before an earlier row: `s` is in key order, ties in
      any order. */
  ghost predicate Sorted<T>(s: seq<T>, key: T -> seq<int>) {
    forall i, j :: 0 <= i < j < |s| ==> !LexLess(key(s[j]), key(s[i]))
  }

  /** `s` is one of the orders a sort by `key` may deliver for `rows`. */
  ghost predicate SortedPermutation<T>(s: seq<T>, rows: seq<T>, key: T -> seq<int>) {
    multiset(s) == multiset(rows) && Sorted(s, key)
  }

  lemma SortedCons<T>(x: T, s: seq<T>, key: T -> seq<int>)
    requires Sorted(s, key)
    requires forall e | e in s :: !LexLess(key(e), key(x))
    ensures Sorted([x] + s, key)
  {
    var r := [x] + s;
    forall i, j | 0 <= i < j < |r| ensures !LexLess(key(r[j]), key(r[i])) {
      if i > 0 {
        assert r[i] == s[i - 1] && r[j] == s[j - 1];
      } else {
        assert r[j] in s;
      }
    }
  }

  /** Inserts `x` before the first row that `x` strictly precedes. */
  function Insert<T>(x: T, s: seq<T>, key: T -> seq<int>): (r: seq<T>)
    requires Sorted(s, key)
    ensures multiset(r) == multiset(s) + multiset{x}
    ensures Sorted(r, key)
  {
    if s == [] then [x]
    else if LexLess(key(x), key(s[0])) then
      assert forall e | e in s :: !LexLess(key(e), key(x)) by {
        forall e | e in s ensures !LexLess(key(e), key(x)) {
          if LexLess(key(e), key(x)) {
            var j :| 0 <= j < |s| && s[j] == e;
            LexLessTransitive(key(e), key(x), key(s[0]));
            if j == 0 { LexLessIrreflexive(key(e)); }
          }
        }
      }
      SortedCons(x, s, key);
      [x] + s
    else
      var rest := Insert(x, s[1..], key);
      assert s == [s[0]] + s[1..];
      assert forall e | e in rest :: !LexLess(key(e), key(s[0])) by {
        forall e | e in rest ensures !LexLess(key(e), key(s[0])) {
          assert e in multiset(rest);
          if e != x {
            assert e in multiset(s[1..]);
            var j :| 0 <= j < |s[1..]| && s[1..][j] == e;
            assert s[j + 1] == e;
          }
        }
      }
      SortedCons(s[0], rest, key);
      [s[0]] + rest
  }

  /** Insertion sort; a row is inserted after the equal rows that precede it
      in the input, so this particular witness happens to be stable. */
  function SortBy<T>(s: seq<T>, key: T -> seq<int>): (r: seq<T>)
    ensures SortedPermutation(r, s, key)
    decreases |s|
  {
    if s == [] then []
    else
      var n := |s| - 1;
      assert s == s[..n] + [s[n]];
      Insert(s[n], SortBy(s[..n], key), key)
  }

  /** The rows of `s` for which `keep` holds, in their order. */
  function Filter<T>(s: seq<T>, keep: T -> bool): (r: seq<T>)
    ensures |r| <= |s|
    ensures forall i | 0 <= i < |r| :: r[i] in s && keep(r[i])
    ensures forall i | 0 <= i < |s| :: keep(s[i]) ==> s[i] in r
    ensures multiset(r) <= multiset(s)
  {
    if s == [] then []
    else
      assert s == [s[0]] + s[1..];
      var rest := Filter(s[1..], keep);
      if keep(s[0]) then [s[0]] + rest else rest
  }

  /** A row of `s` that the filter accepts is in the result. */
  lemma FilterContains<T>(s: seq<T>, keep: T -> bool, x: T)
    requires x in s && keep(x)
    ensures x in Filter(s, keep)
  {
    var k :| 0 <= k < |s| && s[k] == x;
  }

  /** A filter that rejects every row lets nothing through. */
  lemma {:induction false} FilterNone<T>(s: seq<T>, keep: T -> bool)
    requires forall i | 0 <= i < |s| :: !keep(s[i])
    ensures Filter(s, keep) == []
    decreases |s|
  {
    if s != [] {
      FilterNone(s[1..], keep);
    }
  }

  /** One step of a filter: the first row if it is kept, then the rest. */
  lemma FilterCons<T>(x: T, s: seq<T>, keep: T -> bool)
    ensures Filter([x] + s, keep) == (if keep(x) then [x] else []) + Filter(s, keep)
  {
    assert ([x] + s)[0] == x && ([x] + s)[1..] == s;
  }

  /** Filtering a concatenation filters each part and concatenates the
      results: the kept rows keep their relative order. */
  lemma {:induction false} FilterAppend<T>(a: seq<T>, b: seq<T>, keep: T -> bool)
    ensures Filter(a + b, keep) == Filter(a, keep) + Filter(b, keep)
    decreases |a|
  {
    if a == [] {
      assert a + b == b;
    } else {
      var x, t := a[0], a[1..];
      assert a == [x] + t && a + b == [x] + (t + b);
      FilterAppend(t, b, keep);
      FilterCons(x, t + b, keep);
      FilterCons(x, t, keep);
      ConcatAssoc(if keep(x) then [x] else [], Filter(t, keep), Filter(b, keep));
    }
  }

  lemma ConcatAssoc<T>(x: seq<T>, y: seq<T>, z: seq<T>)
    ensures x + (y + z) == (x + y) + z
  {
  }

  /** A filter that accepts every row returns its input unchanged. */
  lemma {:induction false} FilterAll<T>(s: seq<T>, keep: T -> bool)
    requires forall i | 0 <= i < |s| :: keep(s[i])
    ensures Filter(s, keep) == s
    decreases |s|
  {
    if s != [] {
      FilterAll(s[1..], keep);
    }
  }

  lemma {:induction false} FilterSorted<T>(s: seq<T>, keep: T -> bool, key: T -> seq<int>)
    requires Sorted(s, key)
    ensures Sorted(Filter(s, keep), key)
    decreases |s|
  {
    if s != [] {
      FilterSorted(s[1..], keep, key);
      if keep(s[0]) {
        forall e | e in Filter(s[1..], keep) ensures !LexLess(key(e), key(s[0])) {
          var j :| 0 <= j < |s[1..]| && s[1..][j] == e;
          assert s[j + 1] == e;
        }
        SortedCons(s[0], Filter(s[1..], keep), key);
      }
    }
  }

  /** Filtering commutes with taking a multiset: it keeps every copy of a
      kept row and drops every copy of the others. */
  lemma {:induction false} FilterMultiset<T>(s: seq<T>, keep: T -> bool, x: T)
    ensures multiset(Filter(s, keep))[x] == if keep(x) then multiset(s)[x] else 0
    decreases |s|
  {
    if s != [] {
      assert s == [s[0]] + s[1..];
      FilterMultiset(s[1..], keep, x);
    }
  }

  /** Filtering after a projection keeps the projections of the rows that a
      filter reading the same value before the projection keeps. */
  lemma {:induction false} FilterMap<A, B>(s: seq<A>, f: A -> B, keep: B -> bool, keepBefore: A -> bool)
    requires forall x :: keepBefore(x) == keep(f(x))
    ensures Filter(Map(s, f), keep) == Map(Filter(s, keepBefore), f)
    decreases |s|
  {
    if s != [] {
      FilterMap(s[1..], f, keep, keepBefore);
      assert Map(s, f)[1..] == Map(s[1..], f);
    }
  }

  /** The rows a `$skip`/`$limit` pair lets through. */
  function Window<T>(s: seq<T>, skip: nat, limit: nat): (r: seq<T>)
    ensures |r| == if skip >= |s| then 0 else if |s| - skip < limit then |s| - skip else limit
    ensures forall i | 0 <= i < |r| :: r[i] == s[skip + i]
  {
    var lo := if skip < |s| then skip else |s|;
    var hi := if skip + limit < |s| then skip + limit else |s|;
    s[lo..hi]
  }

  lemma WindowSorted<T>(s: seq<T>, skip: nat, limit: nat, key: T -> seq<int>)
    requires Sorted(s, key)
    ensures Sorted(Window(s, skip, limit), key)
  {
    var r := Window(s, skip, limit);
    forall i, j | 0 <= i < j < |r| ensures !LexLess(key(r[j]), key(r[i])) {
      assert r[i] == s[skip + i] && r[j] == s[skip + j];
    }
  }
}
