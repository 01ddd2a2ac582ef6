/**
 * The two query-set operations the views rely on, as functions on the
 * sequence of rows a table holds: `filter(...)` and `order_by(...)`.
 */
module Query {

  /** `filter(p)`: the rows satisfying `p`, in their original order. */
  function Filter<T(!new)>(s: seq<T>, p: T -> bool): (r: seq<T>)
    ensures |r| <= |s|
    ensures forall x :: multiset(r)[x] == if p(x) then multiset(s)[x] else 0
  {
    if s == [] then []
    else
      assert s == [s[0]] + s[1..];
      (if p(s[0]) then [s[0]] else []) + Filter(s[1..], p)
  }

  /** `le` orders every pair and is transitive: the shape of an `ORDER BY` on a key. */
  ghost predicate TotalPreorder<T(!new)>(le: (T, T) -> bool)
  {
    && (forall a, b :: le(a, b) || le(b, a))
    && (forall a, b, c :: le(a, b) && le(b, c) ==> le(a, c))
  }

  ghost predicate Sorted<T>(s: seq<T>, le: (T, T) -> bool)
  {
    forall i, j :: 0 <= i < j < |s| ==> le(s[i], s[j])
  }

  /** Inserts `x` before the first element it is not after. */
  function Insert<T>(x: T, s: seq<T>, le: (T, T) -> bool): (r: seq<T>)
    ensures multiset(r) == multiset(s) + multiset{x}
  {
    if s == [] then [x]
    else if le(x, s[0]) then [x] + s
    else
      assert s == [s[0]] + s[1..];
      [s[0]] + Insert(x, s[1..], le)
  }

  /** `order_by(key)`: the same rows, rearranged by `le` (an insertion sort). */
  function SortBy<T>(s: seq<T>, le: (T, T) -> bool): (r: seq<T>)
    ensures multiset(r) == multiset(s)
  {
    if s == [] then []
    else
      assert s == [s[0]] + s[1..];
      Insert(s[0], SortBy(s[1..], le), le)
  }

  lemma {:induction false} InsertSorted<T(!new)>(x: T, s: seq<T>, le: (T, T) -> bool)
    requires TotalPreorder(le)
    requires Sorted(s, le)
    ensures Sorted(Insert(x, s, le), le)
  {
    if s != [] && !le(x, s[0]) {
      var tail := Insert(x, s[1..], le);
      InsertSorted(x, s[1..], le);
      assert le(s[0], x);
      forall y | y in tail
        ensures le(s[0], y)
      {
        assert y in multiset(tail);
        if y != x {
          assert y in multiset(s[1..]);
          var k :| 0 <= k < |s[1..]| && s[1..][k] == y;
          assert s[k + 1] == y;
        }
      }
      var r := [s[0]] + tail;
      forall i, j | 0 <= i < j < |r|
        ensures le(r[i], r[j])
      {
        if i == 0 {
          assert r[j] == tail[j - 1];
          assert r[j] in tail;
        } else {
          assert r[i] == tail[i - 1] && r[j] == tail[j - 1];
        }
      }
    }
  }

  /** `order_by` yields its rows in non-decreasing order of the key. */
  lemma {:induction false} SortBySorted<T(!new)>(s: seq<T>, le: (T, T) -> bool)
    requires TotalPreorder(le)
    ensures Sorted(SortBy(s, le), le)
  {
    if s != [] {
      SortBySorted(s[1..], le);
      InsertSorted(s[0], SortBy(s[1..], le), le);
    }
  }

  /** No two rows share a key: the table's primary-key constraint. */
  ghost predicate UniqueBy<T, K>(s: seq<T>, key: T -> K)
  {
    forall i, j :: 0 <= i < j < |s| ==> key(s[i]) != key(s[j])
  }

  /** Every row `filter` returns is a row of the table that satisfies the filter. */
  lemma FilterMember<T(!new)>(s: seq<T>, p: T -> bool, y: T)
    requires y in Filter(s, p)
    ensures y in s && p(y)
  {
  }

  lemma HeadKeyFresh<T, K>(s: seq<T>, key: T -> K, y: T)
    requires UniqueBy(s, key)
    requires |s| > 0 && y in s[1..]
    ensures key(y) != key(s[0])
  {
  }

  /** Putting a row whose key is new in front of a keyed table keeps the keys distinct. */
  lemma ConsUniqueBy<T, K>(x: T, tail: seq<T>, key: T -> K)
    requires UniqueBy(tail, key)
    requires forall y :: y in tail ==> key(y) != key(x)
    ensures UniqueBy([x] + tail, key)
  {
  }

  /** Filtering a table keeps its primary keys distinct. */
  lemma {:induction false} FilterUniqueBy<T(!new), K>(s: seq<T>, p: T -> bool, key: T -> K)
    requires UniqueBy(s, key)
    ensures UniqueBy(Filter(s, p), key)
  {
    if s != [] {
      var tail := Filter(s[1..], p);
      assert UniqueBy(s[1..], key);
      FilterUniqueBy(s[1..], p, key);
      if p(s[0]) {
        forall y | y in tail
          ensures key(y) != key(s[0])
        {
          FilterMember(s[1..], p, y);
          HeadKeyFresh(s, key, y);
        }
        ConsUniqueBy(s[0], tail, key);
        assert Filter(s, p) == [s[0]] + tail;
      } else {
        assert Filter(s, p) == tail;
      }
    }
  }

  /** The set of keys of a table's rows. */
  ghost function KeySet<T, K>(s: seq<T>, key: T -> K): set<K>
  {
    set x | x in s :: key(x)
  }

  /** Rewriting rows without touching their keys keeps the key set and its uniqueness. */
  lemma SameKeys<T, K>(s: seq<T>, t: seq<T>, key: T -> K)
    requires |s| == |t|
    requires forall k :: 0 <= k < |s| ==> key(s[k]) == key(t[k])
    ensures UniqueBy(s, key) ==> UniqueBy(t, key)
    ensures KeySet(s, key) == KeySet(t, key)
  {
  }
}
