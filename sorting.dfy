/** The ORDER BY of the queries: a stable insertion sort under a total
    comparison `le`, proved to return a sorted permutation of its input. */
module Sorting {

  ghost predicate Total<T(!new)>(le: (T, T) -> bool)
  {
    forall a, b :: le(a, b) || le(b, a)
  }

  /** Every element is `le` the one after it. */
  ghost predicate Sorted<T>(s: seq<T>, le: (T, T) -> bool)
  {
    forall i, j :: 0 <= i < j < |s| && j == i + 1 ==> le(s[i], s[j])
  }

  /** Putting in front an element that is `le` the old front keeps a sequence sorted. */
  lemma SortedCons<T>(y: T, t: seq<T>, le: (T, T) -> bool)
    requires Sorted(t, le)
    requires t != [] ==> le(y, t[0])
    ensures Sorted([y] + t, le)
  {
    var r := [y] + t;
    forall i, j | 0 <= i < j < |r| && j == i + 1 ensures le(r[i], r[j]) {
      if i > 0 {
        assert r[i] == t[i - 1] && r[j] == t[j - 1];
      }
    }
  }

  lemma SortedTail<T>(t: seq<T>, le: (T, T) -> bool)
    requires Sorted(t, le) && t != []
    ensures Sorted(t[1..], le)
  {
    forall i, j | 0 <= i < j < |t| - 1 && j == i + 1 ensures le(t[1..][i], t[1..][j]) {
      assert t[1..][i] == t[i + 1] && t[1..][j] == t[j + 1];
    }
  }

  function Insert<T(!new)>(x: T, s: seq<T>, le: (T, T) -> bool): (r: seq<T>)
    ensures multiset(r) == multiset(s) + multiset{x}
    ensures |r| == |s| + 1
    ensures r[0] == x || (s != [] && r[0] == s[0])
    ensures Total(le) && Sorted(s, le) ==> Sorted(r, le)
  {
    if s == [] then
      assert Sorted([x], le);
      [x]
    else if le(x, s[0]) then
      assert Total(le) && Sorted(s, le) ==> Sorted([x] + s, le) by {
        if Total(le) && Sorted(s, le) {
          SortedCons(x, s, le);
        }
      }
      [x] + s
    else
      var rest := Insert(x, s[1..], le);
      assert s == [s[0]] + s[1..];
      assert Total(le) && Sorted(s, le) ==> Sorted([s[0]] + rest, le) by {
        if Total(le) && Sorted(s, le) {
          SortedTail(s, le);
          assert le(s[0], x);
          SortedCons(s[0], rest, le);
        }
      }
      [s[0]] + rest
  }

  function InsertionSort<T(!new)>(s: seq<T>, le: (T, T) -> bool): (r: seq<T>)
    ensures multiset(r) == multiset(s)
    ensures Total(le) ==> Sorted(r, le)
  {
    if s == [] then []
    else
      assert s == [s[0]] + s[1..];
      Insert(s[0], InsertionSort(s[1..], le), le)
  }

  /** No two elements share a key. */
  ghost predicate KeysUnique<T, K>(s: seq<T>, key: T -> K)
  {
    forall a, b :: 0 <= a < b < |s| ==> key(s[a]) != key(s[b])
  }

  lemma KeysUniqueCons<T, K>(y: T, t: seq<T>, key: T -> K)
    requires KeysUnique(t, key)
    requires forall z :: z in t ==> key(z) != key(y)
    ensures KeysUnique([y] + t, key)
  {
    var r := [y] + t;
    forall a, b | 0 <= a < b < |r| ensures key(r[a]) != key(r[b]) {
      assert r[b] == t[b - 1];
      if a > 0 {
        assert r[a] == t[a - 1];
      } else {
        assert r[b] in t;
      }
    }
  }

  lemma {:induction false} InsertKeysUnique<T(!new), K>(x: T, s: seq<T>, le: (T, T) -> bool, key: T -> K)
    requires KeysUnique(s, key)
    requires forall y :: y in s ==> key(y) != key(x)
    ensures KeysUnique(Insert(x, s, le), key)
  {
    if s == [] || le(x, s[0]) {
      KeysUniqueCons(x, s, key);
    } else {
      var rest := Insert(x, s[1..], le);
      assert KeysUnique(s[1..], key) by {
        forall a, b | 0 <= a < b < |s| - 1 ensures key(s[1..][a]) != key(s[1..][b]) {
          assert s[1..][a] == s[a + 1] && s[1..][b] == s[b + 1];
        }
      }
      InsertKeysUnique(x, s[1..], le, key);
      forall y | y in rest ensures key(y) != key(s[0]) {
        assert y in multiset(rest);
        if y != x {
          assert y in multiset(s[1..]);
          var j :| 0 <= j < |s| - 1 && s[1..][j] == y;
          assert s[j + 1] == y;
        }
      }
      KeysUniqueCons(s[0], rest, key);
    }
  }

  /** Sorting keeps a key unique when it was unique in the input. */
  lemma {:induction false} InsertionSortKeysUnique<T(!new), K>(s: seq<T>, le: (T, T) -> bool, key: T -> K)
    requires KeysUnique(s, key)
    ensures KeysUnique(InsertionSort(s, le), key)
  {
    if s != [] {
      var sorted := InsertionSort(s[1..], le);
      InsertionSortKeysUnique(s[1..], le, key);
      forall y | y in sorted ensures key(y) != key(s[0]) {
        assert y in multiset(s[1..]);
        var j :| 0 <= j < |s[1..]| && s[1..][j] == y;
        assert s[j + 1] == y;
      }
      InsertKeysUnique(s[0], sorted, le, key);
    }
  }
}
