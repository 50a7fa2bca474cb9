/** The document store's sort stage, as the routes use it: a single sort key
    per query, ascending or descending. Keys follow the store's comparison
    order for the values the catalog holds: every number sorts before every
    string, numbers by value, strings code point by code point.

    The store does not promise an order among documents with equal keys; the
    model picks one such order (a stable insertion sort) and everything proved
    about it is a property of every admissible order: the result is sorted by
    the key and is a permutation of the input. */
module Ordering {
  import opened Common

  datatype Key = Num(n: real) | Str(s: string)

  /** Lexicographic order on strings, character by character. */
  predicate StrLe(a: string, b: string)
    decreases |a|
  {
    if a == [] then true
    else if b == [] then false
    else if a[0] != b[0] then a[0] < b[0]
    else StrLe(a[1..], b[1..])
  }

  lemma {:induction false} StrLeTotal(a: string, b: string)
    ensures StrLe(a, b) || StrLe(b, a)
    decreases |a|
  {
    if a != [] && b != [] && a[0] == b[0] {
      StrLeTotal(a[1..], b[1..]);
    }
  }

  lemma {:induction false} StrLeTransitive(a: string, b: string, c: string)
    requires StrLe(a, b) && StrLe(b, c)
    ensures StrLe(a, c)
    decreases |a|
  {
    if a != [] && b != [] && c != [] && a[0] == b[0] && b[0] == c[0] {
      StrLeTransitive(a[1..], b[1..], c[1..]);
    }
  }

  /** The store's order on sort keys: numbers before strings. */
  predicate KeyLe(a: Key, b: Key) {
    match a
    case Num(x) => b.Num? ==> x <= b.n
    case Str(x) => b.Str? && StrLe(x, b.s)
  }

  lemma KeyLeTotal(a: Key, b: Key)
    ensures KeyLe(a, b) || KeyLe(b, a)
  {
    if a.Str? && b.Str? {
      StrLeTotal(a.s, b.s);
    }
  }

  lemma KeyLeTransitive(a: Key, b: Key, c: Key)
    requires KeyLe(a, b) && KeyLe(b, c)
    ensures KeyLe(a, c)
  {
    if a.Str? {
      StrLeTransitive(a.s, b.s, c.s);
    }
  }

  /** Whether a document with key `a` may come before one with key `b`
      (`ASCENDING` when `descending` is false, `DESCENDING` otherwise). */
  predicate InOrder(a: Key, b: Key, descending: bool) {
    if descending then KeyLe(b, a) else KeyLe(a, b)
  }

  ghost predicate SortedBy<T>(s: seq<T>, key: T -> Key, descending: bool) {
    forall i, j :: 0 <= i < j < |s| ==> InOrder(key(s[i]), key(s[j]), descending)
  }

  /** Places `x` before the first element it may precede. */
  function Insert<T>(x: T, s: seq<T>, key: T -> Key, descending: bool): seq<T> {
    if s == [] then [x]
    else if InOrder(key(x), key(s[0]), descending) then [x] + s
    else [s[0]] + Insert(x, s[1..], key, descending)
  }

  /** The sort stage: `s` ordered by `key` in the requested direction. */
  function SortBy<T>(s: seq<T>, key: T -> Key, descending: bool): seq<T> {
    if s == [] then [] else Insert(s[0], SortBy(s[1..], key, descending), key, descending)
  }

  lemma {:induction false} InsertPermutes<T>(x: T, s: seq<T>, key: T -> Key, descending: bool)
    ensures multiset(Insert(x, s, key, descending)) == multiset(s) + multiset{x}
  {
    if s != [] && !InOrder(key(x), key(s[0]), descending) {
      InsertPermutes(x, s[1..], key, descending);
      assert s == [s[0]] + s[1..];
    }
  }

  /** An element that may precede every element of a sorted run may head it. */
  lemma ConsSorted<T>(y: T, t: seq<T>, key: T -> Key, descending: bool)
    requires SortedBy(t, key, descending)
    requires forall e :: e in t ==> InOrder(key(y), key(e), descending)
    ensures SortedBy([y] + t, key, descending)
  {
    var r := [y] + t;
    forall i, j | 0 <= i < j < |r| ensures InOrder(key(r[i]), key(r[j]), descending) {
      assert r[j] == t[j - 1];
      if i == 0 {
        assert t[j - 1] in t;
      } else {
        assert r[i] == t[i - 1];
      }
    }
  }

  /** Every element of a sorted run may follow its head. */
  lemma HeadPrecedes<T>(s: seq<T>, key: T -> Key, descending: bool, e: T)
    requires SortedBy(s, key, descending) && s != [] && e in s[1..]
    ensures InOrder(key(s[0]), key(e), descending)
  {
    var k :| 0 <= k < |s[1..]| && s[1..][k] == e;
    assert s[k + 1] == e;
  }

  lemma {:induction false} InsertSorted<T>(x: T, s: seq<T>, key: T -> Key, descending: bool)
    requires SortedBy(s, key, descending)
    ensures SortedBy(Insert(x, s, key, descending), key, descending)
  {
    if s == [] {
    } else if InOrder(key(x), key(s[0]), descending) {
      forall e | e in s ensures InOrder(key(x), key(e), descending) {
        if e != s[0] {
          assert e in s[1..] by {
            var k :| 0 <= k < |s| && s[k] == e;
            assert s[1..][k - 1] == e;
          }
          HeadPrecedes(s, key, descending, e);
          if descending {
            KeyLeTransitive(key(e), key(s[0]), key(x));
          } else {
            KeyLeTransitive(key(x), key(s[0]), key(e));
          }
        }
      }
      ConsSorted(x, s, key, descending);
    } else {
      KeyLeTotal(key(x), key(s[0]));
      var tail := Insert(x, s[1..], key, descending);
      InsertSorted(x, s[1..], key, descending);
      InsertPermutes(x, s[1..], key, descending);
      assert SortedBy(s[1..], key, descending) by {
        forall i, j | 0 <= i < j < |s[1..]| ensures InOrder(key(s[1..][i]), key(s[1..][j]), descending) {
          assert s[1..][i] == s[i + 1] && s[1..][j] == s[j + 1];
        }
      }
      forall e | e in tail ensures InOrder(key(s[0]), key(e), descending) {
        assert e in multiset(tail);
        if e != x {
          assert e in multiset(s[1..]);
          HeadPrecedes(s, key, descending, e);
        }
      }
      ConsSorted(s[0], tail, key, descending);
    }
  }

  /** The sort stage is sorted and is a permutation of its input. */
  lemma {:induction false} SortByCorrect<T>(s: seq<T>, key: T -> Key, descending: bool)
    ensures SortedBy(SortBy(s, key, descending), key, descending)
    ensures multiset(SortBy(s, key, descending)) == multiset(s)
    ensures |SortBy(s, key, descending)| == |s|
  {
    if s != [] {
      SortByCorrect(s[1..], key, descending);
      InsertSorted(s[0], SortBy(s[1..], key, descending), key, descending);
      InsertPermutes(s[0], SortBy(s[1..], key, descending), key, descending);
      assert s == [s[0]] + s[1..];
    }
  }

  /** A page of the sorted result is as large as a page of the unsorted one. */
  lemma SortedWindowSize<T>(s: seq<T>, key: T -> Key, descending: bool, page: int, pageSize: int)
    requires page >= 1 && pageSize >= 1
    ensures |PageWindow(SortBy(s, key, descending), page, pageSize)| == Min(pageSize, Max(0, |s| - (page - 1) * pageSize))
  {
    SortByCorrect(s, key, descending);
    WindowSize(SortBy(s, key, descending), |s|, page, pageSize);
  }
}
