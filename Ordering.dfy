/**
 * What the two list queries need of an `ORDER BY`: sortedness and distinct keys, total
 * preorders, insertion into a sequence kept sorted, and code-point order on strings.
 * The two orders themselves (`ORDER BY name`, `ORDER BY createdAt DESC`) are defined
 * with their routers.
 */
module Ordering {

  /** Every element of `s` is `le` every later element. */
  ghost predicate SortedBy<T>(s: seq<T>, le: (T, T) -> bool) {
    forall i, j :: 0 <= i < j < |s| ==> le(s[i], s[j])
  }

  /** No two elements of `s` have the same key. */
  ghost predicate DistinctBy<T, K>(s: seq<T>, key: T -> K) {
    forall i, j :: 0 <= i < j < |s| ==> key(s[i]) != key(s[j])
  }

  ghost predicate TotalPreorder<T(!new)>(le: (T, T) -> bool) {
    && (forall a, b :: le(a, b) || le(b, a))
    && (forall a, b, c :: le(a, b) && le(b, c) ==> le(a, c))
  }

  /** `s` with `x` inserted before the first element it is `le`. */
  function InsertSorted<T>(x: T, s: seq<T>, le: (T, T) -> bool): (r: seq<T>)
    ensures multiset(r) == multiset(s) + multiset{x}
    ensures |r| == |s| + 1
  {
    if s == [] then [x]
    else if le(x, s[0]) then [x] + s
    else
      assert s == [s[0]] + s[1..];
      [s[0]] + InsertSorted(x, s[1..], le)
  }

  lemma {:induction false} InsertSortedMembers<T>(x: T, s: seq<T>, le: (T, T) -> bool)
    ensures forall y :: y in InsertSorted(x, s, le) <==> y == x || y in s
  {
    var r := InsertSorted(x, s, le);
    forall y ensures y in r <==> y == x || y in s {
      assert y in r <==> y in multiset(r);
      assert y in s <==> y in multiset(s);
    }
  }

  /** The keys of the elements of `s`. */
  ghost function KeysOf<T, K>(s: seq<T>, key: T -> K): set<K> {
    set x | x in s :: key(x)
  }

  /** Insertion adds `x` and nothing else, so it adds exactly `x`'s key. */
  lemma {:induction false} InsertSortedKeys<T, K>(x: T, s: seq<T>, le: (T, T) -> bool, key: T -> K)
    ensures forall y :: y in InsertSorted(x, s, le) <==> y == x || y in s
    ensures KeysOf(InsertSorted(x, s, le), key) == KeysOf(s, key) + {key(x)}
  {
    InsertSortedMembers(x, s, le);
    var r := InsertSorted(x, s, le);
    forall k ensures k in KeysOf(r, key) <==> k in KeysOf(s, key) + {key(x)} {
      if k in KeysOf(r, key) {
        var y :| y in r && key(y) == k;
        if y != x {
          assert y in s;
          assert k in KeysOf(s, key);
        }
      }
      if k in KeysOf(s, key) {
        var y :| y in s && key(y) == k;
        assert y in r;
        assert k in KeysOf(r, key);
      }
      if k == key(x) {
        assert x in r;
        assert k in KeysOf(r, key);
      }
    }
    assert KeysOf(r, key) == KeysOf(s, key) + {key(x)};
  }

  lemma {:induction false} InsertSortedSorted<T(!new)>(x: T, s: seq<T>, le: (T, T) -> bool)
    requires TotalPreorder(le)
    requires SortedBy(s, le)
    ensures SortedBy(InsertSorted(x, s, le), le)
  {
    if s == [] {
    } else if le(x, s[0]) {
      var r := [x] + s;
      forall j | 1 <= j < |r| ensures le(x, r[j]) {
        if j > 1 {
          assert le(s[0], s[j - 1]);
        }
      }
      forall i, j | 0 <= i < j < |r| ensures le(r[i], r[j]) {
        if i > 0 {
          assert r[i] == s[i - 1] && r[j] == s[j - 1];
        }
      }
    } else {
      var t := InsertSorted(x, s[1..], le);
      InsertSortedSorted(x, s[1..], le);
      var r := [s[0]] + t;
      assert le(s[0], x);
      forall j | 1 <= j < |r| ensures le(s[0], r[j]) {
        assert r[j] in multiset(t);
        if r[j] != x {
          assert r[j] in s[1..];
          var k :| 0 <= k < |s[1..]| && s[1..][k] == r[j];
          assert s[k + 1] == r[j];
        }
      }
      forall i, j | 0 <= i < j < |r| ensures le(r[i], r[j]) {
        if i > 0 {
          assert r[i] == t[i - 1] && r[j] == t[j - 1];
        }
      }
    }
  }

  lemma {:induction false} ConsDistinct<T, K>(y: T, t: seq<T>, key: T -> K)
    requires DistinctBy(t, key)
    requires forall z :: z in t ==> key(z) != key(y)
    ensures DistinctBy([y] + t, key)
  {
    var r := [y] + t;
    forall i, j | 0 <= i < j < |r| ensures key(r[i]) != key(r[j]) {
      assert r[j] == t[j - 1];
      if i == 0 {
        assert t[j - 1] in t;
      } else {
        assert r[i] == t[i - 1];
      }
    }
  }

  lemma {:induction false} DistinctTail<T, K>(s: seq<T>, key: T -> K)
    requires s != [] && DistinctBy(s, key)
    ensures DistinctBy(s[1..], key)
    ensures forall z :: z in s[1..] ==> key(z) != key(s[0])
  {
    var u := s[1..];
    assert forall i :: 0 <= i < |u| ==> u[i] == s[i + 1];
    forall z | z in u ensures key(z) != key(s[0]) {
      var k :| 0 <= k < |u| && u[k] == z;
      assert s[k + 1] == z;
    }
  }

  lemma {:induction false} InsertSortedDistinct<T, K>(x: T, s: seq<T>, le: (T, T) -> bool, key: T -> K)
    requires DistinctBy(s, key)
    requires forall y :: y in s ==> key(y) != key(x)
    ensures DistinctBy(InsertSorted(x, s, le), key)
  {
    if s == [] {
    } else if le(x, s[0]) {
      ConsDistinct(x, s, key);
    } else {
      var u := s[1..];
      DistinctTail(s, key);
      assert forall y :: y in u ==> y in s;
      InsertSortedDistinct(x, u, le, key);
      var t := InsertSorted(x, u, le);
      forall z | z in t ensures key(z) != key(s[0]) {
        assert z in multiset(t);
        assert z == x || z in multiset(u);
        if z == x {
          assert s[0] in s;
        }
      }
      ConsDistinct(s[0], t, key);
    }
  }

  /** Lexicographic order on strings, by code point. */
  predicate StrLe(a: string, b: string) {
    a == [] || (b != [] && (a[0] < b[0] || (a[0] == b[0] && StrLe(a[1..], b[1..]))))
  }

  lemma {:induction false} StrLeTotal(a: string, b: string)
    ensures StrLe(a, b) || StrLe(b, a)
  {
    if a != [] && b != [] && a[0] == b[0] {
      StrLeTotal(a[1..], b[1..]);
    }
  }

  lemma {:induction false} StrLeTransitive(a: string, b: string, c: string)
    requires StrLe(a, b) && StrLe(b, c)
    ensures StrLe(a, c)
  {
    if a != [] && a[0] == b[0] && b[0] == c[0] {
      StrLeTransitive(a[1..], b[1..], c[1..]);
    }
  }
}
