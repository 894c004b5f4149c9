/**
 * Ordering by a key, as a database applies `order_by(...)`: each row is
 * given a key (a short sequence of integers, one per ordering column, a
 * descending column negated) and rows come out in lexicographic key order.
 * Rows whose keys tie come out in some order the database does not
 * promise; the model fixes one.
 */
module Sorting {

  /** Lexicographic order on integer keys. */
  predicate KeyLeq(a: seq<int>, b: seq<int>) {
    if a == [] then true
    else if b == [] then false
    else a[0] < b[0] || (a[0] == b[0] && KeyLeq(a[1..], b[1..]))
  }

  lemma {:induction false} KeyLeqTotal(a: seq<int>, b: seq<int>)
    ensures KeyLeq(a, b) || KeyLeq(b, a)
  {
    if a != [] && b != [] && a[0] == b[0] {
      KeyLeqTotal(a[1..], b[1..]);
    }
  }

  lemma {:induction false} KeyLeqTransitive(a: seq<int>, b: seq<int>, c: seq<int>)
    requires KeyLeq(a, b) && KeyLeq(b, c)
    ensures KeyLeq(a, c)
  {
    if a != [] && b != [] && c != [] && a[0] == b[0] && b[0] == c[0] {
      KeyLeqTransitive(a[1..], b[1..], c[1..]);
    }
  }

  /** Every row's key is at most every later row's key. */
  predicate SortedBy<T>(s: seq<T>, key: T -> seq<int>) {
    forall i, j :: 0 <= i < j < |s| ==> KeyLeq(key(s[i]), key(s[j]))
  }

  /** `x` placed in front of the first row of `s` whose key is not below its own. */
  function InsertByKey<T>(x: T, s: seq<T>, key: T -> seq<int>): (r: seq<T>)
    ensures |r| == |s| + 1
  {
    if s == [] then [x]
    else if KeyLeq(key(x), key(s[0])) then [x] + s
    else [s[0]] + InsertByKey(x, s[1..], key)
  }

  /** Inserting adds the one row and loses none. */
  lemma {:induction false} InsertByKeyPermutes<T>(x: T, s: seq<T>, key: T -> seq<int>)
    ensures multiset(InsertByKey(x, s, key)) == multiset(s) + multiset{x}
  {
    if s != [] && !KeyLeq(key(x), key(s[0])) {
      InsertByKeyPermutes(x, s[1..], key);
      assert s == [s[0]] + s[1..];
    }
  }

  /** The rows of `s` in key order. */
  function SortByKey<T>(s: seq<T>, key: T -> seq<int>): (r: seq<T>)
    ensures |r| == |s|
  {
    if s == [] then [] else InsertByKey(s[0], SortByKey(s[1..], key), key)
  }

  /** Ordering neither adds nor loses a row: the result is a permutation of `s`. */
  lemma {:induction false} SortByKeyPermutes<T>(s: seq<T>, key: T -> seq<int>)
    ensures multiset(SortByKey(s, key)) == multiset(s)
  {
    if s != [] {
      SortByKeyPermutes(s[1..], key);
      InsertByKeyPermutes(s[0], SortByKey(s[1..], key), key);
      assert s == [s[0]] + s[1..];
    }
  }

  lemma SortedCons<T>(x: T, s: seq<T>, key: T -> seq<int>)
    requires SortedBy(s, key)
    requires forall y :: y in s ==> KeyLeq(key(x), key(y))
    ensures SortedBy([x] + s, key)
  {
    var r := [x] + s;
    forall i, j | 0 <= i < j < |r| ensures KeyLeq(key(r[i]), key(r[j])) {
      if i == 0 {
        assert r[j] == s[j - 1] && s[j - 1] in s;
      } else {
        assert r[i] == s[i - 1] && r[j] == s[j - 1];
      }
    }
  }

  lemma {:induction false} InsertByKeySorted<T>(x: T, s: seq<T>, key: T -> seq<int>)
    requires SortedBy(s, key)
    ensures SortedBy(InsertByKey(x, s, key), key)
  {
    if s != [] {
      if KeyLeq(key(x), key(s[0])) {
        forall y | y in s ensures KeyLeq(key(x), key(y)) {
          var j :| 0 <= j < |s| && s[j] == y;
          if j > 0 {
            KeyLeqTransitive(key(x), key(s[0]), key(y));
          }
        }
        SortedCons(x, s, key);
      } else {
        KeyLeqTotal(key(x), key(s[0]));
        var t := s[1..];
        assert SortedBy(t, key) by {
          forall i, j | 0 <= i < j < |t| ensures KeyLeq(key(t[i]), key(t[j])) {
            assert t[i] == s[i + 1] && t[j] == s[j + 1];
          }
        }
        InsertByKeySorted(x, t, key);
        var rest := InsertByKey(x, t, key);
        InsertByKeyPermutes(x, t, key);
        forall y | y in rest ensures KeyLeq(key(s[0]), key(y)) {
          assert y in multiset(rest);
          assert y == x || y in multiset(t);
          if y != x {
            var j :| 0 <= j < |t| && t[j] == y;
            assert s[j + 1] == y;
          }
        }
        SortedCons(s[0], rest, key);
      }
    }
  }

  /** `SortByKey` puts the rows in key order. */
  lemma {:induction false} SortByKeySorted<T>(s: seq<T>, key: T -> seq<int>)
    ensures SortedBy(SortByKey(s, key), key)
  {
    if s != [] {
      SortByKeySorted(s[1..], key);
      InsertByKeySorted(s[0], SortByKey(s[1..], key), key);
    }
  }

  /** A row belongs to the ordered rows exactly when it belongs to the rows. */
  lemma SortByKeyMembers<T>(s: seq<T>, key: T -> seq<int>)
    ensures forall x :: x in SortByKey(s, key) <==> x in s
  {
    var r := SortByKey(s, key);
    SortByKeyPermutes(s, key);
    forall x ensures x in r <==> x in s {
      assert x in r <==> x in multiset(r);
      assert x in s <==> x in multiset(s);
    }
  }

  /** The first `n` rows, or all of them when there are fewer: `queryset[:n]`. */
  function Take<T>(s: seq<T>, n: nat): (r: seq<T>)
    ensures |r| == if |s| < n then |s| else n
    ensures r <= s
  {
    if |s| <= n then s else s[..n]
  }

  lemma TakeSorted<T>(s: seq<T>, n: nat, key: T -> seq<int>)
    requires SortedBy(s, key)
    ensures SortedBy(Take(s, n), key)
  {
    var r := Take(s, n);
    forall i, j | 0 <= i < j < |r| ensures KeyLeq(key(r[i]), key(r[j])) {
      assert r[i] == s[i] && r[j] == s[j];
    }
  }
}
