/**
 Sorting rows by a key, for the default orderings the models declare.

 Rows are named by their primary keys; `key` gives the value each is ordered by
 and `le` the order on those values. Rows whose keys tie may come in any order,
 as they may from the database.
 */
module Ordering {

  /** `le` is total and transitive: a valid ordering for a sort. */
  ghost predicate TotalPreorder<K(!new)>(le: (K, K) -> bool) {
    && (forall a, b :: le(a, b) || le(b, a))
    && (forall a, b, c :: le(a, b) && le(b, c) ==> le(a, c))
  }

  predicate AllKeyed<K>(xs: seq<nat>, key: map<nat, K>) {
    forall i :: 0 <= i < |xs| ==> xs[i] in key
  }

  /** Every earlier row's key is `le` every later row's key. */
  predicate SortedBy<K>(xs: seq<nat>, key: map<nat, K>, le: (K, K) -> bool) {
    && AllKeyed(xs, key)
    && forall i, j :: 0 <= i < j < |xs| ==> le(key[xs[i]], key[xs[j]])
  }

  /** A row whose key is `le` every key of a sorted list may go in front of it. */
  lemma PrependSorted<K>(a: nat, ys: seq<nat>, key: map<nat, K>, le: (K, K) -> bool)
    requires a in key && SortedBy(ys, key, le)
    requires forall j :: 0 <= j < |ys| ==> le(key[a], key[ys[j]])
    ensures SortedBy([a] + ys, key, le)
  {
    var r := [a] + ys;
    forall i | 0 <= i < |r| ensures r[i] in key {
      if i > 0 {
        assert r[i] == ys[i - 1];
      }
    }
    forall i, j | 0 <= i < j < |r| ensures le(key[r[i]], key[r[j]]) {
      if i == 0 {
        assert r[j] == ys[j - 1];
      } else {
        assert r[i] == ys[i - 1] && r[j] == ys[j - 1];
      }
    }
  }

  /** Places `x` before the first row it is `le`. */
  function InsertBy<K(!new)>(x: nat, xs: seq<nat>, key: map<nat, K>, le: (K, K) -> bool): (r: seq<nat>)
    requires x in key && SortedBy(xs, key, le) && TotalPreorder(le)
    ensures SortedBy(r, key, le)
    ensures multiset(r) == multiset(xs) + multiset{x}
    decreases |xs|
  {
    if xs == [] then [x]
    else if le(key[x], key[xs[0]]) then
      assert forall j :: 0 <= j < |xs| ==> le(key[x], key[xs[j]]) by {
        forall j | 0 <= j < |xs| ensures le(key[x], key[xs[j]]) {
          if j > 0 {
            assert le(key[xs[0]], key[xs[j]]);
          }
        }
      }
      PrependSorted(x, xs, key, le);
      [x] + xs
    else
      var rest := InsertBy(x, xs[1..], key, le);
      assert xs == [xs[0]] + xs[1..];
      assert le(key[xs[0]], key[x]);
      assert forall j :: 0 <= j < |rest| ==> le(key[xs[0]], key[rest[j]]) by {
        forall j | 0 <= j < |rest| ensures le(key[xs[0]], key[rest[j]]) {
          assert rest[j] in multiset(rest);
          if rest[j] != x {
            assert rest[j] in multiset(xs[1..]);
            var k :| 0 <= k < |xs[1..]| && xs[1..][k] == rest[j];
            assert xs[k + 1] == rest[j];
          }
        }
      }
      PrependSorted(xs[0], rest, key, le);
      [xs[0]] + rest
  }

  /** Lists the rows `ids` once each, ordered by `le` on their keys. */
  method ListBy<K(!new)>(ids: set<nat>, key: map<nat, K>, le: (K, K) -> bool) returns (r: seq<nat>)
    requires ids <= key.Keys && TotalPreorder(le)
    ensures multiset(r) == multiset(ids)
    ensures SortedBy(r, key, le)
  {
    r := [];
    var rest := ids;
    while rest != {}
      invariant rest <= ids
      invariant multiset(r) == multiset(ids - rest)
      invariant SortedBy(r, key, le)
      decreases rest
    {
      var x :| x in rest;
      r := InsertBy(x, r, key, le);
      assert ids - (rest - {x}) == (ids - rest) + {x};
      assert x !in ids - rest;
      rest := rest - {x};
    }
    assert ids - rest == ids;
  }

  /** Lexicographic order by code point. */
  predicate LexLe(a: string, b: string)
    decreases |a|
  {
    if a == [] then true
    else if b == [] then false
    else if a[0] != b[0] then a[0] < b[0]
    else LexLe(a[1..], b[1..])
  }

  lemma {:induction false} LexLeTotal(a: string, b: string)
    ensures LexLe(a, b) || LexLe(b, a)
    decreases |a|
  {
    if a != [] && b != [] && a[0] == b[0] {
      LexLeTotal(a[1..], b[1..]);
    }
  }

  lemma {:induction false} LexLeTransitive(a: string, b: string, c: string)
    requires LexLe(a, b) && LexLe(b, c)
    ensures LexLe(a, c)
    decreases |a|
  {
    if a != [] && b != [] && c != [] && a[0] == b[0] && b[0] == c[0] {
      LexLeTransitive(a[1..], b[1..], c[1..]);
    }
  }

  /** Ascending names form a valid ordering. */
  lemma NameOrderIsTotalPreorder()
    ensures TotalPreorder((a: string, b: string) => LexLe(a, b))
  {
    forall a: string, b: string ensures LexLe(a, b) || LexLe(b, a) {
      LexLeTotal(a, b);
    }
    forall a: string, b: string, c: string | LexLe(a, b) && LexLe(b, c) ensures LexLe(a, c) {
      LexLeTransitive(a, b, c);
    }
  }

  /** Descending instants (newest first) form a valid ordering. */
  lemma NewestFirstIsTotalPreorder()
    ensures TotalPreorder((a: int, b: int) => a >= b)
  {
  }
}
