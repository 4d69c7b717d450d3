/**
 * Row-table operations the handlers perform through SQL: a `DELETE ... WHERE` keeps the rows
 * that fail the condition, an `INSERT` into a table with a unique index fails on a duplicate
 * key, and a run of single-row inserts without a transaction keeps the rows inserted before
 * the failing one.
 */
module Seqs {

  /** The rows of `s` that satisfy `p`, in table order. */
  function Filter<T(!new)>(s: seq<T>, p: T -> bool): (r: seq<T>)
    ensures |r| <= |s|
    ensures forall x :: x in r <==> x in s && p(x)
  {
    if s == [] then []
    else
      var r := (if p(s[0]) then [s[0]] else []) + Filter(s[1..], p);
      assert forall x :: x in s <==> x == s[0] || x in s[1..];
      r
  }

  lemma {:induction false} FilterAppend<T(!new)>(a: seq<T>, b: seq<T>, p: T -> bool)
    ensures Filter(a + b, p) == Filter(a, p) + Filter(b, p)
  {
    if a == [] {
      assert a + b == b;
    } else {
      assert (a + b)[0] == a[0] && (a + b)[1..] == a[1..] + b;
      FilterAppend(a[1..], b, p);
    }
  }

  /** A filter keeps everything when every row passes, and nothing when none does. */
  lemma {:induction false} FilterAll<T(!new)>(s: seq<T>, p: T -> bool)
    requires forall x :: x in s ==> p(x)
    ensures Filter(s, p) == s
  {
    if s != [] {
      FilterAll(s[1..], p);
    }
  }

  lemma {:induction false} FilterNone<T(!new)>(s: seq<T>, p: T -> bool)
    requires forall x :: x in s ==> !p(x)
    ensures Filter(s, p) == []
  {
    if s != [] {
      FilterNone(s[1..], p);
    }
  }

  /** All rows of `s` have different keys: what a unique index guarantees of its table. */
  ghost predicate KeysDistinct<T, K>(s: seq<T>, key: T -> K) {
    forall i, j :: 0 <= i < j < |s| ==> key(s[i]) != key(s[j])
  }

  lemma ConsDistinct<T, K>(x: T, t: seq<T>, key: T -> K)
    ensures KeysDistinct([x] + t, key) <==> (forall y :: y in t ==> key(y) != key(x)) && KeysDistinct(t, key)
  {
    var s := [x] + t;
    if (forall y :: y in t ==> key(y) != key(x)) && KeysDistinct(t, key) {
      forall i, j | 0 <= i < j < |s| ensures key(s[i]) != key(s[j]) {
        assert s[j] == t[j - 1];
        if i > 0 {
          assert s[i] == t[i - 1];
        } else {
          assert s[j] in t;
        }
      }
    }
    if KeysDistinct(s, key) {
      forall y | y in t ensures key(y) != key(x) {
        var j :| 0 <= j < |t| && t[j] == y;
        assert s[j + 1] == y && s[0] == x;
      }
      forall i, j | 0 <= i < j < |t| ensures key(t[i]) != key(t[j]) {
        assert t[i] == s[i + 1] && t[j] == s[j + 1];
      }
    }
  }

  /** Deleting rows never breaks a unique index. */
  lemma {:induction false} FilterDistinct<T(!new), K>(s: seq<T>, p: T -> bool, key: T -> K)
    requires KeysDistinct(s, key)
    ensures KeysDistinct(Filter(s, p), key)
  {
    if s != [] {
      assert s == [s[0]] + s[1..];
      ConsDistinct(s[0], s[1..], key);
      FilterDistinct(s[1..], p, key);
      if p(s[0]) {
        ConsDistinct(s[0], Filter(s[1..], p), key);
      }
    }
  }

  /** Whether some row of `table` has key `k`. */
  predicate HasKey<T, K(==)>(table: seq<T>, key: T -> K, k: K) {
    exists i :: 0 <= i < |table| && key(table[i]) == k
  }

  /**
   * Inserts `rows` one at a time into a table with a unique index on `key`, stopping at the
   * first row whose key is taken. Yields the new table and how many rows went in; the rows
   * before the failing one stay inserted.
   */
  function InsertAll<T, K(==)>(table: seq<T>, rows: seq<T>, key: T -> K): (r: (seq<T>, nat))
    ensures r.1 <= |rows| && r.0 == table + rows[..r.1]
    ensures KeysDistinct(table, key) ==> KeysDistinct(r.0, key)
    ensures KeysDistinct(table, key) ==> (r.1 == |rows| <==> KeysDistinct(table + rows, key))
    decreases |rows|
  {
    if rows == [] then
      assert table + rows == table;
      (table, 0)
    else if HasKey(table, key, key(rows[0])) then
      assert !KeysDistinct(table + rows, key) by {
        var i :| 0 <= i < |table| && key(table[i]) == key(rows[0]);
        assert (table + rows)[i] == table[i] && (table + rows)[|table|] == rows[0];
      }
      (table, 0)
    else
      var t := table + [rows[0]];
      var r := InsertAll(t, rows[1..], key);
      assert t + rows[1..] == table + rows;
      assert t + rows[1..][..r.1] == table + rows[..r.1 + 1];
      assert KeysDistinct(table, key) ==> KeysDistinct(t, key) by {
        if KeysDistinct(table, key) {
          forall i, j | 0 <= i < j < |t| ensures key(t[i]) != key(t[j]) {
            if j == |table| {
              assert t[i] == table[i];
            } else {
              assert t[i] == table[i] && t[j] == table[j];
            }
          }
        }
      }
      assert KeysDistinct(table + rows, key) ==> KeysDistinct(t, key) by {
        if KeysDistinct(table + rows, key) {
          forall i, j | 0 <= i < j < |t| ensures key(t[i]) != key(t[j]) {
            assert t[i] == (table + rows)[i] && t[j] == (table + rows)[j];
          }
        }
      }
      (r.0, r.1 + 1)
  }

  /** Rows that all go in can be inserted first, and the insertion goes on from there. */
  lemma {:induction false} InsertAllAppend<T, K>(table: seq<T>, pre: seq<T>, rest: seq<T>, key: T -> K)
    requires KeysDistinct(table + pre, key)
    ensures var r := InsertAll(table + pre, rest, key);
      InsertAll(table, pre + rest, key) == (r.0, |pre| + r.1)
    decreases |pre|
  {
    if pre == [] {
      assert table + pre == table && pre + rest == rest;
    } else {
      var t := table + [pre[0]];
      assert (pre + rest)[0] == pre[0] && (pre + rest)[1..] == pre[1..] + rest;
      assert t + pre[1..] == table + pre;
      assert !HasKey(table, key, key(pre[0])) by {
        forall i | 0 <= i < |table| ensures key(table[i]) != key(pre[0]) {
          assert (table + pre)[i] == table[i] && (table + pre)[|table|] == pre[0];
        }
      }
      InsertAllAppend(t, pre[1..], rest, key);
    }
  }

  /** One more row keeps the keys distinct when its key is not taken. */
  lemma AppendDistinct<T, K>(table: seq<T>, x: T, key: T -> K)
    requires KeysDistinct(table, key) && !HasKey(table, key, key(x))
    ensures KeysDistinct(table + [x], key)
  {
    var t := table + [x];
    forall i, j | 0 <= i < j < |t| ensures key(t[i]) != key(t[j]) {
      assert t[i] == table[i];
      if j < |table| {
        assert t[j] == table[j];
      }
    }
  }
}
