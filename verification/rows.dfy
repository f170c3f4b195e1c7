/**
  Enumeration of a table's primary keys.

  A SQL query without ORDER BY returns its rows in an order the database is free
  to choose. The model fixes that choice once, here: rows are visited in
  ascending primary-key order. Both "list every row" (`.all()`) and "the first
  matching row" (`.first()`) are defined on top of this one enumeration.
 */
module Rows {

  /** Every key at position i is strictly smaller than every key after it. */
  predicate StrictlyIncreasing(ks: seq<int>) {
    forall i, j :: 0 <= i < j < |ks| ==> ks[i] < ks[j]
  }

  ghost predicate IsLeast(m: int, s: set<int>) {
    m in s && forall x :: x in s ==> m <= x
  }

  /** A set that is not empty has a member. */
  lemma HasMember(s: set<int>)
    requires s != {}
    ensures exists x :: x in s
  {
    if forall x :: x !in s {
      assert false;
    }
  }

  /** A non-empty finite set of integers has a least element. */
  lemma {:induction false} LeastExists(s: set<int>)
    requires s != {}
    ensures exists m :: IsLeast(m, s)
    decreases |s|
  {
    HasMember(s);
    var x :| x in s;
    var rest := s - {x};
    if forall y :: y in s ==> y == x {
      assert IsLeast(x, s);
    } else {
      var y :| y in s && y != x;
      assert y in rest;
      LeastExists(rest);
      var m :| IsLeast(m, rest);
      forall z | z in s
        ensures z == x || z in rest
      {
      }
      if x < m {
        assert IsLeast(x, s);
      } else {
        assert IsLeast(m, s);
      }
    }
  }

  /** The smallest key of a non-empty key set. */
  function Least(s: set<int>): (m: int)
    requires s != {}
    ensures m in s
    ensures forall x :: x in s ==> m <= x
  {
    LeastExists(s);
    var m :| m in s && forall x :: x in s ==> m <= x;
    m
  }

  /** The keys of `s`, each exactly once, in ascending order. */
  function SortedKeys(s: set<int>): (ks: seq<int>)
    ensures |ks| == |s|
    ensures forall k :: k in ks <==> k in s
    ensures StrictlyIncreasing(ks)
    decreases |s|
  {
    if s == {} then []
    else
      var m := Least(s);
      [m] + SortedKeys(s - {m})
  }

  /** `rows` lists every row of `m` exactly once, in ascending key order. */
  ghost predicate IsTableOf<T>(rows: seq<(int, T)>, m: map<int, T>) {
    && |rows| == |m|
    && (forall i :: 0 <= i < |rows| ==> rows[i].0 in m && m[rows[i].0] == rows[i].1)
    && (forall k :: k in m ==> exists i :: 0 <= i < |rows| && rows[i] == (k, m[k]))
    && (forall i, j :: 0 <= i < j < |rows| ==> rows[i].0 < rows[j].0)
  }

  /** The rows stored under the keys `ks`, in the order of `ks`. */
  function RowsAt<T>(ks: seq<int>, m: map<int, T>): (rows: seq<(int, T)>)
    requires forall i :: 0 <= i < |ks| ==> ks[i] in m
    ensures |rows| == |ks|
    ensures forall i :: 0 <= i < |ks| ==> rows[i] == (ks[i], m[ks[i]])
  {
    if ks == [] then [] else [(ks[0], m[ks[0]])] + RowsAt(ks[1..], m)
  }

  /** The rows at the sorted keys of `m`: each row of `m` once, in key order. */
  lemma RowsAtSortedKeys<T>(m: map<int, T>, ks: seq<int>)
    requires ks == SortedKeys(m.Keys)
    ensures forall i :: 0 <= i < |ks| ==> ks[i] in m
    ensures IsTableOf(RowsAt(ks, m), m)
  {
    forall i | 0 <= i < |ks|
      ensures ks[i] in m
    {
      assert ks[i] in ks;
    }
    assert |m.Keys| == |m|;
    var rows := RowsAt(ks, m);
    forall k | k in m
      ensures exists i :: 0 <= i < |rows| && rows[i] == (k, m[k])
    {
      assert k in ks;
      var i :| 0 <= i < |ks| && ks[i] == k;
      assert rows[i] == (k, m[k]);
    }
    assert StrictlyIncreasing(ks);
  }

  /** All rows of a table, keyed by primary key, in ascending key order. */
  function Table<T>(m: map<int, T>): (rows: seq<(int, T)>)
    ensures IsTableOf(rows, m)
  {
    var ks := SortedKeys(m.Keys);
    RowsAtSortedKeys(m, ks);
    RowsAt(ks, m)
  }
}
