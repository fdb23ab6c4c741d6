/** Sums of counters, over a list of rows and over the map the rows leave behind when a later
    row of the same key replaces an earlier one. */
module Totals {

  /** An addition with its zero. */
  datatype Sum<!T> = Sum(zero: T, add: (T, T) -> T)

  /** Zero is neutral, and the order and grouping of additions do not matter. */
  ghost predicate LawfulAt<T>(m: Sum<T>, x: T, y: T, z: T) {
    && m.add(x, m.zero) == x
    && m.add(x, y) == m.add(y, x)
    && m.add(m.add(x, y), z) == m.add(x, m.add(y, z))
  }

  ghost predicate Lawful<T(!new)>(m: Sum<T>) {
    forall x, y, z :: LawfulAt(m, x, y, z)
  }

  lemma {:induction false} Swap<T(!new)>(m: Sum<T>, x: T, y: T, z: T)
    requires Lawful(m)
    ensures m.add(x, m.add(y, z)) == m.add(y, m.add(x, z)) == m.add(m.add(x, y), z)
    ensures m.add(x, y) == m.add(y, x) && m.add(x, m.zero) == x
  {
    assert LawfulAt(m, x, y, z) && LawfulAt(m, y, x, z);
  }

  function Total<K, T>(rows: seq<(K, T)>, m: Sum<T>): T {
    if rows == [] then m.zero else m.add(rows[0].1, Total(rows[1..], m))
  }

  /** The object built by assigning every row in order: the last row of a key stays. */
  function LastOf<K(==), T>(rows: seq<(K, T)>): map<K, T> {
    if rows == [] then map[]
    else
      var o := LastOf(rows[1..]);
      if rows[0].0 in o then o else o[rows[0].0 := rows[0].1]
  }

  lemma {:induction false} LastOfKeys<K, T>(rows: seq<(K, T)>)
    ensures LastOf(rows).Keys == set i | 0 <= i < |rows| :: rows[i].0
  {
    if rows != [] {
      var rest := rows[1..];
      LastOfKeys(rest);
      assert rows == [rows[0]] + rest;
      assert (set i | 0 <= i < |rows| :: rows[i].0) == {rows[0].0} + (set i | 0 <= i < |rest| :: rest[i].0);
    }
  }

  /** A row that no later row of its key follows is in the object. */
  lemma {:induction false} LastRowStays<K, T>(rows: seq<(K, T)>, i: nat)
    requires i < |rows| && forall j :: i < j < |rows| ==> rows[j].0 != rows[i].0
    ensures rows[i].0 in LastOf(rows) && LastOf(rows)[rows[i].0] == rows[i].1
  {
    var rest := rows[1..];
    assert forall j :: 0 <= j < |rest| ==> rest[j] == rows[j + 1];
    if i > 0 {
      LastRowStays(rest, i - 1);
    } else {
      LastOfKeys(rest);
    }
  }

  /** The rows whose key occurs again later. */
  function Replaced<K(==), T>(rows: seq<(K, T)>): seq<(K, T)> {
    if rows == [] then []
    else (if rows[0].0 in LastOf(rows[1..]) then [rows[0]] else []) + Replaced(rows[1..])
  }

  lemma {:induction false} ReplacedAreRows<K, T>(rows: seq<(K, T)>)
    ensures forall row :: row in Replaced(rows) ==> row in rows
  {
    if rows != [] {
      ReplacedAreRows(rows[1..]);
    }
  }

  ghost predicate Distinct<K, T>(rows: seq<(K, T)>) {
    forall i, j :: 0 <= i < j < |rows| ==> rows[i].0 != rows[j].0
  }

  ghost function SumOver<K, T>(o: map<K, T>, m: Sum<T>): T {
    if o == map[] then m.zero
    else
      var k :| k in o;
      m.add(o[k], SumOver(o - {k}, m))
  }

  /** The order in which a map is summed does not matter. */
  lemma {:induction false} SumOverTake<K, T(!new)>(o: map<K, T>, k: K, m: Sum<T>)
    requires Lawful(m) && k in o
    ensures SumOver(o, m) == m.add(o[k], SumOver(o - {k}, m))
    decreases |o|
  {
    var j :| j in o && SumOver(o, m) == m.add(o[j], SumOver(o - {j}, m));
    if j != k {
      SumOverTake(o - {j}, k, m);
      SumOverTake(o - {k}, j, m);
      assert o - {j} - {k} == o - {k} - {j};
      var r := SumOver(o - {j} - {k}, m);
      Swap(m, o[j], o[k], r);
    }
  }

  lemma {:induction false} SumOverPut<K, T(!new)>(o: map<K, T>, k: K, v: T, m: Sum<T>)
    requires Lawful(m) && k !in o
    ensures SumOver(o[k := v], m) == m.add(v, SumOver(o, m))
  {
    SumOverTake(o[k := v], k, m);
    assert o[k := v] - {k} == o;
  }

  /** Conservation: the sum over all rows is the sum over the final object plus the rows that
      were replaced on the way. */
  lemma {:induction false} TotalIsConserved<K, T(!new)>(rows: seq<(K, T)>, m: Sum<T>)
    requires Lawful(m)
    ensures Total(rows, m) == m.add(SumOver(LastOf(rows), m), Total(Replaced(rows), m))
  {
    if rows == [] {
      Swap(m, m.zero, m.zero, m.zero);
    } else {
      var (k, v) := rows[0];
      var rest := rows[1..];
      TotalIsConserved(rest, m);
      var s, r := SumOver(LastOf(rest), m), Total(Replaced(rest), m);
      if k in LastOf(rest) {
        assert Replaced(rows)[1..] == Replaced(rest);
        Swap(m, v, s, r);
      } else {
        assert Replaced(rows) == Replaced(rest);
        SumOverPut(LastOf(rest), k, v, m);
        Swap(m, v, s, r);
      }
    }
  }

  lemma {:induction false} DistinctReplacesNothing<K, T>(rows: seq<(K, T)>)
    ensures Distinct(rows) <==> Replaced(rows) == []
  {
    if rows != [] {
      var rest := rows[1..];
      DistinctReplacesNothing(rest);
      LastOfKeys(rest);
      assert forall i :: 0 <= i < |rest| ==> rest[i] == rows[i + 1];
      assert rows == [rows[0]] + rest;
      assert Distinct(rows) <==> Distinct(rest) && rows[0].0 !in LastOf(rest);
    }
  }

  lemma {:induction false} TotalAppend<K, T(!new)>(a: seq<(K, T)>, b: seq<(K, T)>, m: Sum<T>)
    requires Lawful(m)
    ensures Total(a + b, m) == m.add(Total(a, m), Total(b, m))
  {
    if a == [] {
      assert a + b == b;
      Swap(m, Total(b, m), m.zero, m.zero);
    } else {
      assert (a + b)[1..] == a[1..] + b;
      TotalAppend(a[1..], b, m);
      Swap(m, a[0].1, Total(a[1..], m), Total(b, m));
    }
  }

  // What the loops over rows need: appending one row.

  lemma {:induction false} TotalSnoc<K, T(!new)>(rows: seq<(K, T)>, row: (K, T), m: Sum<T>)
    requires Lawful(m)
    ensures Total(rows + [row], m) == m.add(Total(rows, m), row.1)
  {
    if rows == [] {
      assert (rows + [row])[1..] == [];
      Swap(m, row.1, m.zero, m.zero);
    } else {
      assert (rows + [row])[1..] == rows[1..] + [row];
      TotalSnoc(rows[1..], row, m);
      Swap(m, rows[0].1, Total(rows[1..], m), row.1);
    }
  }

  lemma {:induction false} LastOfSnoc<K, T>(rows: seq<(K, T)>, row: (K, T))
    ensures LastOf(rows + [row]) == LastOf(rows)[row.0 := row.1]
  {
    if rows == [] {
      assert (rows + [row])[1..] == [];
    } else {
      assert (rows + [row])[1..] == rows[1..] + [row];
      LastOfSnoc(rows[1..], row);
    }
  }

  /** With distinct keys the object holds exactly the rows. */
  lemma {:induction false} LastOfDistinct<K, T>(rows: seq<(K, T)>, i: nat)
    requires Distinct(rows) && i < |rows|
    ensures rows[i].0 in LastOf(rows) && LastOf(rows)[rows[i].0] == rows[i].1
  {
    var rest := rows[1..];
    assert forall j :: 0 <= j < |rest| ==> rest[j] == rows[j + 1];
    assert Distinct(rest);
    if i > 0 {
      LastOfDistinct(rest, i - 1);
    } else {
      LastOfKeys(rest);
      assert rows[0].0 !in LastOf(rest);
    }
  }
}
