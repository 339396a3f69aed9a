/**
 * A database table as the sequence of its rows, and the row operations the controllers'
 * SQL statements perform on it. A column is a named function from a row to its value, so
 * that the same filter is the same term wherever it is written.
 */
module Tables {

  /** A SERIAL primary key. Stored rows have positive keys; 0 is what an absent id becomes. */
  type Id = nat

  /** A nullable column or an optional request field. */
  datatype Option<T> = None | Some(value: T)

  /** `SELECT * WHERE col = v`, in table order. */
  function Where<T(!new), K(==)>(rows: seq<T>, col: T -> K, v: K): (r: seq<T>)
    ensures |r| <= |rows|
    ensures forall x :: x in r <==> x in rows && col(x) == v
  {
    if rows == [] then []
    else
      assert rows == [rows[0]] + rows[1..];
      (if col(rows[0]) == v then [rows[0]] else []) + Where(rows[1..], col, v)
  }

  /** `DELETE WHERE col = v`: the rows that remain. */
  function WhereNot<T(!new), K(==)>(rows: seq<T>, col: T -> K, v: K): (r: seq<T>)
    ensures |r| <= |rows|
    ensures forall x :: x in r <==> x in rows && col(x) != v
  {
    if rows == [] then []
    else
      assert rows == [rows[0]] + rows[1..];
      (if col(rows[0]) != v then [rows[0]] else []) + WhereNot(rows[1..], col, v)
  }

  /** `SELECT 1 WHERE col = v` returns a row. */
  predicate Has<T, K(==)>(rows: seq<T>, col: T -> K, v: K) {
    exists i :: 0 <= i < |rows| && col(rows[i]) == v
  }

  /** `SELECT * WHERE col = v` and take `rows[0]`: the first matching row, if any. */
  function First<T(!new), K(==)>(rows: seq<T>, col: T -> K, v: K): (r: Option<T>)
    ensures r.Some? <==> Has(rows, col, v)
    ensures r.Some? ==> r.value in rows && col(r.value) == v
  {
    if rows == [] then None
    else if col(rows[0]) == v then Some(rows[0])
    else
      var r := First(rows[1..], col, v);
      assert r.Some? ==> r.value in rows;
      assert Has(rows[1..], col, v) ==> Has(rows, col, v) by {
        if i :| 0 <= i < |rows[1..]| && col(rows[1..][i]) == v {
          assert col(rows[i + 1]) == v;
        }
      }
      assert Has(rows, col, v) ==> Has(rows[1..], col, v) by {
        if i :| 0 <= i < |rows| && col(rows[i]) == v {
          assert i > 0 && col(rows[1..][i - 1]) == v;
        }
      }
      r
  }

  /** With distinct keys, the first row with key `id` is the only one. */
  lemma FirstByKey<T(!new)>(rows: seq<T>, key: T -> Id, id: Id, x: T)
    requires KeysDistinct(rows, key) && x in rows && key(x) == id
    ensures First(rows, key, id) == Some(x)
  {
    var f := First(rows, key, id);
    var i :| 0 <= i < |rows| && rows[i] == f.value;
    var j :| 0 <= j < |rows| && rows[j] == x;
    assert i == j;
  }

  /** `UPDATE SET <row> WHERE key = id`: every row with that key is replaced by `row`. */
  function SetWhere<T>(rows: seq<T>, key: T -> Id, id: Id, row: T): (r: seq<T>)
    ensures |r| == |rows|
  {
    seq(|rows|, i requires 0 <= i < |rows| => if key(rows[i]) == id then row else rows[i])
  }

  /** `UPDATE SET ... WHERE p`: every row satisfying `p` becomes `f` of itself, in place. */
  function UpdateIf<T>(rows: seq<T>, p: T -> bool, f: T -> T): (r: seq<T>)
    ensures |r| == |rows|
  {
    seq(|rows|, i requires 0 <= i < |rows| => if p(rows[i]) then f(rows[i]) else rows[i])
  }

  lemma {:induction false} WhereAppend<T(!new), K>(a: seq<T>, b: seq<T>, col: T -> K, v: K)
    ensures Where(a + b, col, v) == Where(a, col, v) + Where(b, col, v)
  {
    if a == [] {
      assert a + b == b;
    } else {
      assert (a + b)[1..] == a[1..] + b;
      WhereAppend(a[1..], b, col, v);
    }
  }

  lemma {:induction false} WhereNotAppend<T(!new), K>(a: seq<T>, b: seq<T>, col: T -> K, v: K)
    ensures WhereNot(a + b, col, v) == WhereNot(a, col, v) + WhereNot(b, col, v)
  {
    if a == [] {
      assert a + b == b;
    } else {
      assert (a + b)[1..] == a[1..] + b;
      WhereNotAppend(a[1..], b, col, v);
    }
  }

  /** A filter that no row passes is empty. */
  lemma WhereEmpty<T(!new), K>(rows: seq<T>, col: T -> K, v: K)
    requires forall x :: x in rows ==> col(x) != v
    ensures Where(rows, col, v) == []
  {
  }

  /** A DELETE that matches no row leaves the table as it was. */
  lemma {:induction false} WhereNotKeepsAll<T(!new), K>(rows: seq<T>, col: T -> K, v: K)
    requires !Has(rows, col, v)
    ensures WhereNot(rows, col, v) == rows
  {
    if rows != [] {
      var tail := rows[1..];
      assert !Has(tail, col, v) by {
        forall i | 0 <= i < |tail| ensures col(tail[i]) != v {
          assert tail[i] == rows[i + 1];
        }
      }
      WhereNotKeepsAll(tail, col, v);
      assert col(rows[0]) != v;
      assert WhereNot(rows, col, v) == [rows[0]] + WhereNot(tail, col, v);
      assert rows == [rows[0]] + tail;
    }
  }

  /** A filter that every row passes keeps the whole table, in order. */
  lemma {:induction false} WhereAll<T(!new), K>(rows: seq<T>, col: T -> K, v: K)
    requires forall x :: x in rows ==> col(x) == v
    ensures Where(rows, col, v) == rows
  {
    if rows != [] {
      assert rows[0] in rows;
      assert forall x :: x in rows[1..] ==> x in rows;
      WhereAll(rows[1..], col, v);
      assert rows == [rows[0]] + rows[1..];
    }
  }

  /** Selecting the rows with col = w after deleting those with col = v, v != w, sees the same rows. */
  lemma {:induction false} WhereAfterWhereNot<T(!new), K>(rows: seq<T>, col: T -> K, v: K, w: K)
    requires v != w
    ensures Where(WhereNot(rows, col, v), col, w) == Where(rows, col, w)
  {
    if rows != [] {
      WhereAfterWhereNot(rows[1..], col, v, w);
      var head := if col(rows[0]) != v then [rows[0]] else [];
      WhereAppend(head, WhereNot(rows[1..], col, v), col, w);
    }
  }

  /** Every row's key is positive and below the next value of the key sequence. */
  ghost predicate KeysBelow<T>(rows: seq<T>, key: T -> Id, next: Id) {
    forall i :: 0 <= i < |rows| ==> 0 < key(rows[i]) < next
  }

  /** No two rows share a key. */
  ghost predicate KeysDistinct<T>(rows: seq<T>, key: T -> Id) {
    forall i, j :: 0 <= i < j < |rows| ==> key(rows[i]) != key(rows[j])
  }

  /** The primary-key invariant of a table with a SERIAL key. */
  ghost predicate WellKeyed<T>(rows: seq<T>, key: T -> Id, next: Id) {
    0 < next && KeysBelow(rows, key, next) && KeysDistinct(rows, key)
  }

  /** An INSERT that takes the next key keeps the table well keyed. */
  lemma InsertKeepsKeys<T>(rows: seq<T>, key: T -> Id, next: Id, row: T)
    requires WellKeyed(rows, key, next) && key(row) == next
    ensures WellKeyed(rows + [row], key, next + 1)
  {
  }

  /** A DELETE keeps the table well keyed. */
  lemma DeleteKeepsKeys<T(!new), K>(rows: seq<T>, key: T -> Id, next: Id, col: T -> K, v: K)
    requires WellKeyed(rows, key, next)
    ensures WellKeyed(WhereNot(rows, col, v), key, next)
  {
    var r := WhereNot(rows, col, v);
    forall i | 0 <= i < |r| ensures 0 < key(r[i]) < next {
      assert r[i] in rows;
    }
    DeleteKeepsDistinct(rows, key, col, v);
  }

  lemma {:induction false} DeleteKeepsDistinct<T(!new), K>(rows: seq<T>, key: T -> Id, col: T -> K, v: K)
    requires KeysDistinct(rows, key)
    ensures KeysDistinct(WhereNot(rows, col, v), key)
  {
    if rows != [] {
      var tail := rows[1..];
      DistinctTail(rows, key);
      DeleteKeepsDistinct(tail, key, col, v);
      var rest := WhereNot(tail, col, v);
      if col(rows[0]) != v {
        forall x | x in rest ensures key(x) != key(rows[0]) {
          HeadKeyUnique(rows, key, x);
        }
        DistinctCons(rows[0], rest, key);
      }
    }
  }

  lemma DistinctTail<T>(rows: seq<T>, key: T -> Id)
    requires rows != [] && KeysDistinct(rows, key)
    ensures KeysDistinct(rows[1..], key)
  {
    var tail := rows[1..];
    forall i, j | 0 <= i < j < |tail| ensures key(tail[i]) != key(tail[j]) {
      assert tail[i] == rows[i + 1] && tail[j] == rows[j + 1];
    }
  }

  lemma HeadKeyUnique<T>(rows: seq<T>, key: T -> Id, x: T)
    requires rows != [] && KeysDistinct(rows, key) && x in rows[1..]
    ensures key(x) != key(rows[0])
  {
    var k :| 0 <= k < |rows[1..]| && rows[1..][k] == x;
    assert rows[k + 1] == x;
  }

  lemma DistinctCons<T>(h: T, rest: seq<T>, key: T -> Id)
    requires KeysDistinct(rest, key)
    requires forall x :: x in rest ==> key(x) != key(h)
    ensures KeysDistinct([h] + rest, key)
  {
    var r := [h] + rest;
    forall i, j | 0 <= i < j < |r| ensures key(r[i]) != key(r[j]) {
      assert r[j] == rest[j - 1];
      if i > 0 {
        assert r[i] == rest[i - 1];
      } else {
        assert rest[j - 1] in rest;
      }
    }
  }

  /** An UPDATE that leaves the key column alone keeps the table well keyed. */
  lemma UpdateIfKeepsKeys<T>(rows: seq<T>, key: T -> Id, next: Id, p: T -> bool, f: T -> T)
    requires WellKeyed(rows, key, next)
    requires forall x :: key(f(x)) == key(x)
    ensures WellKeyed(UpdateIf(rows, p, f), key, next)
  {
    var r := UpdateIf(rows, p, f);
    forall i | 0 <= i < |r| ensures key(r[i]) == key(rows[i]) { }
  }

  /** An UPDATE that keeps the row's key keeps the table well keyed. */
  lemma UpdateKeepsKeys<T>(rows: seq<T>, key: T -> Id, next: Id, id: Id, row: T)
    requires WellKeyed(rows, key, next) && key(row) == id
    requires exists i :: 0 <= i < |rows| && key(rows[i]) == id
    ensures WellKeyed(SetWhere(rows, key, id, row), key, next)
  {
    var r := SetWhere(rows, key, id, row);
    forall i | 0 <= i < |r| ensures key(r[i]) == key(rows[i]) { }
  }

  /** Every two rows, taken in table order, satisfy `ok`: a uniqueness rule over a table. */
  ghost predicate Pairwise<T>(rows: seq<T>, ok: (T, T) -> bool) {
    forall i, j :: 0 <= i < j < |rows| ==> ok(rows[i], rows[j])
  }

  /** A DELETE keeps a uniqueness rule. */
  lemma {:induction false} DeleteKeepsPairwise<T(!new), K>(rows: seq<T>, ok: (T, T) -> bool, col: T -> K, v: K)
    requires Pairwise(rows, ok)
    ensures Pairwise(WhereNot(rows, col, v), ok)
  {
    if rows != [] {
      var tail := rows[1..];
      assert Pairwise(tail, ok) by {
        forall i, j | 0 <= i < j < |tail| ensures ok(tail[i], tail[j]) {
          assert tail[i] == rows[i + 1] && tail[j] == rows[j + 1];
        }
      }
      DeleteKeepsPairwise(tail, ok, col, v);
      var rest := WhereNot(tail, col, v);
      if col(rows[0]) != v {
        forall y | y in rest ensures ok(rows[0], y) {
          var k :| 0 <= k < |tail| && tail[k] == y;
          assert rows[k + 1] == y;
        }
        PairwiseAppend([rows[0]], rest, ok);
      }
    }
  }

  /** Two tables that each keep a uniqueness rule, and whose rows keep it across, keep it together. */
  lemma PairwiseAppend<T>(a: seq<T>, b: seq<T>, ok: (T, T) -> bool)
    requires Pairwise(a, ok) && Pairwise(b, ok)
    requires forall x, y :: x in a && y in b ==> ok(x, y)
    ensures Pairwise(a + b, ok)
  {
    var r := a + b;
    forall i, j | 0 <= i < j < |r| ensures ok(r[i], r[j]) {
      if j < |a| {
        assert r[i] == a[i] && r[j] == a[j];
      } else if i >= |a| {
        assert r[i] == b[i - |a|] && r[j] == b[j - |a|];
      } else {
        assert r[i] in a && r[j] in b;
      }
    }
  }

  /** A SELECT keeps a uniqueness rule. */
  lemma {:induction false} SelectKeepsPairwise<T(!new), K>(rows: seq<T>, ok: (T, T) -> bool, col: T -> K, v: K)
    requires Pairwise(rows, ok)
    ensures Pairwise(Where(rows, col, v), ok)
  {
    if rows != [] {
      var tail := rows[1..];
      assert Pairwise(tail, ok) by {
        forall i, j | 0 <= i < j < |tail| ensures ok(tail[i], tail[j]) {
          assert tail[i] == rows[i + 1] && tail[j] == rows[j + 1];
        }
      }
      SelectKeepsPairwise(tail, ok, col, v);
      var rest := Where(tail, col, v);
      if col(rows[0]) == v {
        forall y | y in rest ensures ok(rows[0], y) {
          var k :| 0 <= k < |tail| && tail[k] == y;
          assert rows[k + 1] == y;
        }
        PairwiseAppend([rows[0]], rest, ok);
      }
    }
  }
}
