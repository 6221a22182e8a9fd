/** An SQL table held in memory as a sequence of rows in insertion order, and the
    three statements the portal runs on it: UPDATE … WHERE, DELETE … WHERE, and a
    SELECT … WHERE whose first row is fetched. */
module Tables {

  datatype Option<T> = None | Some(value: T)

  /** `UPDATE table SET … WHERE matches`: every matching row is rewritten by
      `update`, every other row is kept, and the order is kept. */
  function UpdateWhere<T>(rows: seq<T>, matches: T -> bool, update: T -> T): (r: seq<T>)
    ensures |r| == |rows|
    ensures forall i :: 0 <= i < |rows| && matches(rows[i]) ==> r[i] == update(rows[i])
    ensures forall i :: 0 <= i < |rows| && !matches(rows[i]) ==> r[i] == rows[i]
  {
    if rows == [] then []
    else [if matches(rows[0]) then update(rows[0]) else rows[0]] + UpdateWhere(rows[1..], matches, update)
  }

  /** `DELETE FROM table WHERE matches`: exactly the non-matching rows survive, in order. */
  function DeleteWhere<T>(rows: seq<T>, matches: T -> bool): (r: seq<T>)
    ensures |r| <= |rows|
    ensures forall i :: 0 <= i < |r| ==> !matches(r[i])
    ensures (forall i :: 0 <= i < |rows| ==> !matches(rows[i])) ==> r == rows
  {
    if rows == [] then []
    else if matches(rows[0]) then DeleteWhere(rows[1..], matches)
    else
      var r := [rows[0]] + DeleteWhere(rows[1..], matches);
      assert rows == [rows[0]] + rows[1..];
      r
  }

  /** The rows that survive a delete are exactly the table's rows that do not match. */
  lemma {:induction false} DeleteWhereMembers<T>(rows: seq<T>, matches: T -> bool)
    ensures var r := DeleteWhere(rows, matches);
            forall i :: 0 <= i < |r| ==> r[i] in rows
    ensures var r := DeleteWhere(rows, matches);
            forall i :: 0 <= i < |rows| && !matches(rows[i]) ==> rows[i] in r
  {
    if rows != [] {
      var rest := rows[1..];
      DeleteWhereMembers(rest, matches);
      assert rows == [rows[0]] + rest;
      forall i | 0 < i < |rows| ensures rows[i] == rest[i - 1] { }
    }
  }

  /** No two rows agree on the column `key`. */
  ghost predicate Distinct<T, K>(rows: seq<T>, key: T -> K)
  {
    forall i, j :: 0 <= i < j < |rows| ==> key(rows[i]) != key(rows[j])
  }

  /** Deleting rows keeps a column that was distinct across the table distinct. */
  lemma {:induction false} DeleteWhereKeepsDistinct<T, K>(rows: seq<T>, matches: T -> bool, key: T -> K)
    requires Distinct(rows, key)
    ensures Distinct(DeleteWhere(rows, matches), key)
  {
    if rows != [] {
      var rest := rows[1..];
      assert Distinct(rest, key) by {
        forall i, j | 0 <= i < j < |rest| ensures key(rest[i]) != key(rest[j]) {
          assert rest[i] == rows[i + 1] && rest[j] == rows[j + 1];
        }
      }
      DeleteWhereKeepsDistinct(rest, matches, key);
      var tail := DeleteWhere(rest, matches);
      DeleteWhereMembers(rest, matches);
      if !matches(rows[0]) {
        var r := DeleteWhere(rows, matches);
        assert r == [rows[0]] + tail;
        forall j | 0 < j < |r| ensures key(r[0]) != key(r[j]) {
          assert r[j] == tail[j - 1] && r[j] in rest;
          var k :| 0 <= k < |rest| && rest[k] == r[j];
          assert rest[k] == rows[k + 1];
        }
        forall i, j | 0 < i < j < |r| ensures key(r[i]) != key(r[j]) {
          assert r[i] == tail[i - 1] && r[j] == tail[j - 1];
          assert 0 <= i - 1 < j - 1 < |tail|;
        }
      }
    }
  }

  /** Deleting where only the first row matches leaves the rest of the table. */
  lemma DeleteWhereFirstOnly<T>(rows: seq<T>, matches: T -> bool)
    requires rows != [] && matches(rows[0])
    requires forall i :: 0 < i < |rows| ==> !matches(rows[i])
    ensures DeleteWhere(rows, matches) == rows[1..]
  {
    var rest := rows[1..];
    forall i | 0 <= i < |rest| ensures !matches(rest[i]) {
      assert rest[i] == rows[i + 1];
    }
  }

  /** Deleting where exactly one row matches removes that row and keeps the rest in order. */
  lemma {:induction false} DeleteWhereSingle<T>(rows: seq<T>, matches: T -> bool, k: nat)
    requires k < |rows| && matches(rows[k])
    requires forall i :: 0 <= i < |rows| && i != k ==> !matches(rows[i])
    ensures DeleteWhere(rows, matches) == rows[..k] + rows[k + 1..]
  {
    if k == 0 {
      DeleteWhereFirstOnly(rows, matches);
    } else {
      var rest := rows[1..];
      forall i | 0 <= i < |rest| && i != k - 1 ensures !matches(rest[i]) {
        assert rest[i] == rows[i + 1];
      }
      DeleteWhereSingle(rest, matches, k - 1);
      assert !matches(rows[0]);
      assert [rows[0]] + rest[..k - 1] == rows[..k];
      assert rest[k..] == rows[k + 1..];
    }
  }

  /** `SELECT COUNT(*) FROM table WHERE matches`. */
  function CountWhere<T>(rows: seq<T>, matches: T -> bool): nat
  {
    if rows == [] then 0 else (if matches(rows[0]) then 1 else 0) + CountWhere(rows[1..], matches)
  }

  /** The positions of the rows that match. */
  ghost function RowsWhere<T>(rows: seq<T>, matches: T -> bool): set<int>
  {
    set i | 0 <= i < |rows| && matches(rows[i])
  }

  /** A set of positive size has an element. */
  lemma SomeElement(s: set<int>)
    requires |s| > 0
    ensures exists x :: x in s
  {
    if forall x :: x !in s {
      assert false;
    }
  }

  /** Adding one to every element of a set keeps its size. */
  lemma ShiftKeepsSize(s: set<int>)
    ensures |set i | i in s :: i + 1| == |s|
    decreases |s|
  {
    if |s| > 0 {
      SomeElement(s);
      var x :| x in s;
      var smaller := s - {x};
      ShiftKeepsSize(smaller);
      var whole := set i | i in s :: i + 1;
      var part := set i | i in smaller :: i + 1;
      forall y | y in whole ensures y in part + {x + 1} {
        var k :| k in s && y == k + 1;
        if k != x { assert k in smaller; }
      }
      forall y | y in part + {x + 1} ensures y in whole {
        if y != x + 1 {
          var k :| k in smaller && y == k + 1;
          assert k in s;
        }
      }
      assert whole == part + {x + 1};
      assert x + 1 !in part;
    }
  }

  /** The count is the number of matching rows. */
  lemma {:induction false} CountWhereIsSize<T>(rows: seq<T>, matches: T -> bool)
    ensures CountWhere(rows, matches) == |RowsWhere(rows, matches)|
  {
    if rows != [] {
      var rest := rows[1..];
      CountWhereIsSize(rest, matches);
      var tail := RowsWhere(rest, matches);
      var shifted := set i | i in tail :: i + 1;
      ShiftKeepsSize(tail);
      var head: set<int> := if matches(rows[0]) then {0} else {};
      forall i | i in RowsWhere(rows, matches) ensures i in head + shifted {
        if i > 0 {
          assert rest[i - 1] == rows[i] && i - 1 in tail;
        }
      }
      forall i | i in shifted ensures i in RowsWhere(rows, matches) {
        var k :| k in tail && i == k + 1;
        assert rest[k] == rows[i];
      }
      assert RowsWhere(rows, matches) == head + shifted;
      assert head * shifted == {};
    }
  }
}
