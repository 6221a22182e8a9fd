/** The attendance register: `INSERT OR REPLACE` keyed by learner, date and subject. */
module Roll {

  import opened Records

  /** The columns of the `UNIQUE(learner_id, date, subject)` constraint. */
  datatype Key = Key(learnerId: string, date: string, subject: string)

  function KeyOf(a: Attendance): Key
  {
    Key(a.learnerId, a.date, a.subject)
  }

  /** The register holds at most one row per key. */
  ghost predicate UniqueKeys(rows: seq<Attendance>)
  {
    forall i, j :: 0 <= i < j < |rows| ==> KeyOf(rows[i]) != KeyOf(rows[j])
  }

  /** The register with the row for `key` removed: the row `INSERT OR REPLACE`
      deletes before it inserts. */
  function WithoutKey(rows: seq<Attendance>, key: Key): (r: seq<Attendance>)
    ensures forall a :: a in r <==> a in rows && KeyOf(a) != key
    ensures |r| <= |rows|
  {
    if rows == [] then []
    else if KeyOf(rows[0]) == key then WithoutKey(rows[1..], key)
    else
      assert rows == [rows[0]] + rows[1..];
      [rows[0]] + WithoutKey(rows[1..], key)
  }

  lemma {:induction false} WithoutKeyUnique(rows: seq<Attendance>, key: Key)
    requires UniqueKeys(rows)
    ensures UniqueKeys(WithoutKey(rows, key))
  {
    if rows != [] {
      var rest := rows[1..];
      assert UniqueKeys(rest) by {
        forall i, j | 0 <= i < j < |rest| ensures KeyOf(rest[i]) != KeyOf(rest[j]) {
          assert rest[i] == rows[i + 1] && rest[j] == rows[j + 1];
        }
      }
      WithoutKeyUnique(rest, key);
      if KeyOf(rows[0]) != key {
        var r := WithoutKey(rows, key);
        var tail := WithoutKey(rest, key);
        assert r == [rows[0]] + tail;
        forall j | 0 < j < |r| ensures KeyOf(r[0]) != KeyOf(r[j]) {
          assert r[j] == tail[j - 1];
          assert r[j] in rest;
          var k :| 0 <= k < |rest| && rest[k] == r[j];
          assert rest[k] == rows[k + 1];
        }
      }
    }
  }

  /** One `INSERT OR REPLACE INTO attendance`: the row with the same key, if any, is
      deleted and the new row goes in at the end. */
  function Upsert(rows: seq<Attendance>, rec: Attendance): (r: seq<Attendance>)
    ensures |r| > 0 && r[|r| - 1] == rec
    ensures |r| <= |rows| + 1
    ensures forall a :: a in r <==> a == rec || (a in rows && KeyOf(a) != KeyOf(rec))
  {
    WithoutKey(rows, KeyOf(rec)) + [rec]
  }

  /** An upsert keeps the register at one row per key. */
  lemma UpsertKeepsKeysUnique(rows: seq<Attendance>, rec: Attendance)
    requires UniqueKeys(rows)
    ensures UniqueKeys(Upsert(rows, rec))
  {
    WithoutKeyUnique(rows, KeyOf(rec));
    var w := WithoutKey(rows, KeyOf(rec));
    var r := Upsert(rows, rec);
    forall i, j | 0 <= i < j < |r| ensures KeyOf(r[i]) != KeyOf(r[j]) {
      if j == |r| - 1 {
        assert r[i] == w[i] && w[i] in w;
      } else {
        assert r[i] == w[i] && r[j] == w[j];
      }
    }
  }

  /** The register after the records of one request are upserted in order. */
  function UpsertAll(rows: seq<Attendance>, recs: seq<Attendance>): (r: seq<Attendance>)
    ensures |r| <= |rows| + |recs|
    ensures recs != [] ==> |r| > 0 && r[|r| - 1] == recs[|recs| - 1]
  {
    if recs == [] then rows else Upsert(UpsertAll(rows, recs[..|recs| - 1]), recs[|recs| - 1])
  }

  /** No record of the batch has key `k`. */
  ghost predicate Unnamed(recs: seq<Attendance>, k: Key)
  {
    forall m :: 0 <= m < |recs| ==> KeyOf(recs[m]) != k
  }

  /** No later record of the batch has the key of record `j`. */
  ghost predicate LastOfKey(recs: seq<Attendance>, j: int)
    requires 0 <= j < |recs|
  {
    forall m :: j < m < |recs| ==> KeyOf(recs[m]) != KeyOf(recs[j])
  }

  /** Whether `a` is in the register after `recs` are upserted into `rows`: it is an
      old row whose key no record names, or a record that no later record of the
      batch replaces. */
  ghost predicate Survives(rows: seq<Attendance>, recs: seq<Attendance>, a: Attendance)
  {
    (a in rows && Unnamed(recs, KeyOf(a))) ||
    (exists j :: 0 <= j < |recs| && recs[j] == a && LastOfKey(recs, j))
  }

  /** A batch keeps the register at one row per key. */
  lemma {:induction false} UpsertAllKeepsKeysUnique(rows: seq<Attendance>, recs: seq<Attendance>)
    requires UniqueKeys(rows)
    ensures UniqueKeys(UpsertAll(rows, recs))
  {
    if recs != [] {
      UpsertAllKeepsKeysUnique(rows, recs[..|recs| - 1]);
      UpsertKeepsKeysUnique(UpsertAll(rows, recs[..|recs| - 1]), recs[|recs| - 1]);
    }
  }

  /** How survival changes when one more record is appended to the batch. */
  lemma SurvivesStep(rows: seq<Attendance>, recs: seq<Attendance>, a: Attendance)
    requires recs != []
    ensures var n := |recs| - 1;
            Survives(rows, recs, a) <==>
              a == recs[n] || (KeyOf(a) != KeyOf(recs[n]) && Survives(rows, recs[..n], a))
  {
    var n := |recs| - 1;
    var init := recs[..n];
    if a == recs[n] {
      assert recs[n] == a && LastOfKey(recs, n);
    } else if KeyOf(a) == KeyOf(recs[n]) {
      assert !Unnamed(recs, KeyOf(a));
    } else {
      assert Unnamed(recs, KeyOf(a)) <==> Unnamed(init, KeyOf(a)) by {
        if Unnamed(init, KeyOf(a)) {
          forall m | 0 <= m < |recs| ensures KeyOf(recs[m]) != KeyOf(a) {
            if m < n { assert recs[m] == init[m]; }
          }
        }
      }
      if exists j :: 0 <= j < |recs| && recs[j] == a && LastOfKey(recs, j) {
        var j :| 0 <= j < |recs| && recs[j] == a && LastOfKey(recs, j);
        assert j < n && init[j] == a;
        assert LastOfKey(init, j);
      }
      if exists j :: 0 <= j < |init| && init[j] == a && LastOfKey(init, j) {
        var j :| 0 <= j < |init| && init[j] == a && LastOfKey(init, j);
        assert recs[j] == a;
        assert LastOfKey(recs, j) by {
          forall m | j < m < |recs| ensures KeyOf(recs[m]) != KeyOf(recs[j]) {
            if m < n { assert recs[m] == init[m]; }
          }
        }
      }
    }
  }

  /** After a batch the register holds exactly the surviving rows: for every key the
      batch names, its last record with that key; for every other key, the old row. */
  lemma {:induction false} LastRecordWins(rows: seq<Attendance>, recs: seq<Attendance>, a: Attendance)
    ensures a in UpsertAll(rows, recs) <==> Survives(rows, recs, a)
  {
    if recs != [] {
      var n := |recs| - 1;
      LastRecordWins(rows, recs[..n], a);
      SurvivesStep(rows, recs, a);
    } else {
      assert Unnamed(recs, KeyOf(a));
    }
  }

  /** In particular, the last record of a batch for each key is in the register. */
  lemma LastRecordIsKept(rows: seq<Attendance>, recs: seq<Attendance>, j: nat)
    requires j < |recs|
    requires LastOfKey(recs, j)
    ensures recs[j] in UpsertAll(rows, recs)
  {
    LastRecordWins(rows, recs, recs[j]);
  }
}
