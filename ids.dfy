/** The identifier allocator `new_id`: `PREFIX-` followed by the table's row
    count plus one, written in decimal and zero-padded to at least four digits. */
module Ids {

  import opened Tables

  predicate IsDigit(c: char) { '0' <= c <= '9' }

  predicate AllDigits(s: string) { forall i :: 0 <= i < |s| ==> IsDigit(s[i]) }

  function DigitChar(d: nat): (c: char)
    requires d < 10
    ensures IsDigit(c) && c as int - '0' as int == d
  {
    (d + '0' as int) as char
  }

  /** `str(n)` for a natural number: decimal, no leading zeros. */
  function Decimal(n: nat): (s: string)
    ensures 1 <= |s| && AllDigits(s)
    ensures n > 0 ==> s[0] != '0'
    decreases n
  {
    if n < 10 then [DigitChar(n)] else Decimal(n / 10) + [DigitChar(n % 10)]
  }

  function Zeros(k: nat): (s: string)
    ensures |s| == k && forall i :: 0 <= i < k ==> s[i] == '0'
  {
    if k == 0 then [] else Zeros(k - 1) + ['0']
  }

  /** Python's `s.zfill(width)` for a string of digits (no sign to keep in front). */
  function ZFill(s: string, width: nat): (r: string)
    requires AllDigits(s)
    ensures AllDigits(r)
    ensures |r| == if |s| < width then width else |s|
    ensures r[|r| - |s|..] == s && forall i :: 0 <= i < |r| - |s| ==> r[i] == '0'
  {
    if |s| < width then Zeros(width - |s|) + s else s
  }

  /** `new_id(prefix, table)` when `table` holds `count` rows. */
  function NewId(prefix: string, count: nat): (id: string)
    ensures |id| >= |prefix| + 5
  {
    prefix + "-" + ZFill(Decimal(count + 1), 4)
  }

  /** The number a string of digits denotes; leading zeros are allowed. */
  function Value(s: string): nat
    requires AllDigits(s)
  {
    if s == [] then 0 else 10 * Value(s[..|s| - 1]) + (s[|s| - 1] as int - '0' as int)
  }

  lemma {:induction false} ValueOfDecimal(n: nat)
    ensures Value(Decimal(n)) == n
    decreases n
  {
    if n >= 10 {
      var s := Decimal(n);
      assert s[..|s| - 1] == Decimal(n / 10);
      ValueOfDecimal(n / 10);
    }
  }

  lemma {:induction false} ValueOfZeros(k: nat)
    ensures Value(Zeros(k)) == 0
  {
    if k > 0 {
      assert Zeros(k)[..k - 1] == Zeros(k - 1);
      ValueOfZeros(k - 1);
    }
  }

  /** Leading zeros do not change the value. */
  lemma {:induction false} ValueIgnoresZeros(k: nat, s: string)
    requires AllDigits(s)
    ensures Value(Zeros(k) + s) == Value(s)
  {
    if s == [] {
      assert Zeros(k) + s == Zeros(k);
      ValueOfZeros(k);
    } else {
      var t := Zeros(k) + s;
      assert t[..|t| - 1] == Zeros(k) + s[..|s| - 1];
      ValueIgnoresZeros(k, s[..|s| - 1]);
    }
  }

  /** The number an identifier carries, read back: `PREFIX-` followed by digits. */
  function IdNumber(prefix: string, id: string): (r: Option<nat>)
  {
    var n := |prefix| + 1;
    if |id| > n && id[..n] == prefix + "-" && AllDigits(id[n..]) then Some(Value(id[n..]))
    else None
  }

  /** Reading back the number of an allocated identifier gives the row count plus one:
      the partner of `NewId`. */
  lemma NewIdRoundTrip(prefix: string, count: nat)
    ensures IdNumber(prefix, NewId(prefix, count)) == Some(count + 1)
  {
    var d := Decimal(count + 1);
    var id := NewId(prefix, count);
    var n := |prefix| + 1;
    assert id[..n] == prefix + "-";
    assert id[n..] == ZFill(d, 4);
    ValueOfDecimal(count + 1);
    if |d| < 4 {
      ValueIgnoresZeros(4 - |d|, d);
    }
  }

  /** Two allocations with the same prefix give the same identifier only for the
      same row count. */
  lemma NewIdInjective(prefix: string, m: nat, n: nat)
    ensures NewId(prefix, m) == NewId(prefix, n) <==> m == n
  {
    NewIdRoundTrip(prefix, m);
    NewIdRoundTrip(prefix, n);
  }

  /** Successive allocations carry strictly increasing numbers. */
  lemma NewIdIncreasing(prefix: string, m: nat, n: nat)
    requires m < n
    ensures IdNumber(prefix, NewId(prefix, m)).value < IdNumber(prefix, NewId(prefix, n)).value
  {
    NewIdRoundTrip(prefix, m);
    NewIdRoundTrip(prefix, n);
  }

  /** A table's identifiers as they stand when every row was inserted through
      `new_id` and no row was ever deleted: row `i` holds the `i`-th allocation. */
  ghost predicate AllocatedInOrder(ids: seq<string>, prefix: string)
  {
    forall i :: 0 <= i < |ids| ==> ids[i] == NewId(prefix, i)
  }

  /** Under insert-only use the identifiers are pairwise distinct and the next one
      allocated is new. */
  lemma InsertOnlyIdsUnique(ids: seq<string>, prefix: string)
    requires AllocatedInOrder(ids, prefix)
    ensures forall i, j :: 0 <= i < j < |ids| ==> ids[i] != ids[j]
    ensures NewId(prefix, |ids|) !in ids
    ensures AllocatedInOrder(ids + [NewId(prefix, |ids|)], prefix)
  {
    forall i, j | 0 <= i < j < |ids| ensures ids[i] != ids[j] {
      NewIdInjective(prefix, i, j);
    }
    forall i | 0 <= i < |ids| ensures ids[i] != NewId(prefix, |ids|) {
      NewIdInjective(prefix, i, |ids|);
    }
  }

  /** After deleting row `k` from an insert-only table, the next allocation repeats
      an identifier still present exactly when the deleted row was not the last one. */
  lemma CollisionAfterDelete(ids: seq<string>, prefix: string, k: nat)
    requires AllocatedInOrder(ids, prefix)
    requires k < |ids|
    ensures var rest := ids[..k] + ids[k + 1..];
            NewId(prefix, |rest|) in rest <==> k < |ids| - 1
  {
    var rest := ids[..k] + ids[k + 1..];
    var next := NewId(prefix, |rest|);
    if k < |ids| - 1 {
      assert rest[|rest| - 1] == ids[|ids| - 1] == next;
    } else {
      assert rest == ids[..k];
      InsertOnlyIdsUnique(rest, prefix);
    }
  }

  /** Concrete formats: the first learner is `LRN-0001`, the 12 345th fee is `FEE-12345`. */
  lemma Formats()
    ensures NewId("LRN", 0) == "LRN-0001"
    ensures NewId("FEE", 12344) == "FEE-12345"
  {
    assert Decimal(1) == "1";
    assert Decimal(12345) == "12345" by {
      assert Decimal(1) == "1";
      assert Decimal(12) == "12";
      assert Decimal(123) == "123";
      assert Decimal(1234) == "1234";
    }
  }
}
