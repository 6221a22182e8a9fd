/** The fee ledger: assessing a fee, applying a payment to it, and the totals the
    statistics route reports. */
module Ledger {

  import opened Tables
  import opened Records

  /** What the ledger keeps true of every fee row: an `Unpaid` fee has nothing paid,
      and once a payment has been applied the status is `Paid` exactly when the paid
      amount reaches the assessed amount, `Partial` otherwise. */
  predicate Consistent(f: Fee)
  {
    (f.status == Unpaid ==> f.paid == 0.0) &&
    (f.status != Unpaid ==> (f.status == Paid <==> f.paid >= f.amount))
  }

  /** The row `POST /api/fees` inserts: `paid` takes its default 0 and `status` is `Unpaid`. */
  function NewFee(feeId: string, learnerId: string, description: string, amount: real,
                  dueDate: string, term: string, academicYear: string, dateCreated: string): (f: Fee)
    ensures f.paid == 0.0 && f.status == Unpaid && f.amount == amount && f.feeId == feeId
    ensures Consistent(f)
  {
    Fee(feeId, learnerId, description, amount, 0.0, dueDate, term, academicYear, Unpaid, dateCreated)
  }

  /** A fee row after one payment of `amount` is applied to it. */
  function Settle(f: Fee, amount: real): (g: Fee)
    ensures g.paid == f.paid + amount
    ensures g.status != Unpaid && Consistent(g)
    ensures g == f.(paid := g.paid, status := g.status)
  {
    var paid := f.paid + amount;
    f.(paid := paid, status := if paid >= f.amount then Paid else Partial)
  }

  /** `UPDATE fees SET paid=?, status=? WHERE fee_id=?` after a payment. */
  function ApplyPayment(fees: seq<Fee>, feeId: string, amount: real): (r: seq<Fee>)
    ensures |r| == |fees|
    ensures forall i :: 0 <= i < |r| ==>
              r[i] == if fees[i].feeId == feeId then Settle(fees[i], amount) else fees[i]
  {
    UpdateWhere(fees, (f: Fee) => f.feeId == feeId, (f: Fee) => Settle(f, amount))
  }

  function Sum(amounts: seq<real>): real
  {
    if amounts == [] then 0.0 else Sum(amounts[..|amounts| - 1]) + amounts[|amounts| - 1]
  }

  /** A fee row after the payments `amounts` are applied to it, in order. */
  function SettleAll(f: Fee, amounts: seq<real>): Fee
  {
    if amounts == [] then f else Settle(SettleAll(f, amounts[..|amounts| - 1]), amounts[|amounts| - 1])
  }

  /** After payments summing to P the fee's paid amount has grown by exactly P; after
      at least one payment its status is `Paid` exactly when that reaches the assessed
      amount, and nothing else about the fee has changed. */
  lemma {:induction false} PaymentsAccumulate(f: Fee, amounts: seq<real>)
    ensures SettleAll(f, amounts).paid == f.paid + Sum(amounts)
    ensures SettleAll(f, amounts) == f.(paid := SettleAll(f, amounts).paid, status := SettleAll(f, amounts).status)
    ensures amounts != [] ==>
              SettleAll(f, amounts).status != Unpaid &&
              (SettleAll(f, amounts).status == Paid <==> f.paid + Sum(amounts) >= f.amount)
  {
    if amounts != [] {
      PaymentsAccumulate(f, amounts[..|amounts| - 1]);
    }
  }

  /** A fee assessed at `amount` and then paid `amounts`, in order, has paid exactly
      `Sum(amounts)`. */
  lemma NewFeePaidInFull(feeId: string, learnerId: string, description: string, amount: real,
                         dueDate: string, term: string, year: string, created: string, amounts: seq<real>)
    ensures var f := SettleAll(NewFee(feeId, learnerId, description, amount, dueDate, term, year, created), amounts);
            f.paid == Sum(amounts) && Consistent(f) &&
            (amounts == [] ==> f.status == Unpaid) &&
            (amounts != [] ==> (f.status == Paid <==> Sum(amounts) >= amount))
  {
    PaymentsAccumulate(NewFee(feeId, learnerId, description, amount, dueDate, term, year, created), amounts);
  }

  /** The fees table after the payments `amounts` for `feeId` are recorded, in order. */
  function ApplyPayments(fees: seq<Fee>, feeId: string, amounts: seq<real>): seq<Fee>
  {
    if amounts == [] then fees
    else ApplyPayment(ApplyPayments(fees, feeId, amounts[..|amounts| - 1]), feeId, amounts[|amounts| - 1])
  }

  /** Recording several payments against one fee id settles every row with that id by
      all of them and leaves every other row alone. */
  lemma {:induction false} ApplyPaymentsPointwise(fees: seq<Fee>, feeId: string, amounts: seq<real>)
    ensures |ApplyPayments(fees, feeId, amounts)| == |fees|
    ensures forall i :: 0 <= i < |fees| ==>
              ApplyPayments(fees, feeId, amounts)[i] ==
                if fees[i].feeId == feeId then SettleAll(fees[i], amounts) else fees[i]
  {
    if amounts != [] {
      ApplyPaymentsPointwise(fees, feeId, amounts[..|amounts| - 1]);
      var before := ApplyPayments(fees, feeId, amounts[..|amounts| - 1]);
      forall i | 0 <= i < |fees|
        ensures ApplyPayments(fees, feeId, amounts)[i] ==
                  if fees[i].feeId == feeId then SettleAll(fees[i], amounts) else fees[i]
      {
        PaymentsAccumulate(fees[i], amounts[..|amounts| - 1]);
        assert before[i].feeId == fees[i].feeId;
      }
    }
  }

  /** The worked example: a fee of 100 paid 40 is `Partial` with 60 outstanding, and
      after 60 more it is `Paid` with nothing outstanding. */
  lemma PartialThenPaid(f: Fee)
    requires f == NewFee("FEE-0001", "LRN-0001", "Tuition", 100.0, "", "1", "2024", "")
    ensures Settle(f, 40.0).status == Partial && Balance(Settle(f, 40.0)) == 60.0
    ensures Settle(Settle(f, 40.0), 60.0).status == Paid && Balance(Settle(Settle(f, 40.0), 60.0)) == 0.0
  {
  }

  // ---------------------------------------------------------------- totals

  /** What is still owed on one fee. */
  function Balance(f: Fee): real
  {
    f.amount - f.paid
  }

  /** `SELECT SUM(amount) FROM fees`, with an empty table giving 0. */
  function TotalAssessed(fees: seq<Fee>): real
  {
    if fees == [] then 0.0 else fees[0].amount + TotalAssessed(fees[1..])
  }

  /** `SELECT SUM(paid) FROM fees`, with an empty table giving 0: the statistics'
      "fees collected". */
  function TotalCollected(fees: seq<Fee>): (r: real)
    ensures (forall i :: 0 <= i < |fees| ==> fees[i].paid >= 0.0) ==> r >= 0.0
  {
    if fees == [] then 0.0 else fees[0].paid + TotalCollected(fees[1..])
  }

  /** The statistics' "fees outstanding": total assessed minus total collected. */
  function TotalOutstanding(fees: seq<Fee>): (r: real)
    ensures r == SumOfBalances(fees)
  {
    OutstandingIsSumOfBalances(fees);
    TotalAssessed(fees) - TotalCollected(fees)
  }

  function SumOfBalances(fees: seq<Fee>): real
  {
    if fees == [] then 0.0 else Balance(fees[0]) + SumOfBalances(fees[1..])
  }

  /** The outstanding total is the sum of what is still owed fee by fee. */
  lemma {:induction false} OutstandingIsSumOfBalances(fees: seq<Fee>)
    ensures TotalAssessed(fees) - TotalCollected(fees) == SumOfBalances(fees)
  {
    if fees != [] {
      OutstandingIsSumOfBalances(fees[1..]);
    }
  }

  /** Fee identifiers are pairwise distinct, as the `UNIQUE` constraint on `fee_id` keeps them. */
  ghost predicate UniqueFeeIds(fees: seq<Fee>)
  {
    forall i, j :: 0 <= i < j < |fees| ==> fees[i].feeId != fees[j].feeId
  }

  /** The rows after the first keep distinct identifiers, none of them the first row's. */
  lemma UniqueFeeIdsTail(fees: seq<Fee>)
    requires fees != [] && UniqueFeeIds(fees)
    ensures UniqueFeeIds(fees[1..])
    ensures forall i :: 0 <= i < |fees| - 1 ==> fees[1..][i].feeId != fees[0].feeId
  {
    var rest := fees[1..];
    forall i, j | 0 <= i < j < |rest| ensures rest[i].feeId != rest[j].feeId {
      assert rest[i] == fees[i + 1] && rest[j] == fees[j + 1];
    }
    forall i | 0 <= i < |rest| ensures rest[i].feeId != fees[0].feeId {
      assert rest[i] == fees[i + 1];
    }
  }

  /** A payment never changes any fee's assessed amount, so the assessed total stays. */
  lemma {:induction false} PaymentKeepsAssessed(fees: seq<Fee>, feeId: string, amount: real)
    ensures TotalAssessed(ApplyPayment(fees, feeId, amount)) == TotalAssessed(fees)
  {
    if fees != [] {
      var r := ApplyPayment(fees, feeId, amount);
      PaymentKeepsAssessed(fees[1..], feeId, amount);
      assert r[1..] == ApplyPayment(fees[1..], feeId, amount);
    }
  }

  /** A payment against the one fee with that identifier raises the collected total
      by exactly its amount. */
  lemma {:induction false} PaymentAddsCollected(fees: seq<Fee>, feeId: string, amount: real)
    requires UniqueFeeIds(fees)
    requires exists i :: 0 <= i < |fees| && fees[i].feeId == feeId
    ensures TotalCollected(ApplyPayment(fees, feeId, amount)) == TotalCollected(fees) + amount
  {
    var r := ApplyPayment(fees, feeId, amount);
    var rest := fees[1..];
    UniqueFeeIdsTail(fees);
    assert r[1..] == ApplyPayment(rest, feeId, amount);
    if fees[0].feeId == feeId {
      assert ApplyPayment(rest, feeId, amount) == rest;
    } else {
      var i :| 0 <= i < |fees| && fees[i].feeId == feeId;
      assert rest[i - 1].feeId == feeId;
      PaymentAddsCollected(rest, feeId, amount);
    }
  }

  /** A payment against an existing fee raises the collected total by its amount and
      lowers the outstanding total by the same; a payment against a missing fee
      leaves the fees table, and so both totals, unchanged. */
  lemma PaymentMovesTotals(fees: seq<Fee>, feeId: string, amount: real)
    requires UniqueFeeIds(fees)
    ensures var r := ApplyPayment(fees, feeId, amount);
            TotalAssessed(r) == TotalAssessed(fees) &&
            if exists i :: 0 <= i < |fees| && fees[i].feeId == feeId then
              TotalCollected(r) == TotalCollected(fees) + amount &&
              TotalOutstanding(r) == TotalOutstanding(fees) - amount
            else
              r == fees
  {
    PaymentKeepsAssessed(fees, feeId, amount);
    if exists i :: 0 <= i < |fees| && fees[i].feeId == feeId {
      PaymentAddsCollected(fees, feeId, amount);
    } else {
      assert ApplyPayment(fees, feeId, amount) == fees;
    }
  }
}
