/** The figures of the statistics route. */
module Dashboard {

  import opened Records
  import opened Ledger
  import opened Enrollment
  import opened Tables

  /** The statistics the route reports about the modelled tables. */
  datatype Stats = Stats(
    totalLearners: nat, pendingLearners: nat, totalStaff: nat, totalBooks: nat,
    feesCollected: real, feesOutstanding: real, blockedLearners: nat)

  /** `approved=1` */
  predicate IsApproved(l: Learner) { l.approved }

  /** `approved=0` */
  predicate IsPending(l: Learner) { !l.approved }

  /** `fees_blocked=1` */
  predicate IsBlocked(l: Learner) { l.feesBlocked }

  /** `SELECT COUNT(*) FROM learners WHERE approved=1` */
  function ApprovedCount(learners: seq<Learner>): nat
  {
    CountWhere(learners, IsApproved)
  }

  /** `SELECT COUNT(*) FROM learners WHERE approved=0` */
  function PendingCount(learners: seq<Learner>): nat
  {
    CountWhere(learners, IsPending)
  }

  /** `SELECT COUNT(*) FROM learners WHERE fees_blocked=1` */
  function BlockedCount(learners: seq<Learner>): nat
  {
    CountWhere(learners, IsBlocked)
  }

  /** Every learner is either active or pending. */
  lemma {:induction false} ActivePlusPending(learners: seq<Learner>)
    ensures ApprovedCount(learners) + PendingCount(learners) == |learners|
  {
    if learners != [] {
      ActivePlusPending(learners[1..]);
    }
  }

  /** The statistics route over the modelled tables. */
  function StatsOf(staff: seq<Staff>, learners: seq<Learner>, fees: seq<Fee>, books: seq<Textbook>): (s: Stats)
    ensures s.totalLearners == |RowsWhere(learners, IsApproved)|
    ensures s.pendingLearners == |RowsWhere(learners, IsPending)|
    ensures s.blockedLearners == |RowsWhere(learners, IsBlocked)|
    ensures s.totalLearners + s.pendingLearners == |learners|
    ensures s.totalStaff == |staff| && s.totalBooks == |books|
    ensures s.feesCollected + s.feesOutstanding == TotalAssessed(fees)
    ensures s.feesOutstanding == SumOfBalances(fees)
  {
    ActivePlusPending(learners);
    CountWhereIsSize(learners, IsApproved);
    CountWhereIsSize(learners, IsPending);
    CountWhereIsSize(learners, IsBlocked);
    Stats(ApprovedCount(learners), PendingCount(learners), |staff|, |books|,
          TotalCollected(fees), TotalOutstanding(fees), BlockedCount(learners))
  }

  /** Learner identifiers are pairwise distinct. */
  ghost predicate UniqueLearnerIds(learners: seq<Learner>)
  {
    forall i, j :: 0 <= i < j < |learners| ==> learners[i].learnerId != learners[j].learnerId
  }

  /** Approving a pending learner moves exactly one learner from pending to active. */
  lemma {:induction false} ApproveMovesOne(learners: seq<Learner>, k: nat)
    requires UniqueLearnerIds(learners)
    requires k < |learners| && !learners[k].approved
    ensures var a := Approve(learners, learners[k].learnerId);
            ApprovedCount(a) == ApprovedCount(learners) + 1 &&
            PendingCount(a) + 1 == PendingCount(learners)
  {
    var lid := learners[k].learnerId;
    var a := Approve(learners, lid);
    var rest := learners[1..];
    assert a[1..] == Approve(rest, lid);
    if k == 0 {
      forall i | 0 <= i < |rest| ensures rest[i].learnerId != lid {
        assert rest[i] == learners[i + 1];
      }
      ApproveOthers(rest, lid);
    } else {
      assert learners[0].learnerId != lid;
      assert UniqueLearnerIds(rest) by {
        forall i, j | 0 <= i < j < |rest| ensures rest[i].learnerId != rest[j].learnerId {
          assert rest[i] == learners[i + 1] && rest[j] == learners[j + 1];
        }
      }
      assert rest[k - 1] == learners[k];
      ApproveMovesOne(rest, k - 1);
    }
  }

  /** Approving an identifier no row carries changes no count. */
  lemma ApproveOthers(learners: seq<Learner>, lid: string)
    requires forall i :: 0 <= i < |learners| ==> learners[i].learnerId != lid
    ensures Approve(learners, lid) == learners
  {
    var a := Approve(learners, lid);
    assert forall i :: 0 <= i < |learners| ==> a[i] == learners[i];
  }

  /** A recorded payment for an existing fee moves its amount from outstanding to
      collected; one for a missing fee moves nothing. */
  lemma PaymentMovesStats(staff: seq<Staff>, learners: seq<Learner>, fees: seq<Fee>,
                          books: seq<Textbook>, feeId: string, amount: real)
    requires UniqueFeeIds(fees)
    ensures var before := StatsOf(staff, learners, fees, books);
            var after := StatsOf(staff, learners, ApplyPayment(fees, feeId, amount), books);
            if exists i :: 0 <= i < |fees| && fees[i].feeId == feeId then
              after == before.(feesCollected := before.feesCollected + amount,
                               feesOutstanding := before.feesOutstanding - amount)
            else
              after == before
  {
    PaymentMovesTotals(fees, feeId, amount);
  }
}
