/** The enrollment workflow: the `approve`, `reject`, `block_fees` and
    `unblock_fees` actions on the learners table. */
module Enrollment {

  import opened Tables
  import opened Records

  /** `UPDATE learners SET approved=1 WHERE learner_id=?` */
  function Approve(learners: seq<Learner>, lid: string): (r: seq<Learner>)
    ensures |r| == |learners|
    ensures forall i :: 0 <= i < |r| ==>
              r[i] == if learners[i].learnerId == lid then learners[i].(approved := true) else learners[i]
  {
    UpdateWhere(learners, (l: Learner) => l.learnerId == lid, (l: Learner) => l.(approved := true))
  }

  /** The rows `reject` deletes: the learner's, while still unapproved. */
  function PendingWith(lid: string): Learner -> bool
  {
    (l: Learner) => l.learnerId == lid && !l.approved
  }

  /** `DELETE FROM learners WHERE learner_id=? AND approved=0` */
  function Reject(learners: seq<Learner>, lid: string): (r: seq<Learner>)
    ensures |r| <= |learners|
    ensures forall i :: 0 <= i < |r| ==> !(r[i].learnerId == lid && !r[i].approved)
    ensures (forall i :: 0 <= i < |learners| ==> !(learners[i].learnerId == lid && !learners[i].approved)) ==>
              r == learners
  {
    DeleteWhere(learners, PendingWith(lid))
  }

  /** `UPDATE learners SET fees_blocked=? WHERE learner_id=?` */
  function SetFeesBlocked(learners: seq<Learner>, lid: string, blocked: bool): (r: seq<Learner>)
    ensures |r| == |learners|
    ensures forall i :: 0 <= i < |r| ==>
              r[i] == if learners[i].learnerId == lid then learners[i].(feesBlocked := blocked) else learners[i]
  {
    UpdateWhere(learners, (l: Learner) => l.learnerId == lid, (l: Learner) => l.(feesBlocked := blocked))
  }

  /** The action the approval route runs: the body's `action`, `approve` when the
      body has none. */
  function RequestedAction(action: Option<string>): (a: string)
    ensures action.None? ==> a == "approve"
    ensures action.Some? ==> a == action.value
  {
    match action
    case None => "approve"
    case Some(name) => name
  }

  /** The learners table after the approval route runs `action` on `lid`; an action
      the route does not know leaves the table as it is. Only `reject` removes rows;
      every other action keeps each row's id and address where they were. */
  function ApplyAction(learners: seq<Learner>, lid: string, action: string): (r: seq<Learner>)
    ensures |r| <= |learners|
    ensures action != "reject" ==>
              |r| == |learners| &&
              forall i :: 0 <= i < |r| ==> r[i].learnerId == learners[i].learnerId && r[i].email == learners[i].email
    ensures action !in {"approve", "reject", "block_fees", "unblock_fees"} ==> r == learners
  {
    if action == "approve" then Approve(learners, lid)
    else if action == "reject" then Reject(learners, lid)
    else if action == "block_fees" then SetFeesBlocked(learners, lid, true)
    else if action == "unblock_fees" then SetFeesBlocked(learners, lid, false)
    else learners
  }

  /** A request without an action approves the learner. */
  lemma MissingActionApproves(learners: seq<Learner>, lid: string)
    ensures ApplyAction(learners, lid, RequestedAction(None)) == Approve(learners, lid)
    ensures forall i :: 0 <= i < |learners| && learners[i].learnerId == lid ==>
              ApplyAction(learners, lid, RequestedAction(None))[i].approved
  {
  }

  /** Approving twice is approving once. */
  lemma ApproveIdempotent(learners: seq<Learner>, lid: string)
    ensures Approve(Approve(learners, lid), lid) == Approve(learners, lid)
  {
    var once := Approve(learners, lid);
    var twice := Approve(once, lid);
    assert forall i :: 0 <= i < |once| ==> twice[i] == once[i];
  }

  /** Approving an already approved learner changes nothing. */
  lemma ApproveApprovedNoop(learners: seq<Learner>, lid: string)
    requires forall i :: 0 <= i < |learners| && learners[i].learnerId == lid ==> learners[i].approved
    ensures Approve(learners, lid) == learners
  {
    var r := Approve(learners, lid);
    assert forall i :: 0 <= i < |r| ==> r[i] == learners[i];
  }

  /** Rejection removes exactly the unapproved rows of that learner: every approved
      learner, and every other learner, is still there. */
  lemma RejectRemovesOnlyPending(learners: seq<Learner>, lid: string)
    ensures forall l :: l in Reject(learners, lid) <==> l in learners && (l.learnerId != lid || l.approved)
  {
    DeleteWhereMembers(learners, PendingWith(lid));
  }

  /** Rejecting a learner that is already approved is a no-op. */
  lemma RejectApprovedNoop(learners: seq<Learner>, lid: string)
    requires forall i :: 0 <= i < |learners| && learners[i].learnerId == lid ==> learners[i].approved
    ensures Reject(learners, lid) == learners
  {
  }

  /** Blocking or unblocking fees touches only the fee flag of that learner and
      never the approval flag. */
  lemma FeeBlockKeepsApproval(learners: seq<Learner>, lid: string, blocked: bool)
    ensures forall i :: 0 <= i < |learners| ==>
              SetFeesBlocked(learners, lid, blocked)[i].approved == learners[i].approved
    ensures forall i :: 0 <= i < |learners| && learners[i].learnerId == lid ==>
              SetFeesBlocked(learners, lid, blocked)[i].feesBlocked == blocked
    ensures SetFeesBlocked(SetFeesBlocked(learners, lid, blocked), lid, !blocked) ==
            SetFeesBlocked(learners, lid, !blocked)
  {
    var once := SetFeesBlocked(learners, lid, blocked);
    var back := SetFeesBlocked(once, lid, !blocked);
    assert forall i :: 0 <= i < |back| ==> back[i] == SetFeesBlocked(learners, lid, !blocked)[i];
  }

  /** No action takes a learner out of the approved state: every approved learner
      is still present and approved afterwards, differing at most in its fee flag. */
  lemma ApprovalIsPermanent(learners: seq<Learner>, lid: string, action: string)
    ensures forall l :: l in learners && l.approved ==>
              exists b :: l.(feesBlocked := b) in ApplyAction(learners, lid, action)
  {
    var r := ApplyAction(learners, lid, action);
    forall l | l in learners && l.approved
      ensures exists b :: l.(feesBlocked := b) in r
    {
      var i :| 0 <= i < |learners| && learners[i] == l;
      if action == "approve" || action == "block_fees" || action == "unblock_fees" {
        assert r[i].(feesBlocked := l.feesBlocked) == l;
        assert l.(feesBlocked := r[i].feesBlocked) == r[i];
      } else if action == "reject" {
        RejectRemovesOnlyPending(learners, lid);
        assert l.(feesBlocked := l.feesBlocked) == l;
      } else {
        assert l.(feesBlocked := l.feesBlocked) == l;
      }
    }
  }
}
