/** The portal's state: the tables the modelled routes read and write, and one
    method per route. Each method is specified by the functions of the other
    modules and keeps the store's invariant. */
module School {

  import opened Text
  import opened Tables
  import opened Records
  import opened Ids
  import opened Identity
  import opened Enrollment
  import opened Signup
  import opened Ledger
  import opened Circulation
  import opened Roll
  import opened Personnel
  import opened Dashboard

  /** Rejection keeps learner ids and addresses distinct and in lower case. */
  lemma RejectKeepsLearners(learners: seq<Learner>, lid: string)
    requires LearnersUnique(learners) && LearnerEmailsLower(learners)
    ensures LearnersUnique(Reject(learners, lid)) && LearnerEmailsLower(Reject(learners, lid))
  {
    var r := Reject(learners, lid);
    var byId := (l: Learner) => l.learnerId;
    var byEmail := (l: Learner) => l.email;
    assert Distinct(learners, byId) && Distinct(learners, byEmail);
    DeleteWhereKeepsDistinct(learners, PendingWith(lid), byId);
    DeleteWhereKeepsDistinct(learners, PendingWith(lid), byEmail);
    assert Distinct(r, byId) && Distinct(r, byEmail);
    DeleteWhereMembers(learners, PendingWith(lid));
    forall i | 0 <= i < |r| ensures IsLower(r[i].email) {
      assert r[i] in learners;
      var j :| 0 <= j < |learners| && learners[j] == r[i];
    }
  }

  /** An update that keeps every row's id and address keeps them distinct and in lower case. */
  lemma SameKeysKeepLearners(learners: seq<Learner>, r: seq<Learner>)
    requires LearnersUnique(learners) && LearnerEmailsLower(learners)
    requires |r| == |learners|
    requires forall i :: 0 <= i < |r| ==> r[i].learnerId == learners[i].learnerId && r[i].email == learners[i].email
    ensures LearnersUnique(r) && LearnerEmailsLower(r)
  {
  }

  /** An approval action keeps learner ids and addresses distinct and in lower case. */
  lemma ActionKeepsLearners(learners: seq<Learner>, lid: string, action: string)
    requires LearnersUnique(learners) && LearnerEmailsLower(learners)
    ensures LearnersUnique(ApplyAction(learners, lid, action))
    ensures LearnerEmailsLower(ApplyAction(learners, lid, action))
  {
    var r := ApplyAction(learners, lid, action);
    if action == "reject" {
      RejectKeepsLearners(learners, lid);
    } else {
      assert forall i :: 0 <= i < |r| ==>
               r[i].learnerId == learners[i].learnerId && r[i].email == learners[i].email;
      SameKeysKeepLearners(learners, r);
    }
  }

  /** The staff table's `UNIQUE` columns are distinct and its ids are the allocator's,
      in order: no modelled route deletes a staff row. */
  ghost predicate StaffOk(staff: seq<Staff>)
  {
    StaffUnique(staff) && forall i :: 0 <= i < |staff| ==> staff[i].staffId == NewId("STF", i)
  }

  /** Learner ids and addresses are distinct, and addresses are stored in lower case. */
  ghost predicate LearnersOk(learners: seq<Learner>)
  {
    LearnersUnique(learners) && LearnerEmailsLower(learners)
  }

  /** Fee ids are the allocator's, in order, and every status agrees with its paid amount. */
  ghost predicate FeesOk(fees: seq<Fee>)
  {
    forall i :: 0 <= i < |fees| ==> fees[i].feeId == NewId("FEE", i) && Consistent(fees[i])
  }

  /** Payment ids are the allocator's, in order. */
  ghost predicate PaymentsOk(payments: seq<Payment>)
  {
    forall i :: 0 <= i < |payments| ==> payments[i].paymentId == NewId("PAY", i)
  }

  /** Book ids are the allocator's, in order, and no count of issued copies is negative. */
  ghost predicate BooksOk(books: seq<Textbook>)
  {
    CountsNonNegative(books) && forall i :: 0 <= i < |books| ==> books[i].bookId == NewId("BK", i)
  }

  /** Issue ids are the allocator's, in order. */
  ghost predicate IssuesOk(issues: seq<BookIssue>)
  {
    forall i :: 0 <= i < |issues| ==> issues[i].issueId == NewId("ISS", i)
  }

  /** A row under the next identifier whose id and address are new keeps the staff
      table's invariant. */
  lemma AppendKeepsStaffOk(staff: seq<Staff>, row: Staff)
    requires StaffOk(staff) && row.staffId == NewId("STF", |staff|)
    requires forall i :: 0 <= i < |staff| ==> staff[i].staffId != row.staffId && staff[i].email != row.email
    ensures StaffOk(staff + [row])
  {
    var r := staff + [row];
    forall i, j | 0 <= i < j < |r| ensures r[i].staffId != r[j].staffId && r[i].email != r[j].email {
      assert r[i] == staff[i];
      if j < |staff| { assert r[j] == staff[j]; }
    }
    forall i | 0 <= i < |r| ensures r[i].staffId == NewId("STF", i) {
      if i < |staff| { assert r[i] == staff[i]; }
    }
  }

  /** Staff registration keeps the staff table's invariant. */
  lemma StaffSignupKeepsOk(staff: seq<Staff>, email: string, password: string,
                           profile: StaffProfile, today: string)
    requires StaffOk(staff)
    ensures StaffOk(StaffAfterSignup(staff, email, password, profile, today))
  {
    var d := StaffSignup(staff, email, password);
    if d.Accept? {
      var row := NewStaffRow(d.value.0, email, password, d.value.1, profile, today);
      assert !StaffClash(staff, row.staffId, row.email);
      AppendKeepsStaffOk(staff, row);
    }
  }

  /** Learner registration keeps the learners table's invariant. */
  lemma LearnerSignupKeepsOk(learners: seq<Learner>, email: string, password: string,
                             profile: LearnerProfile, today: string)
    requires LearnersOk(learners)
    ensures LearnersOk(LearnersAfterSignup(learners, email, password, profile, today))
  {
    LearnerSignupKeepsUnique(learners, email, password, profile, today);
    LearnerSignupKeepsEmailsLower(learners, email, password, profile, today);
  }

  /** A new fee under the next identifier keeps the fees table's invariant. */
  lemma AssessKeepsFeesOk(fees: seq<Fee>, f: Fee)
    requires FeesOk(fees) && f.feeId == NewId("FEE", |fees|) && Consistent(f)
    ensures FeesOk(fees + [f])
  {
    var r := fees + [f];
    forall i | 0 <= i < |r| ensures r[i].feeId == NewId("FEE", i) && Consistent(r[i]) {
      if i < |fees| { assert r[i] == fees[i]; }
    }
  }

  /** Settling a fee keeps its identifier and leaves it consistent, so the fees
      table's invariant survives a payment. */
  lemma PaymentKeepsFeesOk(fees: seq<Fee>, feeId: string, amount: real)
    requires FeesOk(fees)
    ensures FeesOk(ApplyPayment(fees, feeId, amount))
  {
  }

  /** A payment under the next identifier keeps the payments table's invariant. */
  lemma AppendKeepsPaymentsOk(payments: seq<Payment>, p: Payment)
    requires PaymentsOk(payments) && p.paymentId == NewId("PAY", |payments|)
    ensures PaymentsOk(payments + [p])
  {
    var r := payments + [p];
    forall i | 0 <= i < |r| ensures r[i].paymentId == NewId("PAY", i) {
      if i < |payments| { assert r[i] == payments[i]; }
    }
  }

  /** A new textbook under the next identifier, with no copies out, keeps the
      textbooks table's invariant. */
  lemma AppendKeepsBooksOk(books: seq<Textbook>, b: Textbook)
    requires BooksOk(books) && b.bookId == NewId("BK", |books|) && b.copiesIssued >= 0
    ensures BooksOk(books + [b])
  {
    var r := books + [b];
    forall i | 0 <= i < |r| ensures r[i].bookId == NewId("BK", i) && r[i].copiesIssued >= 0 {
      if i < |books| { assert r[i] == books[i]; }
    }
  }

  /** Issuing and returning copies keep the textbooks table's invariant. */
  lemma CirculationKeepsBooksOk(books: seq<Textbook>, bookId: string)
    requires BooksOk(books)
    ensures BooksOk(CheckOut(books, bookId)) && BooksOk(CheckIn(books, bookId))
  {
    CountsStayNonNegative(books, bookId);
  }

  /** A new issue under the next identifier keeps the issues table's invariant. */
  lemma AppendKeepsIssuesOk(issues: seq<BookIssue>, s: BookIssue)
    requires IssuesOk(issues) && s.issueId == NewId("ISS", |issues|)
    ensures IssuesOk(issues + [s])
  {
    var r := issues + [s];
    forall i | 0 <= i < |r| ensures r[i].issueId == NewId("ISS", i) {
      if i < |issues| { assert r[i] == issues[i]; }
    }
  }

  /** The `staff` table and the routes that read or write it. */
  class StaffTable {
    var staff: seq<Staff>

    ghost predicate Valid()
      reads this
    {
      StaffOk(staff)
    }

    /** The table as `init_db` creates it. */
    constructor()
      ensures Valid() && staff == []
    {
      staff := [];
    }

    /** `POST /api/staff/register` */
    method Register(email: string, password: string, profile: StaffProfile, today: string)
      returns (r: Decision<(string, Role)>)
      requires Valid()
      modifies this
      ensures Valid()
      ensures r == StaffSignup(old(staff), email, password)
      ensures staff == StaffAfterSignup(old(staff), email, password, profile, today)
    {
      r := StaffSignup(staff, email, password);
      if r.Accept? {
        StaffSignupKeepsOk(staff, email, password, profile, today);
        var (sid, role) := r.value;
        staff := staff + [NewStaffRow(sid, email, password, role, profile, today)];
      }
    }

    /** `POST /api/staff/login`; it changes nothing. */
    method SignIn(email: string, password: string) returns (r: Login<StaffUser>)
      ensures r == StaffLogin(staff, email, password)
    {
      r := StaffLogin(staff, email, password);
    }

    /** `PUT /api/staff/update/<sid>`: `false` when the new address is already
        another member's, and then nothing changes. */
    method Update(sid: string, patch: StaffPatch) returns (ok: bool)
      requires Valid()
      modifies this
      ensures Valid()
      ensures ok <==> UpdateStaff(old(staff), sid, patch).Some?
      ensures staff == if ok then UpdateStaff(old(staff), sid, patch).value else old(staff)
    {
      if !HasUpdates(patch) {
        var same := UpdateStaff(staff, sid, patch).value;
        forall i | 0 <= i < |staff| ensures same[i] == staff[i] {
          EmptyPatchIsIdentity(staff[i], patch);
        }
        return true;
      }
      var updated := UpdateStaff(staff, sid, patch);
      if updated.None? {
        return false;
      }
      UpdateKeepsStaffUnique(staff, sid, patch);
      assert forall i :: 0 <= i < |staff| ==> updated.value[i].staffId == staff[i].staffId;
      staff := updated.value;
      ok := true;
    }

    /** `DELETE /api/staff/<segment>`: `false` (not found) unless the segment is made of
        word characters. Every staff id carries a '-', so no row is ever removed. */
    method Delete(segment: string) returns (found: bool)
      requires Valid()
      modifies this
      ensures Valid()
      ensures found <==> IsWord(segment)
      ensures found ==> staff == DeleteStaff(old(staff), segment).value
      ensures staff == old(staff)
    {
      var result := DeleteStaff(staff, segment);
      DeleteNeverRemovesGeneratedIds(staff, segment);
      if result.None? {
        return false;
      }
      staff := result.value;
      found := true;
    }
  }

  /** The `learners` table and the routes that read or write it. */
  class LearnerTable {
    var learners: seq<Learner>

    ghost predicate Valid()
      reads this
    {
      LearnersOk(learners)
    }

    /** The table as `init_db` creates it. */
    constructor()
      ensures Valid() && learners == []
    {
      learners := [];
    }

    /** `POST /api/learner/register` */
    method Register(email: string, password: string, profile: LearnerProfile, today: string)
      returns (r: Decision<string>)
      requires Valid()
      modifies this
      ensures Valid()
      ensures r == LearnerSignup(old(learners), email, password)
      ensures learners == LearnersAfterSignup(old(learners), email, password, profile, today)
    {
      r := LearnerSignup(learners, email, password);
      if r.Accept? {
        LearnerSignupKeepsOk(learners, email, password, profile, today);
        learners := learners + [NewLearnerRow(r.value, email, password, profile, today)];
      }
    }

    /** `POST /api/learner/login`; it changes nothing. */
    method SignIn(email: string, password: string) returns (r: Login<LearnerUser>)
      ensures r == LearnerLogin(learners, email, password)
    {
      r := LearnerLogin(learners, email, password);
    }

    /** `POST /api/learner/approve` */
    method Act(lid: string, requested: Option<string>)
      requires Valid()
      modifies this
      ensures Valid()
      ensures learners == ApplyAction(old(learners), lid, RequestedAction(requested))
    {
      var action := RequestedAction(requested);
      ActionKeepsLearners(learners, lid, action);
      if action == "approve" {
        learners := Approve(learners, lid);
      } else if action == "reject" {
        learners := Reject(learners, lid);
      } else if action == "block_fees" {
        learners := SetFeesBlocked(learners, lid, true);
      } else if action == "unblock_fees" {
        learners := SetFeesBlocked(learners, lid, false);
      }
    }
  }

  /** The `fees` and `fee_payments` tables and the routes that write them. */
  class Bursary {
    var fees: seq<Fee>
    var payments: seq<Payment>

    ghost predicate Valid()
      reads this
    {
      FeesOk(fees) && PaymentsOk(payments)
    }

    /** The tables as `init_db` creates them. */
    constructor()
      ensures Valid() && fees == [] && payments == []
    {
      fees := [];
      payments := [];
    }

    /** `POST /api/fees`: the new fee's identifier is one no fee holds yet. */
    method Assess(learnerId: string, description: string, amount: real, dueDate: string,
                  term: string, academicYear: string, now: string)
      returns (feeId: string)
      requires Valid()
      modifies this
      ensures Valid()
      ensures feeId == NewId("FEE", |old(fees)|)
      ensures forall i :: 0 <= i < |old(fees)| ==> old(fees)[i].feeId != feeId
      ensures fees == old(fees) + [NewFee(feeId, learnerId, description, amount, dueDate, term, academicYear, now)]
      ensures payments == old(payments)
    {
      feeId := NewId("FEE", |fees|);
      forall i | 0 <= i < |fees| ensures fees[i].feeId != feeId {
        NewIdInjective("FEE", i, |fees|);
      }
      var fee := NewFee(feeId, learnerId, description, amount, dueDate, term, academicYear, now);
      AssessKeepsFeesOk(fees, fee);
      fees := fees + [fee];
    }

    /** `POST /api/fee-payments`: the payment row is inserted whether or not the fee
        exists; an existing fee is settled by the amount. */
    method Pay(feeId: string, learnerId: string, amount: real, paymentMethod: string,
               reference: string, receivedBy: string, now: string, notes: string)
      returns (paymentId: string)
      requires Valid()
      modifies this
      ensures Valid()
      ensures paymentId == NewId("PAY", |old(payments)|)
      ensures payments == old(payments) +
                [Payment(paymentId, feeId, learnerId, amount, paymentMethod, reference, receivedBy, now, notes)]
      ensures fees == ApplyPayment(old(fees), feeId, amount)
    {
      paymentId := NewId("PAY", |payments|);
      var payment := Payment(paymentId, feeId, learnerId, amount, paymentMethod, reference, receivedBy, now, notes);
      AppendKeepsPaymentsOk(payments, payment);
      payments := payments + [payment];
      if exists i | 0 <= i < |fees| :: fees[i].feeId == feeId {
        PaymentKeepsFeesOk(fees, feeId, amount);
        fees := ApplyPayment(fees, feeId, amount);
      } else {
        assert ApplyPayment(fees, feeId, amount) == fees;
      }
    }
  }

  /** The `textbooks` and `book_issues` tables and the routes that write them. */
  class Library {
    var textbooks: seq<Textbook>
    var issues: seq<BookIssue>

    ghost predicate Valid()
      reads this
    {
      BooksOk(textbooks) && IssuesOk(issues)
    }

    /** The tables as `init_db` creates them. */
    constructor()
      ensures Valid() && textbooks == [] && issues == []
    {
      textbooks := [];
      issues := [];
    }

    /** `POST /api/textbooks` */
    method AddTextbook(title: string, subject: string, gradeLevel: string, author: string,
                       publisher: string, isbn: string, edition: string, totalCopies: int,
                       conditionNotes: string)
      returns (bookId: string)
      requires Valid()
      modifies this
      ensures Valid()
      ensures bookId == NewId("BK", |old(textbooks)|)
      ensures textbooks == old(textbooks) +
                [NewTextbook(bookId, title, subject, gradeLevel, author, publisher, isbn, edition,
                             totalCopies, conditionNotes)]
      ensures issues == old(issues)
    {
      bookId := NewId("BK", |textbooks|);
      var book := NewTextbook(bookId, title, subject, gradeLevel, author, publisher, isbn, edition,
                              totalCopies, conditionNotes);
      AppendKeepsBooksOk(textbooks, book);
      textbooks := textbooks + [book];
    }

    /** `POST /api/book-issues`: one issue row more, and the book's count of issued
        copies one higher, with no check against the number of copies. */
    method Issue(bookId: string, learnerId: string, issuedBy: string, today: string,
                 dueDate: string, conditionOut: string, notes: string)
      returns (issueId: string)
      requires Valid()
      modifies this
      ensures Valid()
      ensures issueId == NewId("ISS", |old(issues)|)
      ensures issues == old(issues) +
                [NewIssue(issueId, bookId, learnerId, issuedBy, today, dueDate, conditionOut, notes)]
      ensures textbooks == CheckOut(old(textbooks), bookId)
    {
      issueId := NewId("ISS", |issues|);
      var issue := NewIssue(issueId, bookId, learnerId, issuedBy, today, dueDate, conditionOut, notes);
      AppendKeepsIssuesOk(issues, issue);
      issues := issues + [issue];
      CirculationKeepsBooksOk(textbooks, bookId);
      textbooks := CheckOut(textbooks, bookId);
    }

    /** `PUT /api/book-issues/<id>/return`: `false` (not found) and no change for an
        unknown issue; otherwise the issue is marked returned and the book's count
        drops by one, never below zero, even if the issue was returned before. */
    method Return(issueId: string, today: string, conditionIn: string) returns (found: bool)
      requires Valid()
      modifies this
      ensures Valid()
      ensures found <==> FindIssue(old(issues), issueId).Some?
      ensures !found ==> issues == old(issues) && textbooks == old(textbooks)
      ensures found ==> issues == MarkReturned(old(issues), issueId, today, conditionIn) &&
                        textbooks == CheckIn(old(textbooks), FindIssue(old(issues), issueId).value.bookId)
    {
      var issue := FindIssue(issues, issueId);
      if issue.None? {
        return false;
      }
      issues := MarkReturned(issues, issueId, today, conditionIn);
      CirculationKeepsBooksOk(textbooks, issue.value.bookId);
      textbooks := CheckIn(textbooks, issue.value.bookId);
      found := true;
    }
  }

  /** The `attendance` table and the route that writes it. */
  class AttendanceRegister {
    var attendance: seq<Attendance>

    ghost predicate Valid()
      reads this
    {
      UniqueKeys(attendance)
    }

    /** The table as `init_db` creates it. */
    constructor()
      ensures Valid() && attendance == []
    {
      attendance := [];
    }

    /** `POST /api/attendance`: the records are upserted one after the other. */
    method Record(recs: seq<Attendance>)
      requires Valid()
      modifies this
      ensures Valid()
      ensures attendance == UpsertAll(old(attendance), recs)
    {
      for k := 0 to |recs|
        invariant attendance == UpsertAll(old(attendance), recs[..k])
        invariant Valid()
      {
        assert recs[..k + 1][..k] == recs[..k];
        UpsertKeepsKeysUnique(attendance, recs[k]);
        attendance := Upsert(attendance, recs[k]);
      }
      assert recs[..|recs|] == recs;
    }
  }

  /** `GET /api/stats` over the modelled tables; it changes nothing. */
  method Statistics(staff: StaffTable, learners: LearnerTable, bursary: Bursary, library: Library)
    returns (s: Stats)
    ensures s == StatsOf(staff.staff, learners.learners, bursary.fees, library.textbooks)
  {
    s := StatsOf(staff.staff, learners.learners, bursary.fees, library.textbooks);
  }
}
