/** Self-registration as a whole: the checks of the identity module, the identifier
    the allocator hands out, the `UNIQUE` constraints of the table, and the row
    inserted when all of them pass. */
module Signup {

  import opened Text
  import opened Tables
  import opened Records
  import opened Ids
  import opened Identity
  import opened Enrollment

  // ---------------------------------------------------------------- staff

  /** The row `POST /api/staff/register` inserts: the normalised address, the digest
      of the password, the role the domain picked, approved from the start. */
  function NewStaffRow(sid: string, email: string, password: string, role: Role,
                       p: StaffProfile, today: string): (s: Staff)
    ensures s.staffId == sid && s.email == Normalize(email) && s.password == HashPassword(password)
    ensures s.role == role.Name() && s.approved && s.status == "Active" && s.dateEmployed == today
  {
    Staff(sid, p.firstName, p.lastName, Normalize(email), HashPassword(password), p.phone,
          p.address, p.idNumber, p.subject, p.classesTaught, p.nextOfKinName, p.nextOfKinPhone,
          today, role.Name(), p.gender, p.dateOfBirth, p.qualification, p.photo, "Active", true)
  }

  /** Inserting `sid` and `email` would break one of the staff table's `UNIQUE` constraints. */
  predicate StaffClash(staff: seq<Staff>, sid: string, email: string)
  {
    exists i :: 0 <= i < |staff| && (staff[i].staffId == sid || staff[i].email == email)
  }

  /** The answer of the staff registration route: the new staff id and role, or the
      reason for refusal; any `UNIQUE` failure reads "Email already registered.". */
  function StaffSignup(staff: seq<Staff>, email: string, password: string): (r: Decision<(string, Role)>)
    ensures var check := StaffRegistrationCheck(email, password);
            && (r.Accept? <==> check.Accept? && !StaffClash(staff, NewId("STF", |staff|), Normalize(email)))
            && (r.Accept? ==> r.value == (NewId("STF", |staff|), check.value))
            && (check.Refuse? ==> r == Refuse(check.error))
            && (check.Accept? && r.Refuse? ==> r.error == AlreadyRegistered)
  {
    match StaffRegistrationCheck(email, password)
    case Refuse(e) => Refuse(e)
    case Accept(role) =>
      var sid := NewId("STF", |staff|);
      if StaffClash(staff, sid, Normalize(email)) then Refuse(AlreadyRegistered) else Accept((sid, role))
  }

  /** The staff table after the registration route: one row more on success,
      unchanged on refusal. */
  function StaffAfterSignup(staff: seq<Staff>, email: string, password: string,
                            profile: StaffProfile, today: string): (r: seq<Staff>)
    ensures StaffSignup(staff, email, password).Refuse? ==> r == staff
    ensures StaffSignup(staff, email, password).Accept? ==>
              var (sid, role) := StaffSignup(staff, email, password).value;
              r == staff + [NewStaffRow(sid, email, password, role, profile, today)]
  {
    match StaffSignup(staff, email, password)
    case Refuse(_) => staff
    case Accept((sid, role)) => staff + [NewStaffRow(sid, email, password, role, profile, today)]
  }

  /** Staff identifiers and addresses are distinct, as the table's constraints keep them. */
  ghost predicate StaffUnique(staff: seq<Staff>)
  {
    forall i, j :: 0 <= i < j < |staff| ==>
      staff[i].staffId != staff[j].staffId && staff[i].email != staff[j].email
  }

  /** Registration keeps staff ids and addresses distinct. */
  lemma StaffSignupKeepsUnique(staff: seq<Staff>, email: string, password: string,
                               profile: StaffProfile, today: string)
    requires StaffUnique(staff)
    ensures StaffUnique(StaffAfterSignup(staff, email, password, profile, today))
  {
    var r := StaffAfterSignup(staff, email, password, profile, today);
    if StaffSignup(staff, email, password).Accept? {
      forall i, j | 0 <= i < j < |r|
        ensures r[i].staffId != r[j].staffId && r[i].email != r[j].email
      {
        if j == |staff| {
          assert r[i] == staff[i];
        }
      }
    }
  }

  /** With every stored address in lower case, an address not stored yet matches no
      stored row, whatever the password. */
  lemma NoStaffMatch(staff: seq<Staff>, email: string, password: string)
    requires forall i :: 0 <= i < |staff| ==> IsLower(staff[i].email)
    requires forall i :: 0 <= i < |staff| ==> staff[i].email != Normalize(email)
    ensures forall j :: 0 <= j < |staff| ==> !StaffMatches(staff[j], Normalize(email), HashPassword(password))
  {
    forall j | 0 <= j < |staff| ensures !StaffMatches(staff[j], Normalize(email), HashPassword(password)) {
      LowerIsLower(staff[j].email);
    }
  }

  // ---------------------------------------------------------------- learners

  /** The row `POST /api/learner/register` inserts: the normalised address, the
      digest of the password, not yet approved, fees not blocked. */
  function NewLearnerRow(lid: string, email: string, password: string,
                         p: LearnerProfile, today: string): (l: Learner)
    ensures l.learnerId == lid && l.email == Normalize(email) && l.password == HashPassword(password)
    ensures !l.approved && !l.feesBlocked && l.status == "Active" && l.enrollmentDate == today
  {
    Learner(lid, p.firstName, p.lastName, Normalize(email), HashPassword(password), p.phone,
            p.address, p.idNumber, p.grade, p.dateOfBirth, p.gender, p.nextOfKinName,
            p.nextOfKinRelationship, p.nextOfKinPhone, p.nextOfKinEmail, today, "Active", false, false)
  }

  /** Inserting `lid` and `email` would break one of the learners table's `UNIQUE` constraints. */
  predicate LearnerClash(learners: seq<Learner>, lid: string, email: string)
  {
    exists i :: 0 <= i < |learners| && (learners[i].learnerId == lid || learners[i].email == email)
  }

  /** The answer of the learner registration route: the new learner id, or the reason
      for refusal; any `UNIQUE` failure reads "Email already registered.". */
  function LearnerSignup(learners: seq<Learner>, email: string, password: string): (r: Decision<string>)
    ensures var check := LearnerRegistrationCheck(email, password);
            && (r.Accept? <==> check.Accept? && !LearnerClash(learners, NewId("LRN", |learners|), Normalize(email)))
            && (r.Accept? ==> r.value == NewId("LRN", |learners|))
            && (check.Refuse? ==> r == Refuse(check.error))
            && (check.Accept? && r.Refuse? ==> r.error == AlreadyRegistered)
  {
    match LearnerRegistrationCheck(email, password)
    case Refuse(e) => Refuse(e)
    case Accept(_) =>
      var lid := NewId("LRN", |learners|);
      if LearnerClash(learners, lid, Normalize(email)) then Refuse(AlreadyRegistered) else Accept(lid)
  }

  /** The learners table after the registration route: one unapproved row more on
      success, unchanged on refusal. */
  function LearnersAfterSignup(learners: seq<Learner>, email: string, password: string,
                               profile: LearnerProfile, today: string): (r: seq<Learner>)
    ensures LearnerSignup(learners, email, password).Refuse? ==> r == learners
    ensures LearnerSignup(learners, email, password).Accept? ==>
              r == learners + [NewLearnerRow(LearnerSignup(learners, email, password).value,
                                             email, password, profile, today)]
  {
    match LearnerSignup(learners, email, password)
    case Refuse(_) => learners
    case Accept(lid) => learners + [NewLearnerRow(lid, email, password, profile, today)]
  }

  /** Learner identifiers and addresses are distinct, as the table's constraints keep them. */
  ghost predicate LearnersUnique(learners: seq<Learner>)
  {
    forall i, j :: 0 <= i < j < |learners| ==>
      learners[i].learnerId != learners[j].learnerId && learners[i].email != learners[j].email
  }

  /** Every stored learner address is in lower case, as registration stores it. */
  ghost predicate LearnerEmailsLower(learners: seq<Learner>)
  {
    forall i :: 0 <= i < |learners| ==> IsLower(learners[i].email)
  }

  /** Appending a row whose id and address clash with no stored row keeps the
      learner ids and addresses distinct. */
  lemma AppendKeepsLearnersUnique(learners: seq<Learner>, row: Learner)
    requires LearnersUnique(learners)
    requires !LearnerClash(learners, row.learnerId, row.email)
    ensures LearnersUnique(learners + [row])
  {
    var r := learners + [row];
    forall i, j | 0 <= i < j < |r|
      ensures r[i].learnerId != r[j].learnerId && r[i].email != r[j].email
    {
      assert r[i] == learners[i];
      if j < |learners| { assert r[j] == learners[j]; }
    }
  }

  /** Registration keeps learner ids and addresses distinct. */
  lemma LearnerSignupKeepsUnique(learners: seq<Learner>, email: string, password: string,
                                 profile: LearnerProfile, today: string)
    requires LearnersUnique(learners)
    ensures LearnersUnique(LearnersAfterSignup(learners, email, password, profile, today))
  {
    var d := LearnerSignup(learners, email, password);
    if d.Accept? {
      var row := NewLearnerRow(d.value, email, password, profile, today);
      assert !LearnerClash(learners, row.learnerId, row.email);
      AppendKeepsLearnersUnique(learners, row);
    }
  }

  /** Appending a row with a lower-case address keeps every address in lower case. */
  lemma AppendKeepsEmailsLower(learners: seq<Learner>, row: Learner)
    requires LearnerEmailsLower(learners) && IsLower(row.email)
    ensures LearnerEmailsLower(learners + [row])
  {
    var r := learners + [row];
    forall i | 0 <= i < |r| ensures IsLower(r[i].email) {
      if i < |learners| { assert r[i] == learners[i]; }
    }
  }

  /** Registration keeps every learner address in lower case. */
  lemma LearnerSignupKeepsEmailsLower(learners: seq<Learner>, email: string, password: string,
                                      profile: LearnerProfile, today: string)
    requires LearnerEmailsLower(learners)
    ensures LearnerEmailsLower(LearnersAfterSignup(learners, email, password, profile, today))
  {
    var d := LearnerSignup(learners, email, password);
    if d.Accept? {
      AppendKeepsEmailsLower(learners, NewLearnerRow(d.value, email, password, profile, today));
    }
  }

  /** With every stored address in lower case, an address not stored yet matches no
      stored learner, whatever the password. */
  lemma NoLearnerMatch(learners: seq<Learner>, email: string, password: string)
    requires LearnerEmailsLower(learners)
    requires forall i :: 0 <= i < |learners| ==> learners[i].email != Normalize(email)
    ensures forall j :: 0 <= j < |learners| ==> !LearnerMatches(learners[j], Normalize(email), HashPassword(password))
  {
    forall j | 0 <= j < |learners| ensures !LearnerMatches(learners[j], Normalize(email), HashPassword(password)) {
      LowerIsLower(learners[j].email);
    }
  }
}
