/** End-to-end properties that follow a person through several routes: signing in
    after registering, and the identifier collision that rejection causes. */
module Journeys {

  import opened Text
  import opened Tables
  import opened Records
  import opened Ids
  import opened Identity
  import opened Enrollment
  import opened Signup

  /** The search finds an appended row when no earlier row matches. */
  lemma FindsAppendedStaff(staff: seq<Staff>, row: Staff, e: string, h: Digest)
    requires forall i :: 0 <= i < |staff| ==> !StaffMatches(staff[i], e, h)
    requires StaffMatches(row, e, h)
    ensures FindStaff(staff + [row], e, h) == Some(|staff|)
  {
    var r := staff + [row];
    assert StaffMatches(r[|staff|], e, h);
  }

  /** A staff row whose address is new to the table and in lower case signs in
      with the password whose digest it holds, unless those are the override
      account's credentials, which are checked first. */
  lemma NewStaffRowSignsIn(staff: seq<Staff>, row: Staff, email: string, password: string)
    requires forall i :: 0 <= i < |staff| ==> IsLower(staff[i].email) && staff[i].email != row.email
    requires row.email == Normalize(email) && row.password == HashPassword(password)
    ensures StaffLogin(staff + [row], email, password) ==
              if IsMaster(Normalize(email), HashPassword(password)) then SignedIn(MasterUser())
              else SignedIn(StaffUserOf(row))
  {
    NoStaffMatch(staff, email, password);
    LowerIsLower(Normalize(email));
    FindsAppendedStaff(staff, row, Normalize(email), HashPassword(password));
  }

  /** Whoever registers as staff can sign in straight away with the same address and
      password (as the override account if those are its credentials), provided every
      stored address is in lower case. Registration stores addresses in lower case,
      but the profile update stores them as given; `ShadowedRegistration` shows what
      happens otherwise. */
  lemma RegisteredStaffSignsIn(staff: seq<Staff>, email: string, password: string,
                               profile: StaffProfile, today: string)
    requires forall i :: 0 <= i < |staff| ==> IsLower(staff[i].email)
    requires StaffSignup(staff, email, password).Accept?
    ensures var (sid, role) := StaffSignup(staff, email, password).value;
            var row := NewStaffRow(sid, email, password, role, profile, today);
            StaffLogin(StaffAfterSignup(staff, email, password, profile, today), email, password) ==
              if IsMaster(Normalize(email), HashPassword(password)) then SignedIn(MasterUser())
              else SignedIn(StaffUserOf(row))
  {
    var (sid, role) := StaffSignup(staff, email, password).value;
    var row := NewStaffRow(sid, email, password, role, profile, today);
    NewStaffRowSignsIn(staff, row, email, password);
  }

  /** A staff address that differs from a registrant's only in letter case (the
      profile update stores addresses as given) does not clash with it, because
      `UNIQUE` compares exactly; but the login compares `LOWER(email)` and takes the
      first row, so when the passwords agree the new member signs in as the earlier
      one. */
  lemma ShadowedRegistration(a: Staff, email: string, password: string,
                             profile: StaffProfile, today: string)
    requires a.staffId == NewId("STF", 0)
    requires a.email != Normalize(email) && Lower(a.email) == Normalize(email)
    requires a.password == HashPassword(password)
    requires StaffRegistrationCheck(email, password).Accept?
    requires !IsMaster(Normalize(email), HashPassword(password))
    ensures StaffSignup([a], email, password).Accept?
    ensures StaffLogin(StaffAfterSignup([a], email, password, profile, today), email, password) ==
              SignedIn(StaffUserOf(a))
  {
    NewIdInjective("STF", 1, 0);
    NoClashWithOne(a, NewId("STF", 1), Normalize(email));
    var rows := StaffAfterSignup([a], email, password, profile, today);
    assert |rows| == 2 && rows[0] == a;
    assert FirstStaffMatch(rows, Normalize(email), HashPassword(password), 0);
  }

  /** A one-row staff table clashes only with that row's id or address. */
  lemma NoClashWithOne(a: Staff, sid: string, email: string)
    requires a.staffId != sid && a.email != email
    ensures !StaffClash([a], sid, email)
  {
    forall i | 0 <= i < |[a]| ensures [a][i].staffId != sid && [a][i].email != email {
      assert [a][i] == a;
    }
  }

  /** Capitalising the leading `b` of a text without capitals is undone by
      lower-casing. */
  lemma LowerLeadingCapital(e: string)
    requires IsLower(e) && e != [] && e[0] == 'b'
    ensures Lower(['B'] + e[1..]) == e
  {
    var s := ['B'] + e[1..];
    forall i | 0 <= i < |s| ensures Lower(s)[i] == e[i] {
      if i > 0 {
        assert s[i] == e[i];
      }
    }
  }

  /** The registrant of the shadowing example: `bob@nyatsimestaff.ac.zw` is a
      valid teacher registration and not the override account. */
  lemma ShadowingRegistrant(local: string)
    requires local == "bob"
    ensures var e := local + "@" + STAFF_DOMAIN;
            && Normalize(e) == e && IsLower(e)
            && StaffRegistrationCheck(e, "secret1") == Accept(Teacher)
            && !IsMaster(Normalize(e), HashPassword("secret1"))
  {
    var e := local + "@" + STAFF_DOMAIN;
    assert PlainLocalPart(local);
    StaffDomainRoles(local, "secret1");
    PlainDomain(STAFF_DOMAIN);
    PlainAddress(local, STAFF_DOMAIN);
    LowerAddress(local, STAFF_DOMAIN);
    assert |e| != |MASTER_EMAIL|;
  }

  /** The member of the shadowing example: stored as `Bob@nyatsimestaff.ac.zw`, an
      address `UNIQUE` tells apart from the registrant's but `LOWER` does not.
      With `ShadowingRegistrant`, this meets the conditions of `ShadowedRegistration`. */
  lemma ShadowingExample(local: string)
    requires local == "bob"
    ensures var e := local + "@" + STAFF_DOMAIN;
            var stored := ['B'] + e[1..];
            stored != e && Lower(stored) == e
  {
    var e := local + "@" + STAFF_DOMAIN;
    PlainDomain(STAFF_DOMAIN);
    assert IsLower(local);
    LowerAddress(local, STAFF_DOMAIN);
    assert local[0] == 'b';
    assert e[0] == local[0];
    LowerLeadingCapital(e);
  }

  /** A registered learner's address is a student address, never the override account's. */
  lemma LearnerIsNotMaster(email: string, password: string)
    requires LearnerRegistrationCheck(email, password).Accept?
    ensures !IsMaster(Normalize(email), HashPassword(password))
  {
    NormalizeIdempotent(email);
    if Normalize(email) == MASTER_EMAIL {
      MasterAddressDomain();
      DomainsDistinct();
    }
  }

  /** The searches find an appended row under its approval flag, and nothing under
      the other flag, when no earlier row matches. */
  lemma {:induction false} FindsAppendedLearner(learners: seq<Learner>, row: Learner, e: string, h: Digest)
    requires forall i :: 0 <= i < |learners| ==> !LearnerMatches(learners[i], e, h)
    requires LearnerMatches(row, e, h)
    ensures FindLearner(learners + [row], e, h, row.approved) == Some(|learners|)
    ensures FindLearner(learners + [row], e, h, !row.approved) == None
  {
    var r := learners + [row];
    if learners == [] {
      assert r == [row] && r[1..] == [];
    } else {
      var rest := learners[1..];
      assert r[0] == learners[0] && r[1..] == rest + [row];
      assert !LearnerMatches(learners[0], e, h);
      forall i | 0 <= i < |rest| ensures !LearnerMatches(rest[i], e, h) {
        assert rest[i] == learners[i + 1];
      }
      FindsAppendedLearner(rest, row, e, h);
    }
  }

  /** A learner row whose address is new to the table and in lower case is told
      "pending" while unapproved and signs in once approved. */
  lemma NewLearnerRowLogin(learners: seq<Learner>, row: Learner, email: string, password: string)
    requires LearnerEmailsLower(learners)
    requires forall i :: 0 <= i < |learners| ==> learners[i].email != row.email
    requires row.email == Normalize(email) && row.password == HashPassword(password)
    requires !IsMaster(Normalize(email), HashPassword(password))
    ensures LearnerLogin(learners + [row], email, password) ==
              if row.approved then SignedIn(LearnerUserOf(row)) else PendingApproval
  {
    NoLearnerMatch(learners, email, password);
    LowerIsLower(Normalize(email));
    FindsAppendedLearner(learners, row, Normalize(email), HashPassword(password));
  }

  /** Approving the identifier of an appended row, which no earlier row carries,
      approves that row alone. */
  lemma ApproveAppended(learners: seq<Learner>, row: Learner)
    requires forall i :: 0 <= i < |learners| ==> learners[i].learnerId != row.learnerId
    ensures Approve(learners + [row], row.learnerId) == learners + [row.(approved := true)]
  {
    var a := Approve(learners + [row], row.learnerId);
    assert forall i :: 0 <= i < |learners| ==> a[i] == learners[i];
  }

  /** The whole enrolment path: a newly registered learner is told the account is
      pending approval; once an admin approves it, the same credentials sign in as
      that learner. */
  lemma RegisterApproveSignIn(learners: seq<Learner>, email: string, password: string,
                              profile: LearnerProfile, today: string)
    requires LearnerEmailsLower(learners)
    requires LearnerSignup(learners, email, password).Accept?
    ensures var r := LearnersAfterSignup(learners, email, password, profile, today);
            LearnerLogin(r, email, password) == PendingApproval
    ensures var lid := LearnerSignup(learners, email, password).value;
            var r := LearnersAfterSignup(learners, email, password, profile, today);
            LearnerLogin(Approve(r, lid), email, password) ==
              SignedIn(LearnerUserOf(NewLearnerRow(lid, email, password, profile, today).(approved := true)))
  {
    var lid := LearnerSignup(learners, email, password).value;
    var row := NewLearnerRow(lid, email, password, profile, today);
    LearnerIsNotMaster(email, password);
    NewLearnerRowLogin(learners, row, email, password);
    ApproveAppended(learners, row);
    NewLearnerRowLogin(learners, row.(approved := true), email, password);
  }

  /** Rejecting a pending learner, in a table filled by registration alone, removes
      exactly that learner's row. */
  lemma RejectAllocated(learners: seq<Learner>, k: nat)
    requires forall i :: 0 <= i < |learners| ==> learners[i].learnerId == NewId("LRN", i)
    requires k < |learners| && !learners[k].approved
    ensures Reject(learners, learners[k].learnerId) == learners[..k] + learners[k + 1..]
  {
    var lid := learners[k].learnerId;
    forall i | 0 <= i < |learners| && i != k ensures !PendingWith(lid)(learners[i]) {
      NewIdInjective("LRN", i, k);
    }
    DeleteWhereSingle(learners, PendingWith(lid), k);
  }

  /** The identifier collision: in a learners table filled by registration alone,
      rejecting any pending learner but the newest makes the next registration
      allocate the identifier of the newest learner, so every later registration,
      whatever its address, is refused as already registered. */
  lemma RejectThenSignupCollides(learners: seq<Learner>, k: nat, email: string, password: string)
    requires forall i :: 0 <= i < |learners| ==> learners[i].learnerId == NewId("LRN", i)
    requires k < |learners| - 1 && !learners[k].approved
    requires LearnerRegistrationCheck(email, password).Accept?
    ensures LearnerSignup(Reject(learners, learners[k].learnerId), email, password) == Refuse(AlreadyRegistered)
  {
    RejectAllocated(learners, k);
    var r := Reject(learners, learners[k].learnerId);
    NextIdTaken(learners, k);
    TakenIdRefused(r, email, password);
  }

  /** After removing a row other than the last from an allocated table, the next
      allocation is the identifier of the last row, which is still there. */
  lemma NextIdTaken(learners: seq<Learner>, k: nat)
    requires forall i :: 0 <= i < |learners| ==> learners[i].learnerId == NewId("LRN", i)
    requires k < |learners| - 1
    ensures var r := learners[..k] + learners[k + 1..];
            exists i :: 0 <= i < |r| && r[i].learnerId == NewId("LRN", |r|)
  {
    var r := learners[..k] + learners[k + 1..];
    var n := |learners|;
    assert |r| == n - 1;
    assert r[n - 2] == learners[n - 1];
  }

  /** A registration whose allocated identifier is taken is refused as already registered. */
  lemma TakenIdRefused(learners: seq<Learner>, email: string, password: string)
    requires LearnerRegistrationCheck(email, password).Accept?
    requires exists i :: 0 <= i < |learners| && learners[i].learnerId == NewId("LRN", |learners|)
    ensures LearnerSignup(learners, email, password) == Refuse(AlreadyRegistered)
  {
    assert LearnerClash(learners, NewId("LRN", |learners|), Normalize(email));
  }

  /** Two addresses that differ only in the case of ASCII letters pass or fail the
      registration checks alike. */
  lemma CaseInsensitiveChecks(a: string, b: string, password: string)
    requires SameIgnoringCase(a, b)
    ensures StaffRegistrationCheck(a, password) == StaffRegistrationCheck(b, password)
    ensures LearnerRegistrationCheck(a, password) == LearnerRegistrationCheck(b, password)
  {
    NormalizeIgnoresCase(a, b);
  }

  /** Two addresses that differ only in the case of ASCII letters are the same
      address to the staff registration route. */
  lemma CaseInsensitiveStaffSignup(staff: seq<Staff>, a: string, b: string, password: string)
    requires SameIgnoringCase(a, b)
    ensures StaffSignup(staff, a, password) == StaffSignup(staff, b, password)
  {
    CaseInsensitiveChecks(a, b, password);
    NormalizeIgnoresCase(a, b);
  }

  /** Two addresses that differ only in the case of ASCII letters are the same
      address to the learner registration route. */
  lemma CaseInsensitiveLearnerSignup(learners: seq<Learner>, a: string, b: string, password: string)
    requires SameIgnoringCase(a, b)
    ensures LearnerSignup(learners, a, password) == LearnerSignup(learners, b, password)
  {
    CaseInsensitiveChecks(a, b, password);
    NormalizeIgnoresCase(a, b);
  }

  /** Two addresses that differ only in the case of ASCII letters are the same
      address to all three login routes. */
  lemma CaseInsensitiveLogin(staff: seq<Staff>, learners: seq<Learner>, a: string, b: string,
                             password: string)
    requires SameIgnoringCase(a, b)
    ensures MasterLogin(a, password) == MasterLogin(b, password)
    ensures StaffLogin(staff, a, password) == StaffLogin(staff, b, password)
    ensures LearnerLogin(learners, a, password) == LearnerLogin(learners, b, password)
  {
    NormalizeIgnoresCase(a, b);
  }
}
