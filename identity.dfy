/** Identity and access: the e-mail domains that gate self-registration, the
    password-length rule, the hard-coded override ("master") account, and the
    login decisions of the staff, learner and master login routes. */
module Identity {

  import opened Text
  import opened Tables
  import opened Records
  import opened Ids

  const STAFF_DOMAIN: string := "nyatsimestaff.ac.zw"
  const STUDENT_DOMAIN: string := "nyatsimestudent.ac.zw"
  const ADMIN_DOMAIN: string := "admin.ac.zw"

  const MASTER_EMAIL: string := "felixmangwendeboss@nyatsimestaff.ac.zw"
  const MASTER_PASSWORD: string := "felixjaybee"
  const MASTER_HASH: Digest := HashPassword(MASTER_PASSWORD)

  /** Self-registration refuses passwords shorter than this. */
  const MIN_PASSWORD_LENGTH: nat := 6

  datatype Role = Teacher | Admin
  {
    /** The text stored in the `role` column. */
    function Name(): string
    {
      match this
      case Teacher => "Teacher"
      case Admin => "Admin"
    }
  }

  datatype RegistrationError = WrongDomain | PasswordTooShort | AlreadyRegistered

  datatype Decision<T> = Accept(value: T) | Refuse(error: RegistrationError)

  /** The checks of staff self-registration that come before the insert: the
      normalised address's domain picks the role, then the password length is checked. */
  function StaffRegistrationCheck(email: string, password: string): (r: Decision<Role>)
    ensures var d := EmailDomain(Normalize(email));
            && (r == Accept(Admin) <==> d == ADMIN_DOMAIN && |password| >= MIN_PASSWORD_LENGTH)
            && (r == Accept(Teacher) <==> d == STAFF_DOMAIN && |password| >= MIN_PASSWORD_LENGTH)
            && (r == Refuse(WrongDomain) <==> d != ADMIN_DOMAIN && d != STAFF_DOMAIN)
            && (r == Refuse(PasswordTooShort) <==>
                  (d == ADMIN_DOMAIN || d == STAFF_DOMAIN) && |password| < MIN_PASSWORD_LENGTH)
  {
    var d := EmailDomain(Normalize(email));
    var role := if d == ADMIN_DOMAIN then Some(Admin)
                else if d == STAFF_DOMAIN then Some(Teacher)
                else None;
    match role
    case None => Refuse(WrongDomain)
    case Some(role) =>
      if |password| < MIN_PASSWORD_LENGTH then Refuse(PasswordTooShort) else Accept(role)
  }

  /** The checks of learner self-registration that come before the insert: only the
      student domain is accepted, then the password length is checked. */
  function LearnerRegistrationCheck(email: string, password: string): (r: Decision<bool>)
    ensures var d := EmailDomain(Normalize(email));
            && (r.Accept? <==> d == STUDENT_DOMAIN && |password| >= MIN_PASSWORD_LENGTH)
            && (r == Refuse(WrongDomain) <==> d != STUDENT_DOMAIN)
            && (r == Refuse(PasswordTooShort) <==> d == STUDENT_DOMAIN && |password| < MIN_PASSWORD_LENGTH)
  {
    if EmailDomain(Normalize(email)) != STUDENT_DOMAIN then Refuse(WrongDomain)
    else if |password| < MIN_PASSWORD_LENGTH then Refuse(PasswordTooShort)
    else Accept(true)
  }

  /** A domain text that is already lower case and has no white space at its ends
      is taken as it is from an address `local@domain`. */
  lemma DomainOfPlainAddress(local: string, domain: string)
    requires '@' !in domain && IsLower(domain)
    requires domain == [] || (!IsSpace(domain[0]) && !IsSpace(domain[|domain| - 1]))
    ensures EmailDomain(local + "@" + domain) == domain
  {
    EmailDomainOfAddress(local, domain);
    LowerIsLower(domain);
    StripNoEdgeSpaces(domain);
  }

  /** A local part that is lower case and does not start with white space. */
  predicate PlainLocalPart(local: string)
  {
    IsLower(local) && (local == [] || !IsSpace(local[0]))
  }

  /** Whatever the (plain) local part, an address ending in `@admin.ac.zw` registers
      an Admin and one ending in `@nyatsimestaff.ac.zw` a Teacher, given a password of
      at least six characters; a student address is refused for staff. */
  lemma StaffDomainRoles(local: string, password: string)
    requires PlainLocalPart(local)
    requires |password| >= MIN_PASSWORD_LENGTH
    ensures StaffRegistrationCheck(local + "@" + ADMIN_DOMAIN, password) == Accept(Admin)
    ensures StaffRegistrationCheck(local + "@" + STAFF_DOMAIN, password) == Accept(Teacher)
    ensures StaffRegistrationCheck(local + "@" + STUDENT_DOMAIN, password) == Refuse(WrongDomain)
  {
    DomainsDistinct();
    PlainDomain(ADMIN_DOMAIN);
    PlainAddress(local, ADMIN_DOMAIN);
    PlainDomain(STAFF_DOMAIN);
    PlainAddress(local, STAFF_DOMAIN);
    PlainDomain(STUDENT_DOMAIN);
    PlainAddress(local, STUDENT_DOMAIN);
  }

  /** Learners register only with a `@nyatsimestudent.ac.zw` address: a staff address
      is refused. */
  lemma LearnerDomainOnly(local: string, password: string)
    requires PlainLocalPart(local)
    requires |password| >= MIN_PASSWORD_LENGTH
    ensures LearnerRegistrationCheck(local + "@" + STUDENT_DOMAIN, password) == Accept(true)
    ensures LearnerRegistrationCheck(local + "@" + STAFF_DOMAIN, password) == Refuse(WrongDomain)
  {
    DomainsDistinct();
    PlainDomain(STUDENT_DOMAIN);
    PlainAddress(local, STUDENT_DOMAIN);
    assert EmailDomain(Normalize(local + "@" + STUDENT_DOMAIN)) == STUDENT_DOMAIN;
    PlainDomain(STAFF_DOMAIN);
    PlainAddress(local, STAFF_DOMAIN);
    assert EmailDomain(Normalize(local + "@" + STAFF_DOMAIN)) == STAFF_DOMAIN;
  }

  /** The override address is a staff-domain address, so it can never register as a learner. */
  lemma MasterIsNoLearner(password: string)
    ensures LearnerRegistrationCheck(MASTER_EMAIL, password) == Refuse(WrongDomain)
  {
    DomainsDistinct();
    MasterAddressDomain();
  }

  /** The override address is `felixmangwendeboss@nyatsimestaff.ac.zw` as it stands. */
  lemma MasterAddressDomain()
    ensures EmailDomain(Normalize(MASTER_EMAIL)) == STAFF_DOMAIN
  {
    var local := "felixmangwendeboss";
    assert PlainLocalPart(local);
    PlainDomain(STAFF_DOMAIN);
    assert MASTER_EMAIL == local + "@" + STAFF_DOMAIN;
    PlainAddress(local, STAFF_DOMAIN);
  }

  lemma DomainsDistinct()
    ensures ADMIN_DOMAIN != STAFF_DOMAIN && ADMIN_DOMAIN != STUDENT_DOMAIN && STAFF_DOMAIN != STUDENT_DOMAIN
  {
    assert |ADMIN_DOMAIN| == 11 && |STAFF_DOMAIN| == 19 && |STUDENT_DOMAIN| == 21;
  }

  /** Each configured domain is lower case, free of `@` and of edge white space. */
  lemma PlainDomain(domain: string)
    requires domain in {ADMIN_DOMAIN, STAFF_DOMAIN, STUDENT_DOMAIN}
    ensures domain != [] && '@' !in domain && IsLower(domain)
    ensures !IsSpace(domain[0]) && !IsSpace(domain[|domain| - 1])
  {
  }

  /** An address made of a plain local part and a plain domain is left as it is by
      normalisation, and its domain is that domain. */
  lemma PlainAddress(local: string, domain: string)
    requires PlainLocalPart(local)
    requires domain != [] && '@' !in domain && IsLower(domain)
    requires !IsSpace(domain[0]) && !IsSpace(domain[|domain| - 1])
    ensures Normalize(local + "@" + domain) == local + "@" + domain
    ensures EmailDomain(local + "@" + domain) == domain
  {
    var s := local + "@" + domain;
    assert s[0] == (if local == [] then '@' else local[0]);
    assert s[|s| - 1] == domain[|domain| - 1];
    StripNoEdgeSpaces(s);
    LowerAddress(local, domain);
    LowerIsLower(s);
    DomainOfPlainAddress(local, domain);
  }

  lemma LowerAddress(local: string, domain: string)
    requires IsLower(local) && IsLower(domain)
    ensures IsLower(local + "@" + domain)
  {
    var s := local + "@" + domain;
    forall i | 0 <= i < |s| ensures !IsUpper(s[i]) {
      if i < |local| { assert s[i] == local[i]; }
      else if i > |local| { assert s[i] == domain[i - |local| - 1]; }
    }
  }

  // ---------------------------------------------------------------- logins

  /** What the staff and master login routes return as the signed-in user. */
  datatype StaffUser = StaffUser(
    id: string, name: string, email: string, subject: string, classes: string, role: string)

  /** What the learner login route returns as the signed-in user. */
  datatype LearnerUser = LearnerUser(
    id: string, name: string, email: string, grade: string, gender: string, feesBlocked: bool)

  datatype Login<U> = SignedIn(user: U) | PendingApproval | InvalidCredentials

  /** `is_master`: the override account is recognised by its address (after
      normalisation) and the digest of its fixed password. */
  predicate IsMaster(email: string, passwordHash: Digest)
  {
    Normalize(email) == MASTER_EMAIL && passwordHash == MASTER_HASH
  }

  /** `master_user()`: the override account, which is not a row of any table: its
      identifier is none the allocator hands out to staff, and its role is neither
      of the roles registration assigns. */
  function MasterUser(): (u: StaffUser)
    ensures forall n: nat :: u.id != NewId("STF", n)
    ensures u.role != Teacher.Name() && u.role != Admin.Name()
    ensures u.email == MASTER_EMAIL
  {
    var u := StaffUser("MASTER", "Felix Mangwende", MASTER_EMAIL, "All", "All", "Master");
    assert forall n: nat :: NewId("STF", n)[3] == '-';
    u
  }

  /** The override account as the learner login route presents it; its identifier
      is none the allocator hands out to learners. */
  function MasterLearnerUser(): (u: LearnerUser)
    ensures forall n: nat :: u.id != NewId("LRN", n)
    ensures u.email == MASTER_EMAIL && !u.feesBlocked
  {
    var u := LearnerUser("MASTER", "Felix Mangwende", MASTER_EMAIL, "All", "Male", false);
    assert forall n: nat :: NewId("LRN", n)[3] == '-';
    u
  }

  /** The override check compares the address after normalisation, so addresses that
      differ only in letter case are recognised alike. */
  lemma MasterCheckIgnoresCase(a: string, b: string, passwordHash: Digest)
    requires SameIgnoringCase(a, b)
    ensures IsMaster(a, passwordHash) <==> IsMaster(b, passwordHash)
  {
    NormalizeIgnoresCase(a, b);
  }

  /** The master login route: only the override credentials are accepted. */
  function MasterLogin(email: string, password: string): (r: Login<StaffUser>)
    ensures r.SignedIn? <==> Normalize(email) == MASTER_EMAIL && password == MASTER_PASSWORD
    ensures r.SignedIn? ==> r.user == MasterUser()
    ensures !r.PendingApproval?
  {
    if IsMaster(email, HashPassword(password)) then SignedIn(MasterUser()) else InvalidCredentials
  }

  /** `LOWER(email)=? AND password=?` for a staff row. */
  predicate StaffMatches(s: Staff, email: string, passwordHash: Digest)
  {
    Lower(s.email) == email && s.password == passwordHash
  }

  function StaffUserOf(s: Staff): StaffUser
  {
    StaffUser(s.staffId, s.firstName + " " + s.lastName, s.email, s.subject, s.classesTaught, s.role)
  }

  /** Row `i` is the first staff row that matches the credentials: the row
      `fetchone()` returns. */
  predicate FirstStaffMatch(staff: seq<Staff>, email: string, passwordHash: Digest, i: nat)
  {
    i < |staff| && StaffMatches(staff[i], email, passwordHash) &&
    forall j :: 0 <= j < i ==> !StaffMatches(staff[j], email, passwordHash)
  }

  /** The staff login route. The override account is checked first; otherwise the
      first staff row whose lower-cased address equals the normalised address and
      whose digest equals the password's digest signs in, and nothing else does. */
  function StaffLogin(staff: seq<Staff>, email: string, password: string): (r: Login<StaffUser>)
    ensures var e, h := Normalize(email), HashPassword(password);
            && (IsMaster(e, h) ==> r == SignedIn(MasterUser()))
            && (!IsMaster(e, h) ==>
                  && (r.SignedIn? <==> exists i :: 0 <= i < |staff| && StaffMatches(staff[i], e, h))
                  && (r.SignedIn? ==> exists i: nat :: FirstStaffMatch(staff, e, h, i) && r.user == StaffUserOf(staff[i])))
    ensures !r.PendingApproval?
  {
    var e, h := Normalize(email), HashPassword(password);
    if IsMaster(e, h) then SignedIn(MasterUser()) else StaffTableLogin(staff, e, h)
  }

  /** The staff-table part of the staff login: the first row matching the normalised
      address `e` and the digest `h` signs in, and nothing else does. */
  function StaffTableLogin(staff: seq<Staff>, e: string, h: Digest): (r: Login<StaffUser>)
    ensures r.SignedIn? <==> exists i :: 0 <= i < |staff| && StaffMatches(staff[i], e, h)
    ensures r.SignedIn? ==> exists i: nat :: FirstStaffMatch(staff, e, h, i) && r.user == StaffUserOf(staff[i])
    ensures !r.PendingApproval?
  {
    match FindStaff(staff, e, h)
    case Some(i) =>
      assert FirstStaffMatch(staff, e, h, i) && StaffMatches(staff[i], e, h);
      SignedIn(StaffUserOf(staff[i]))
    case None => InvalidCredentials
  }

  /** `SELECT * FROM staff WHERE LOWER(email)=? AND password=?` and `fetchone()`. */
  function FindStaff(staff: seq<Staff>, email: string, passwordHash: Digest): (r: Option<nat>)
    ensures r.Some? ==> FirstStaffMatch(staff, email, passwordHash, r.value)
    ensures r.None? <==> forall j :: 0 <= j < |staff| ==> !StaffMatches(staff[j], email, passwordHash)
  {
    if staff == [] then None
    else if StaffMatches(staff[0], email, passwordHash) then Some(0)
    else match FindStaff(staff[1..], email, passwordHash)
      case None => None
      case Some(k) => Some(k + 1)
  }

  /** `LOWER(email)=? AND password=?` for a learner row. */
  predicate LearnerMatches(l: Learner, email: string, passwordHash: Digest)
  {
    Lower(l.email) == email && l.password == passwordHash
  }

  function LearnerUserOf(l: Learner): LearnerUser
  {
    LearnerUser(l.learnerId, l.firstName + " " + l.lastName, l.email, l.grade, l.gender, l.feesBlocked)
  }

  /** A learner row with these credentials and this approval flag. */
  predicate LearnerWanted(l: Learner, email: string, passwordHash: Digest, approved: bool)
  {
    LearnerMatches(l, email, passwordHash) && l.approved == approved
  }

  /** Row `i` is the first approved learner row that matches the credentials: the
      row `fetchone()` returns. */
  predicate FirstLearnerMatch(learners: seq<Learner>, email: string, passwordHash: Digest, i: nat)
  {
    i < |learners| && LearnerWanted(learners[i], email, passwordHash, true) &&
    forall j :: 0 <= j < i ==> !LearnerWanted(learners[j], email, passwordHash, true)
  }

  /** `SELECT … FROM learners WHERE LOWER(email)=? AND password=? AND approved=?`
      and `fetchone()`: the first matching learner with the given approval flag. */
  function FindLearner(learners: seq<Learner>, email: string, passwordHash: Digest, approved: bool): (r: Option<nat>)
    ensures r.Some? ==> r.value < |learners| && LearnerWanted(learners[r.value], email, passwordHash, approved)
    ensures r.Some? ==> forall j :: 0 <= j < r.value ==> !LearnerWanted(learners[j], email, passwordHash, approved)
    ensures r.None? <==> forall j :: 0 <= j < |learners| ==> !LearnerWanted(learners[j], email, passwordHash, approved)
  {
    if learners == [] then None
    else if LearnerWanted(learners[0], email, passwordHash, approved) then Some(0)
    else
      var rest := learners[1..];
      assert forall j :: 0 <= j < |rest| ==> rest[j] == learners[j + 1];
      match FindLearner(rest, email, passwordHash, approved)
      case None => None
      case Some(k) => Some(k + 1)
  }

  /** The learner login route, with its three outcomes once the override account is
      ruled out: signed in when an approved learner matches the credentials, pending
      approval when only unapproved learners match, invalid when none matches. */
  function LearnerLogin(learners: seq<Learner>, email: string, password: string): (r: Login<LearnerUser>)
    ensures var e, h := Normalize(email), HashPassword(password);
            && (IsMaster(e, h) ==> r == SignedIn(MasterLearnerUser()))
            && (!IsMaster(e, h) ==> LearnerOutcome(learners, e, h, r))
  {
    var e, h := Normalize(email), HashPassword(password);
    if IsMaster(e, h) then SignedIn(MasterLearnerUser()) else LearnerTableLogin(learners, e, h)
  }

  /** The three outcomes of a learner login against the table, for the normalised
      address `e` and the digest `h`. */
  ghost predicate LearnerOutcome(learners: seq<Learner>, e: string, h: Digest, r: Login<LearnerUser>)
  {
    && (r.SignedIn? <==>
          exists i :: 0 <= i < |learners| && LearnerMatches(learners[i], e, h) && learners[i].approved)
    && (r.SignedIn? ==>
          exists i: nat :: FirstLearnerMatch(learners, e, h, i) && r.user == LearnerUserOf(learners[i]))
    && (r.PendingApproval? <==>
          (forall i :: 0 <= i < |learners| && LearnerMatches(learners[i], e, h) ==> !learners[i].approved) &&
          exists i :: 0 <= i < |learners| && LearnerMatches(learners[i], e, h))
    && (r.InvalidCredentials? <==>
          forall i :: 0 <= i < |learners| ==> !LearnerMatches(learners[i], e, h))
  }

  /** The learner-table part of the learner login. */
  function LearnerTableLogin(learners: seq<Learner>, e: string, h: Digest): (r: Login<LearnerUser>)
    ensures LearnerOutcome(learners, e, h, r)
  {
    match FindLearner(learners, e, h, true)
    case Some(i) =>
      assert FirstLearnerMatch(learners, e, h, i);
      SignedIn(LearnerUserOf(learners[i]))
    case None =>
      match FindLearner(learners, e, h, false)
      case Some(_) => PendingApproval
      case None => InvalidCredentials
  }

  /** The override credentials are accepted by every login route before any table
      is consulted, whatever the tables hold. */
  lemma MasterFirst(staff: seq<Staff>, learners: seq<Learner>, email: string, password: string)
    requires MasterLogin(email, password).SignedIn?
    ensures StaffLogin(staff, email, password) == SignedIn(MasterUser())
    ensures LearnerLogin(learners, email, password) == SignedIn(MasterLearnerUser())
  {
    NormalizeIdempotent(email);
    assert IsMaster(Normalize(email), HashPassword(password));
  }
}
