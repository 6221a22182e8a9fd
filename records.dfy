/** The rows of the portal's tables (one datatype per table), the password digest,
    and the profile fields a registration request carries. Text columns are strings,
    money columns are exact reals, 0/1 flag columns are booleans. */
module Records {

  import opened Tables

  /** `hash_pw`: SHA-256 of the password. The model keeps only what the portal
      relies on, that equal digests come from equal passwords. */
  datatype Digest = Sha256(plain: string)

  function HashPassword(password: string): Digest
  {
    Sha256(password)
  }

  /** A row of `staff`. */
  datatype Staff = Staff(
    staffId: string, firstName: string, lastName: string, email: string, password: Digest,
    phone: string, address: string, idNumber: string, subject: string, classesTaught: string,
    nextOfKinName: string, nextOfKinPhone: string, dateEmployed: string, role: string,
    gender: string, dateOfBirth: string, qualification: string, photo: string,
    status: string, approved: bool)

  /** A row of `learners`. */
  datatype Learner = Learner(
    learnerId: string, firstName: string, lastName: string, email: string, password: Digest,
    phone: string, address: string, idNumber: string, grade: string, dateOfBirth: string,
    gender: string, nextOfKinName: string, nextOfKinRelationship: string,
    nextOfKinPhone: string, nextOfKinEmail: string, enrollmentDate: string,
    status: string, feesBlocked: bool, approved: bool)

  datatype FeeStatus = Unpaid | Partial | Paid

  /** A row of `fees`. */
  datatype Fee = Fee(
    feeId: string, learnerId: string, description: string, amount: real, paid: real,
    dueDate: string, term: string, academicYear: string, status: FeeStatus, dateCreated: string)

  /** A row of `fee_payments`. */
  datatype Payment = Payment(
    paymentId: string, feeId: string, learnerId: string, amount: real, paymentMethod: string,
    reference: string, receivedBy: string, datePaid: string, notes: string)

  /** A row of `textbooks`. */
  datatype Textbook = Textbook(
    bookId: string, title: string, subject: string, gradeLevel: string, author: string,
    publisher: string, isbn: string, edition: string, totalCopies: int, copiesIssued: int,
    conditionNotes: string)

  /** A row of `book_issues`; `dateReturned` and `conditionIn` are NULL while the
      book is out. */
  datatype BookIssue = BookIssue(
    issueId: string, bookId: string, learnerId: string, issuedBy: string, dateIssued: string,
    dueDate: string, dateReturned: Option<string>, conditionOut: string,
    conditionIn: Option<string>, notes: string)

  /** A row of `attendance`. */
  datatype Attendance = Attendance(
    learnerId: string, date: string, status: string, grade: string, subject: string,
    staffId: string, reason: string)

  /** The free-text fields of a staff self-registration (absent fields are ""). */
  datatype StaffProfile = StaffProfile(
    firstName: string, lastName: string, subject: string, classesTaught: string,
    phone: string, gender: string, qualification: string, address: string, idNumber: string,
    dateOfBirth: string, nextOfKinName: string, nextOfKinPhone: string, photo: string)

  /** The free-text fields of a learner self-registration (absent fields are ""). */
  datatype LearnerProfile = LearnerProfile(
    firstName: string, lastName: string, grade: string, gender: string, phone: string,
    address: string, idNumber: string, dateOfBirth: string, nextOfKinName: string,
    nextOfKinRelationship: string, nextOfKinPhone: string, nextOfKinEmail: string)
}
