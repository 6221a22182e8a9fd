/** Library circulation: the textbook and book-issue rows, issuing a copy and
    recording its return. */
module Circulation {

  import opened Tables
  import opened Records

  /** The row `POST /api/textbooks` inserts; `copies_issued` takes its default 0. */
  function NewTextbook(bookId: string, title: string, subject: string, gradeLevel: string,
                       author: string, publisher: string, isbn: string, edition: string,
                       totalCopies: int, conditionNotes: string): (b: Textbook)
    ensures b.bookId == bookId && b.totalCopies == totalCopies && b.copiesIssued == 0
  {
    Textbook(bookId, title, subject, gradeLevel, author, publisher, isbn, edition,
             totalCopies, 0, conditionNotes)
  }

  /** The row `POST /api/book-issues` inserts: the book is out, so the return date
      and the condition on return are NULL. */
  function NewIssue(issueId: string, bookId: string, learnerId: string, issuedBy: string,
                    dateIssued: string, dueDate: string, conditionOut: string, notes: string): (s: BookIssue)
    ensures s.issueId == issueId && s.bookId == bookId && s.learnerId == learnerId
    ensures s.dateReturned.None? && s.conditionIn.None?
  {
    BookIssue(issueId, bookId, learnerId, issuedBy, dateIssued, dueDate, None, conditionOut, None, notes)
  }

  /** `UPDATE textbooks SET copies_issued=copies_issued+1 WHERE book_id=?`: no check
      against `total_copies`, and no check that the book exists. */
  function CheckOut(books: seq<Textbook>, bookId: string): (r: seq<Textbook>)
    ensures |r| == |books|
    ensures forall i :: 0 <= i < |r| ==>
              r[i] == if books[i].bookId == bookId then books[i].(copiesIssued := books[i].copiesIssued + 1)
                      else books[i]
  {
    UpdateWhere(books, (b: Textbook) => b.bookId == bookId,
                       (b: Textbook) => b.(copiesIssued := b.copiesIssued + 1))
  }

  function Max(a: int, b: int): int
  {
    if a >= b then a else b
  }

  /** `UPDATE textbooks SET copies_issued=MAX(0,copies_issued-1) WHERE book_id=?` */
  function CheckIn(books: seq<Textbook>, bookId: string): (r: seq<Textbook>)
    ensures |r| == |books|
    ensures forall i :: 0 <= i < |r| ==>
              r[i] == if books[i].bookId == bookId then books[i].(copiesIssued := Max(0, books[i].copiesIssued - 1))
                      else books[i]
    ensures forall i :: 0 <= i < |r| && books[i].bookId == bookId ==> r[i].copiesIssued >= 0
  {
    UpdateWhere(books, (b: Textbook) => b.bookId == bookId,
                       (b: Textbook) => b.(copiesIssued := Max(0, b.copiesIssued - 1)))
  }

  /** `UPDATE book_issues SET date_returned=?, condition_in=? WHERE issue_id=?` */
  function MarkReturned(issues: seq<BookIssue>, issueId: string, today: string, conditionIn: string): (r: seq<BookIssue>)
    ensures |r| == |issues|
    ensures forall i :: 0 <= i < |r| ==>
              r[i] == if issues[i].issueId == issueId
                      then issues[i].(dateReturned := Some(today), conditionIn := Some(conditionIn))
                      else issues[i]
  {
    UpdateWhere(issues, (s: BookIssue) => s.issueId == issueId,
                        (s: BookIssue) => s.(dateReturned := Some(today), conditionIn := Some(conditionIn)))
  }

  /** `SELECT * FROM book_issues WHERE issue_id=?` with `fetchone()`. */
  function FindIssue(issues: seq<BookIssue>, issueId: string): (r: Option<BookIssue>)
    ensures r.Some? ==> r.value in issues && r.value.issueId == issueId
    ensures r.None? <==> forall i :: 0 <= i < |issues| ==> issues[i].issueId != issueId
  {
    if issues == [] then None
    else if issues[0].issueId == issueId then Some(issues[0])
    else FindIssue(issues[1..], issueId)
  }

  /** No count of issued copies is negative. */
  ghost predicate CountsNonNegative(books: seq<Textbook>)
  {
    forall i :: 0 <= i < |books| ==> books[i].copiesIssued >= 0
  }

  /** Issuing and returning both keep every count non-negative; a return can never
      drive a count below zero, whatever it was. */
  lemma CountsStayNonNegative(books: seq<Textbook>, bookId: string)
    requires CountsNonNegative(books)
    ensures CountsNonNegative(CheckOut(books, bookId))
    ensures CountsNonNegative(CheckIn(books, bookId))
  {
  }

  /** Issuing a copy and then returning it restores every count exactly. */
  lemma IssueThenReturn(books: seq<Textbook>, bookId: string)
    requires CountsNonNegative(books)
    ensures CheckIn(CheckOut(books, bookId), bookId) == books
  {
    var r := CheckIn(CheckOut(books, bookId), bookId);
    assert forall i :: 0 <= i < |r| ==> r[i] == books[i];
  }

  /** Issuing is not capped by the number of copies: three issues of a two-copy
      title leave three copies out. */
  lemma OverIssue(b: Textbook)
    requires b == NewTextbook("BK-0001", "Algebra", "Mathematics", "Form 1", "", "", "", "", 2, "")
    ensures var books := CheckOut(CheckOut(CheckOut([b], "BK-0001"), "BK-0001"), "BK-0001");
            books[0].copiesIssued == 3 > books[0].totalCopies
  {
  }

  /** Nothing stops a second return of the same issue: it decrements the count again,
      so after two copies are issued and one of them is returned twice, no copy is
      counted as out although the other is. */
  lemma RepeatedReturn(b: Textbook, first: BookIssue, second: BookIssue)
    requires b == NewTextbook("BK-0001", "Algebra", "Mathematics", "Form 1", "", "", "", "", 2, "")
    requires first == NewIssue("ISS-0001", "BK-0001", "LRN-0001", "", "", "", "Good", "")
    requires second == NewIssue("ISS-0002", "BK-0001", "LRN-0002", "", "", "", "Good", "")
    ensures var issued := CheckOut(CheckOut([b], "BK-0001"), "BK-0001");
            var issues := MarkReturned(MarkReturned([first, second], "ISS-0001", "", "Good"), "ISS-0001", "", "Good");
            var books := CheckIn(CheckIn(issued, "BK-0001"), "BK-0001");
            issued[0].copiesIssued == 2 && FindIssue(issues, "ISS-0001").Some? &&
            issues[1].dateReturned.None? && books[0].copiesIssued == 0
  {
  }
}
