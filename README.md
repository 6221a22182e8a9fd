# Nyatsime Independent College portal — a verified model of its business rules

The portal is a single-process HTTP server (`app.py`) over an SQLite database.
This project models the rules inside its request handlers as Dafny code over
in-memory tables, and proves what those rules promise. The rules covered are:

- the identifier allocator `new_id`;
- e-mail domain parsing and the role gating of self-registration;
- the master override account and the staff and learner login decisions;
- the enrolment actions on learners;
- the fee ledger and the statistics built from it;
- library circulation;
- the attendance upsert;
- the staff profile update and the staff delete route.

Module layout:

| file | module | what it holds |
|---|---|---|
| `text.dfy` | `Text` | ASCII lower-casing, Python `strip()`, the address normalisation of the routes, `email_domain` |
| `tables.dfy` | `Tables` | `UPDATE … WHERE` and `DELETE … WHERE` on a table held as a sequence of rows |
| `ids.dfy` | `Ids` | `new_id` and its decimal and zero-fill formatting; uniqueness and collisions |
| `records.dfy` | `Records` | one datatype per table row; the password digest |
| `identity.dfy` | `Identity` | domains, registration checks, master account, login decisions |
| `enrollment.dfy` | `Enrollment` | approve / reject / block / unblock on the learners table |
| `signup.dfy` | `Signup` | registration as a whole: checks, next id, `UNIQUE` constraints, inserted row |
| `journeys.dfy` | `Journeys` | end-to-end properties: register, approve, sign in; reject, then collide |
| `ledger.dfy` | `Ledger` | fee rows, payment settlement, totals |
| `circulation.dfy` | `Circulation` | textbooks and book issues |
| `roll.dfy` | `Roll` | the attendance register and `INSERT OR REPLACE` |
| `personnel.dfy` | `Personnel` | staff profile patches and the staff delete route |
| `dashboard.dfy` | `Dashboard` | the statistics route |
| `store.dfy` | `School` | one class per table group with a method per route, and the invariants they keep |

The handlers change the database, so they are modelled as methods on classes in
`store.dfy`. Each table group is one class: `StaffTable`, `LearnerTable`,
`Bursary` (fees and payments), `Library` (textbooks and issues) and
`AttendanceRegister`. Every method:

- names in `modifies` only its own object;
- states the new contents of its tables as a function of the old ones, using the
  pure functions of the other modules;
- keeps the class invariant `Valid()`.

`Valid()` covers the schema's `UNIQUE` constraints and that the identifiers of
tables no modelled route deletes from are exactly the allocator's, in order. For
learners, it also says that addresses are stored in lower case. For fees, it says that
the status agrees with the paid amount. For textbooks, it says that no count of
issued copies is negative.

## Model

| member | source | states |
|---|---|---|
| Text.LowerChar | app.py:357 | one character's lower case is never an ASCII capital; a capital becomes its own small letter, 32 code points on; white space stays white space; every other character is unchanged |
| Text.Lower | app.py:357 | the lower-cased text has the same length and each character is the ASCII lower case of the original |
| Text.LowerIsLower | app.py:357 | lower-casing yields a text with no upper-case letter, and it leaves a text unchanged exactly when the text has none |
| Text.StripLeft | app.py:357 | the result is a suffix of the input, it does not start with white space, and everything it drops is white space |
| Text.StripRight | app.py:357 | the result is a prefix of the input, it does not end with white space, and everything it drops is white space |
| Text.Strip | app.py:357 | the stripped text is no longer than the input, and neither of its ends is white space |
| Text.StripIsSlice | app.py:357 | the stripped text is a contiguous part of the input: it is preceded only by white space and followed only by white space |
| Text.StripNoEdgeSpaces | app.py:357 | a text with no white space at either end is left unchanged by stripping |
| Text.Normalize | app.py:357 | `email.strip().lower()` contains no upper-case letter |
| Text.NormalizeIdempotent | app.py:357 | normalising an already normalised address changes nothing |
| Text.LowerIgnoresCase | app.py:357 | texts that differ only in the case of ASCII letters lower-case to the same text |
| Text.SameIgnoringCaseTail | app.py:357 | dropping the first or last character keeps two texts equal up to case, and case never decides whether a character is white space |
| Text.StripLeftIgnoresCase | app.py:357 | `lstrip` keeps two texts equal up to case |
| Text.StripRightIgnoresCase | app.py:357 | `rstrip` keeps two texts equal up to case |
| Text.NormalizeIgnoresCase | app.py:357 | addresses that differ only in the case of ASCII letters normalise to the same address |
| Text.AfterLast | app.py:41 | the text after the last occurrence of a separator is a suffix that does not contain the separator, and is preceded by it whenever the separator occurs |
| Text.EmailDomain | app.py:40-41 | an address without '@' has the empty domain, and a domain never contains '@' |
| Text.AfterLastOfSplit | app.py:41 | `split('@')[-1]` of `a + '@' + b` is `b` when `b` contains no '@' |
| Text.EmailDomainOfAddress | app.py:40-41 | the domain of `local@domain` is the lower-cased, stripped `domain` |
| Tables.UpdateWhere | app.py:504 | every matching row is transformed, every other row is unchanged, and the table keeps its length |
| Tables.DeleteWhere | app.py:506 | no surviving row matches, the table never grows, and with no match the table is unchanged |
| Tables.DeleteWhereMembers | app.py:506 | every surviving row was in the table, and every row that does not match survives |
| Tables.DeleteWhereKeepsDistinct | app.py:61-71 | deleting rows keeps the values of a key column pairwise distinct |
| Tables.DeleteWhereSingle | app.py:506 | when exactly one row matches, the delete removes exactly that row and keeps the order of the others |
| Tables.CountWhereIsSize | app.py:180-181 | `SELECT COUNT(*) … WHERE` counts exactly the positions of the rows that match |
| Ids.DigitChar | app.py:38 | the digit character of `d` is a digit with value `d` |
| Ids.Decimal | app.py:38 | `str(n)` is a non-empty string of digits without a leading zero, unless it is "0" |
| Ids.Zeros | app.py:38 | the zero padding of length k consists of k '0' characters |
| Ids.ZFill | app.py:38 | `zfill(width)` is a string of digits of length `max(len, width)`: the original preceded by zeros |
| Ids.NewId | app.py:36-38 | an identifier is at least five characters longer than its prefix |
| Ids.ValueOfDecimal | app.py:38 | reading back `str(n)` gives `n` |
| Ids.ValueOfZeros | app.py:38 | a string of zeros reads as 0 |
| Ids.ValueIgnoresZeros | app.py:38 | leading zeros do not change the number a string of digits denotes |
| Ids.NewIdRoundTrip | app.py:36-38 | the number after `PREFIX-` in `new_id` with `count` rows is `count + 1` |
| Ids.NewIdInjective | app.py:36-38 | two allocations in one table are equal exactly when they were made at the same row count |
| Ids.NewIdIncreasing | app.py:36-38 | the numbers of successive allocations strictly increase |
| Ids.InsertOnlyIdsUnique | app.py:36-38 | with inserts only, identifiers are pairwise distinct, and the next one is new and extends the sequence |
| Ids.CollisionAfterDelete | app.py:36-38 | after one row is deleted, the next allocation repeats a present identifier exactly when the deleted row was not the last |
| Ids.Formats | app.py:36-38 | `new_id` for 0 rows of learners is "LRN-0001"; for 12344 fee rows it is "FEE-12345" |
| Identity.StaffRegistrationCheck | app.py:404-414 | Admin exactly for the admin domain with a long enough password, Teacher exactly for the staff domain, refusal for any other domain, and for a short password otherwise |
| Identity.LearnerRegistrationCheck | app.py:439-447 | accepted exactly for the student domain with a password of at least 6 characters; the reason for refusal says which check failed |
| Identity.DomainOfPlainAddress | app.py:40-41 | an address built from a plain domain has that domain |
| Identity.StaffDomainRoles | app.py:406-411 | a plain address at the admin domain registers as Admin, at the staff domain as Teacher, and at the student domain is refused |
| Identity.LearnerDomainOnly | app.py:442-445 | a plain address at the student domain is accepted for learners, and at the staff domain is refused |
| Identity.MasterIsNoLearner | app.py:439-445 | the master address can never self-register as a learner |
| Identity.MasterAddressDomain | app.py:21 | the master address is at the staff domain |
| Identity.DomainsDistinct | app.py:16-18 | the three domains are pairwise different |
| Identity.PlainDomain | app.py:16-18 | each of the three domains is non-empty, lower case, without '@' and without white space at its ends |
| Identity.PlainAddress | app.py:40-41 | a plain address is its own normalisation and has its domain |
| Identity.LowerAddress | app.py:357 | joining two lower-case parts with '@' gives a lower-case address |
| Identity.MasterCheckIgnoresCase | app.py:159-160 | `is_master` accepts an address exactly when it accepts every address that differs from it only in the case of ASCII letters |
| Identity.MasterUser | app.py:43-45 | the master user is at the master address, has an id the allocator never hands to staff, and has neither registration role |
| Identity.MasterLearnerUser | app.py:377-379 | the master user shown by the learner login is at the master address, is not fee-blocked, and has an id the allocator never hands to learners |
| Identity.MasterLogin | app.py:350-353 | the master credentials succeed exactly for the normalised master address and the master password, and yield the master user |
| Identity.StaffLogin | app.py:356-371 | the master account first; otherwise success exactly when a row matches the lower-cased address and the digest, as the first such row; never "pending" |
| Identity.StaffTableLogin | app.py:362-371 | against the staff table: success exactly when some row matches the address and the digest, returning the first such row; never "pending" |
| Identity.FindStaff | app.py:362 | the position found is the first matching staff row; none is found exactly when no row matches |
| Identity.FindLearner | app.py:382-394 | the position found holds a learner row that matches with the given approval, and no earlier row does; none is found exactly when there is no such row |
| Identity.LearnerLogin | app.py:374-401 | master first; otherwise success iff an approved learner matches (as the first such row), "pending" iff none does but an unapproved one matches, otherwise invalid credentials |
| Identity.LearnerTableLogin | app.py:382-401 | against the learners table: the three outcomes (signed in as the first approved matching row, pending approval, invalid credentials) under exactly the conditions stated for the learner login |
| Identity.MasterFirst | app.py:356-380 | master credentials succeed on both login routes whatever the tables hold |
| Enrollment.Reject | app.py:505-506 | no pending row of the learner survives, the table never grows, and with no such row it is unchanged |
| Enrollment.RequestedAction | app.py:500 | a body without `action` approves; otherwise its own action runs |
| Enrollment.MissingActionApproves | app.py:500-504 | a request without an action approves every row with the learner id |
| Enrollment.ApplyAction | app.py:502-510 | only `reject` can remove rows; every other action keeps the length and each row's id and address; an unknown action changes nothing |
| Enrollment.Approve | app.py:503-504 | the rows with the learner id become approved, and every other row is unchanged |
| Enrollment.SetFeesBlocked | app.py:507-510 | the rows with the learner id get the blocked flag, and every other row is unchanged |
| Enrollment.ApproveIdempotent | app.py:503-504 | approving twice is approving once |
| Enrollment.ApproveApprovedNoop | app.py:503-504 | approving a learner who is already approved changes nothing |
| Enrollment.RejectRemovesOnlyPending | app.py:505-506 | after a reject, a row is present exactly when it was present and is approved or has another id |
| Enrollment.RejectApprovedNoop | app.py:505-506 | rejecting an approved learner changes nothing |
| Enrollment.FeeBlockKeepsApproval | app.py:507-510 | blocking or unblocking fees never changes an approval and sets the flag of the named learner; of two settings in a row, the later one wins |
| Enrollment.ApprovalIsPermanent | app.py:502-510 | under every action, including unknown ones, an approved learner stays in the table and stays approved |
| Signup.NewStaffRow | app.py:418-428 | the inserted staff row carries the new id, the normalised address, the digest, the role, "Active", approved, and today's date |
| Signup.StaffSignup | app.py:404-436 | success exactly when the checks pass and neither the next id nor the address is taken; the next `STF` id and the role are returned; a `UNIQUE` failure reads "Email already registered." |
| Signup.StaffAfterSignup | app.py:418-431 | one row more on success; the staff table is unchanged on refusal |
| Signup.StaffSignupKeepsUnique | app.py:418-431 | registration keeps staff ids and addresses distinct |
| Signup.NoStaffMatch | app.py:362 | with stored addresses in lower case, an address not stored yet matches no staff row |
| Signup.NewLearnerRow | app.py:451-461 | the inserted learner row carries the new id, the normalised address and the digest, is not approved and not blocked, and is "Active" from today |
| Signup.LearnerSignup | app.py:439-469 | success exactly when the checks pass and neither the next `LRN` id nor the address is taken; that id is returned |
| Signup.LearnersAfterSignup | app.py:451-464 | one unapproved row more on success; the learners table is unchanged on refusal |
| Signup.LearnerSignupKeepsUnique | app.py:451-464 | registration keeps learner ids and addresses distinct |
| Signup.AppendKeepsLearnersUnique | app.py:61-71 | a row clashing with no stored id or address keeps both columns distinct when inserted |
| Signup.LearnerSignupKeepsEmailsLower | app.py:440-461 | registration keeps every stored learner address in lower case |
| Signup.AppendKeepsEmailsLower | app.py:451-464 | inserting a row with a lower-case address keeps every stored address in lower case |
| Signup.NoLearnerMatch | app.py:382-384 | with stored addresses in lower case, an address not stored yet matches no learner |
| Journeys.FindsAppendedStaff | app.py:362 | a new staff row whose address is new is the only match for its credentials |
| Journeys.NewStaffRowSignsIn | app.py:356-371 | while every stored staff address is in lower case, a newly inserted staff member signs in with the address and password they registered with |
| Journeys.RegisteredStaffSignsIn | app.py:356-371 | while every stored staff address is in lower case, after a successful staff registration, login with the same credentials succeeds as that member, or as the master account |
| Journeys.ShadowedRegistration | app.py:356-436 | when an earlier member's address differs from the registrant's only in letter case and their passwords agree, registration is accepted but the registrant signs in as the earlier member |
| Journeys.ShadowingRegistrant | app.py:404-414 | `bob@nyatsimestaff.ac.zw` is already normalised, a valid teacher registration, and not the override account |
| Journeys.ShadowingExample | app.py:362 | `Bob@nyatsimestaff.ac.zw` differs from `bob@nyatsimestaff.ac.zw` but lower-cases to it |
| Journeys.LearnerIsNotMaster | app.py:439-445 | an address accepted for learner registration is never the master account |
| Journeys.FindsAppendedLearner | app.py:382-384 | a new learner whose address is new is the only match for its credentials |
| Journeys.NewLearnerRowLogin | app.py:374-401 | a newly inserted learner gets "pending approval" |
| Journeys.ApproveAppended | app.py:503-504 | approving a fresh learner approves exactly the last row |
| Journeys.RegisterApproveSignIn | app.py:374-401 | after a learner registers, login says "pending approval"; after approval, login succeeds as that learner |
| Journeys.RejectAllocated | app.py:505-506 | in a learners table with the allocator's ids, rejecting a pending learner removes exactly that row |
| Journeys.RejectThenSignupCollides | app.py:451-468 | rejecting a pending learner who is not the last makes the next valid registration fail with "Email already registered." |
| Journeys.NextIdTaken | app.py:36-38 | after that reject, the next `LRN` id is one a remaining learner holds |
| Journeys.TakenIdRefused | app.py:465-468 | a registration whose next id is taken is refused as already registered |
| Journeys.CaseInsensitiveChecks | app.py:404-447 | addresses that differ only in the case of ASCII letters pass or fail both registration checks alike |
| Journeys.CaseInsensitiveStaffSignup | app.py:404-436 | such addresses get the same answer from staff registration |
| Journeys.CaseInsensitiveLearnerSignup | app.py:439-469 | such addresses get the same answer from learner registration |
| Journeys.CaseInsensitiveLogin | app.py:350-401 | such addresses get the same outcome from the master, staff and learner logins |
| Ledger.NewFee | app.py:566-570 | a new fee has paid 0, status Unpaid, its own id and amount, and is consistent |
| Ledger.Settle | app.py:588-592 | a payment adds the amount to paid, sets Paid when paid reaches the amount and Partial otherwise, and changes no other column |
| Ledger.ApplyPayment | app.py:589-592 | the fees with the id are settled by the amount, and every other fee is unchanged |
| Ledger.PaymentsAccumulate | app.py:588-592 | after N payments, paid is the old paid plus their sum; with at least one, the status is Paid exactly when paid reaches the amount, and Partial otherwise |
| Ledger.NewFeePaidInFull | app.py:588-592 | after any number of payments, a new fee has paid their sum and its status agrees with it; with none it is Unpaid, and with at least one it is Paid exactly when the sum reaches the amount |
| Ledger.ApplyPaymentsPointwise | app.py:577-593 | several payments to one fee id settle each fee with that id by all of them and leave the others alone |
| Ledger.PartialThenPaid | app.py:588-592 | paying 40 of 100 gives Partial with balance 60; paying 60 more gives Paid with balance 0 |
| Ledger.TotalCollected | app.py:178 | the collected total is never negative while no fee has a negative amount paid |
| Ledger.TotalOutstanding | app.py:177-187 | the outstanding figure is the sum of the balances fee by fee |
| Ledger.OutstandingIsSumOfBalances | app.py:177-187 | the outstanding figure, total amount minus total paid, is the sum of the balances |
| Ledger.PaymentMovesTotals | app.py:588-592 | with distinct fee ids, a payment to an existing fee raises collected and lowers outstanding by the amount; for a missing fee nothing moves; the amount assessed never moves |
| Ledger.PaymentKeepsAssessed | app.py:588-592 | a payment never changes the total amount assessed |
| Ledger.PaymentAddsCollected | app.py:588-592 | with distinct fee ids, a payment to an existing fee raises the collected total by exactly the amount |
| Circulation.NewTextbook | app.py:617-623 | a new textbook has its id and total copies, and 0 copies issued |
| Circulation.NewIssue | app.py:632-637 | a new issue is for the given book and learner and is not returned yet |
| Circulation.CheckOut | app.py:638 | the matching book's count of issued copies goes up by exactly one, with no cap; every other book is unchanged |
| Circulation.CheckIn | app.py:681 | the matching book's count becomes `max(0, count - 1)`, so it is never negative; every other book is unchanged |
| Circulation.MarkReturned | app.py:679-680 | the matching issue gets the return date and condition; every other issue is unchanged |
| Circulation.FindIssue | app.py:677 | a found issue is in the table and has the id; nothing is found exactly when no issue has the id |
| Circulation.CountsStayNonNegative | app.py:681 | issuing and returning keep every count of issued copies non-negative |
| Circulation.IssueThenReturn | app.py:638 | an issue followed by a return of the same book restores every count |
| Circulation.OverIssue | app.py:629-639 | a book with 2 copies can be issued 3 times and then shows 3 copies issued |
| Circulation.RepeatedReturn | app.py:672-682 | returning the same issue twice lowers the count twice, to 0 while another issue of the book is still out |
| Roll.WithoutKey | app.py:537 | after removing the row of a key, a row is present exactly when it was present with another key |
| Roll.WithoutKeyUnique | app.py:84 | removing a key keeps one row per key |
| Roll.Upsert | app.py:537-541 | after `INSERT OR REPLACE`, the new record is the last row, and a row is present exactly when it is the record or an old row with another key |
| Roll.UpsertKeepsKeysUnique | app.py:537-541 | one upsert keeps one row per key |
| Roll.UpsertAll | app.py:536-541 | a batch adds at most one row per record, and its last record ends up as the last row |
| Roll.UpsertAllKeepsKeysUnique | app.py:536-541 | a whole batch keeps one row per key |
| Roll.SurvivesStep | app.py:536-541 | appending a record to a batch: a row survives iff it is that record, or has another key and survived before |
| Roll.LastRecordWins | app.py:536-541 | after a batch, a row is present exactly when it is an old row whose key no record names, or a record that no later record replaces |
| Roll.LastRecordIsKept | app.py:536-541 | the last record of a batch for each key is in the register |
| Personnel.Patched | app.py:661-665 | a patch never changes the id or the approval; the address and the password change exactly when given |
| Personnel.EmptyPatchIsIdentity | app.py:663-667 | a request with no updatable field, or with only an empty password, changes nothing |
| Personnel.PatchIdempotent | app.py:661-667 | sending the same update twice is sending it once |
| Personnel.PatchesCompose | app.py:661-667 | two updates in a row are one update with the merged body |
| Personnel.UpdateStaff | app.py:654-670 | refused exactly when the new address belongs to another member of an existing id; otherwise the row of the id is patched and every other row is unchanged |
| Personnel.UpdateKeepsStaffUnique | app.py:661-667 | an accepted update keeps staff ids and addresses distinct |
| Personnel.DeleteStaff | app.py:690-703 | not found unless the path segment is one or more word characters, Latin-1 letters and digits included; otherwise exactly the rows with other ids remain, and with no row of that id the table is unchanged |
| Personnel.DeleteStaffKeepsOrder | app.py:696-703 | when one row has the id, the table afterwards is the rows before it followed by the rows after it |
| Personnel.LatinSegmentIsDeleted | app.py:696 | segments made of accented letters, the micro sign and '_' are accepted by the route |
| Personnel.GeneratedIdsAreNotDeletable | app.py:696 | no generated staff id matches the delete route's pattern |
| Personnel.DeleteNeverRemovesGeneratedIds | app.py:696-703 | while every staff id is a generated one, the delete route never changes the staff table |
| Dashboard.ActivePlusPending | app.py:180-181 | approved plus pending learners is the number of learners |
| Dashboard.StatsOf | app.py:175-189 | the approved, pending and fee-blocked counts are the numbers of learner rows with that flag, and approved plus pending is every learner; staff and book counts; collected plus outstanding is the total assessed, and outstanding is the sum of the balances |
| Dashboard.ApproveMovesOne | app.py:180-181 | approving a pending learner moves exactly one learner from pending to approved |
| Dashboard.ApproveOthers | app.py:503-504 | approving an id that no row carries changes nothing |
| Dashboard.PaymentMovesStats | app.py:175-189 | a payment to an existing fee moves its amount from outstanding to collected, and one to a missing fee moves nothing |
| School.ActionKeepsLearners | app.py:498-511 | every enrolment action keeps learner ids and addresses distinct and in lower case |
| School.RejectKeepsLearners | app.py:505-507 | deleting a pending learner keeps ids and addresses distinct and in lower case |
| School.AppendKeepsStaffOk | app.py:36-38 | a row under the next id with a new id and address keeps the staff invariant |
| School.StaffSignupKeepsOk | app.py:404-436 | staff registration keeps the staff invariant |
| School.LearnerSignupKeepsOk | app.py:439-469 | learner registration keeps the learner invariant |
| School.AssessKeepsFeesOk | app.py:563-572 | a consistent fee under the next id keeps the fee invariant |
| School.PaymentKeepsFeesOk | app.py:588-592 | settling fees keeps their ids and their status consistent with what has been paid |
| School.AppendKeepsPaymentsOk | app.py:580-587 | a payment under the next id keeps the payment invariant |
| School.AppendKeepsBooksOk | app.py:617-623 | a book under the next id with no copies out keeps the textbook invariant |
| School.CirculationKeepsBooksOk | app.py:681 | issuing and returning keep the textbook invariant |
| School.AppendKeepsIssuesOk | app.py:632-637 | an issue under the next id keeps the issue invariant |
| School.StaffTable.constructor | app.py:51-59 | an empty staff table satisfies the invariant |
| School.StaffTable.Register | app.py:404-436 | the answer and the new staff table are those of the registration functions, and the invariant is kept |
| School.StaffTable.SignIn | app.py:356-371 | the staff login decision, with nothing changed |
| School.StaffTable.Update | app.py:654-670 | succeeds exactly when the constraint allows it; the table is the patched one, or unchanged on failure |
| School.StaffTable.Delete | app.py:690-704 | found exactly for word-character segments (Latin-1 letters and digits included), and the staff table never changes |
| School.LearnerTable.constructor | app.py:61-71 | an empty learners table satisfies the invariant |
| School.LearnerTable.Register | app.py:439-469 | the answer and the new learners table are those of the registration functions, and the invariant is kept |
| School.LearnerTable.SignIn | app.py:374-401 | the learner login decision, with nothing changed |
| School.LearnerTable.Act | app.py:498-514 | the learners table after the requested action, `approve` when none is given, and the invariant is kept |
| School.Bursary.constructor | app.py:92-103 | empty fee and payment tables satisfy the invariant |
| School.Bursary.Assess | app.py:563-575 | one Unpaid fee more under an id no fee holds yet, with the payments unchanged |
| School.Bursary.Pay | app.py:577-596 | one payment row more whether or not the fee exists, and the fees settled by the amount |
| School.Library.constructor | app.py:111-122 | empty textbook and issue tables satisfy the invariant |
| School.Library.AddTextbook | app.py:614-626 | one textbook more with no copies issued, with the issues unchanged |
| School.Library.Issue | app.py:629-642 | one issue more, and the book's count one higher |
| School.Library.Return | app.py:672-687 | not found and nothing changed for an unknown issue; otherwise the issue is marked returned and the book's count is floored at 0 |
| School.AttendanceRegister.constructor | app.py:80-84 | an empty register satisfies the invariant |
| School.AttendanceRegister.Record | app.py:532-545 | the loop upserts the records in order and keeps one row per key |
| School.Statistics | app.py:175-189 | the statistics of the modelled tables, whose counts are the numbers of rows with each flag |

## Left out

- HTTP serving, routing, reading the request body, JSON and CORS output, and `load_file` (app.py:135-173, 707-723). These are I/O. A route is modelled from the point where the body's fields are in hand.
- The SQLite connection, the schema and its migrations (app.py:28-32, 48-132) are left out. Tables are sequences of rows. The `UNIQUE` constraints are stated as invariants, and their violation is an error result.
- SHA-256 (app.py:22, 34) is not part of this model. `HashPassword` is an injective constructor of a `Digest`, so equal digests mean equal passwords.
- Amounts are Dafny `real`. This leaves out IEEE floating point, `float()` conversion (app.py:582) and the rounding to two decimals in the statistics (app.py:186-187).
- `date.today()` and the `CURRENT_DATE` and `CURRENT_TIMESTAMP` defaults become parameters (`today`, `now`).
- The read-only listings and the report route (app.py:191-340) are left out. They are filtered and ordered queries that change nothing.
- Marks, timetable and notices (app.py:517-529, 548-560, 599-611) are left out, together with their delete routes (app.py:693-695). The statistics route's `total_marks` and `total_notices` counts are left out for the same reason.
- The administrator's add-staff route (app.py:472-495) is left out. It is the staff insert without the registration checks. `School.StaffTable` models only self-registration, so its invariant does not cover rows that route would add, such as rows with an address stored as typed.
- A request body missing a required key (`body['learner_id']`, `body['amount']`, `body['title']`, `body['book_id']`) is left out. That raises an exception and changes nothing. The model's operations take every field as given.
- Defaulted body fields other than `action` (`payment_method`, `total_copies`, `condition_in`) are taken as given: the caller supplies the value `body.get` would produce. The default of `action` is modelled by `Enrollment.RequestedAction`.
- Personnel.DeleteStaff: code points above U+00FF count as non-word characters. Python's `\w` matches many of them, but a request path cannot hold them, because the request line is decoded as ISO-8859-1.
- JSON values that are not strings where the handlers expect strings are left out. So is a missing `learner_id` (`None`) in the approve route. Either way, the matching `WHERE` clause selects nothing.
- Messages of unexpected exceptions other than the `UNIQUE` failure are left out. So is the "Please use a @… email" wording: a refusal carries a reason, not a message.
- Unicode case folding beyond ASCII is left out: `Lower` maps only the letters A to Z, while Python's `str.lower()` also lowers other capitals. `Strip` removes exactly the characters Python's `str.isspace()` accepts.
- `new_id`'s count and the insert that follows are not atomic. Concurrent requests are left out; the model is sequential.
- Text.Strip: its own contract does not say that the result is a slice of the input. `Text.StripIsSlice` states that separately.
- School.StaffTable.Update: an update can store an address in upper case, because the update route does not normalise addresses. So the staff invariant does not include lower-case addresses, unlike the learner invariant.

## Notes on the source

- The staff delete route matches `^/api/staff/(\w+)$` (app.py:696). `\w` does not match '-', and every generated staff id contains one, so the route can never remove a generated staff row. It still answers success for any word-character segment. The conditional id collision that `new_id` allows after a deletion can therefore only arise in the learners table, through `reject`. `Journeys.RejectThenSignupCollides` shows it: the next valid learner registration after such a reject is refused as "Email already registered.".
- The profile update stores an address exactly as given (app.py:654-670), while registration stores it in lower case and the logins compare `LOWER(email)` against the lower-cased address they receive. A member whose address was updated to `Bob@nyatsimestaff.ac.zw` does not stop a registration of `bob@nyatsimestaff.ac.zw`, because `UNIQUE` compares exactly. If the two passwords agree, the staff login's `fetchone()` then returns the earlier member, so the registrant signs in as someone else. `Journeys.ShadowedRegistration` proves this, and `Journeys.ShadowingRegistrant` and `Journeys.ShadowingExample` show its conditions can be met.
- A fee of amount 0 stays Unpaid until a payment is recorded against it, because the status is only recomputed by a payment (app.py:589-592).
