/** Staff administration: the profile update route, which copies only the fields a
    request carries, and the staff delete route with its `\w+` path pattern. */
module Personnel {

  import opened Tables
  import opened Records
  import opened Ids
  import opened Signup

  /** The body of `PUT /api/staff/update/<id>`: each updatable column is present
      (`Some`) or absent (`None`); a present but empty password counts as absent. */
  datatype StaffPatch = StaffPatch(
    firstName: Option<string>, lastName: Option<string>, email: Option<string>,
    subject: Option<string>, classesTaught: Option<string>, role: Option<string>,
    dateEmployed: Option<string>, phone: Option<string>, gender: Option<string>,
    qualification: Option<string>, address: Option<string>, idNumber: Option<string>,
    dateOfBirth: Option<string>, nextOfKinName: Option<string>, nextOfKinPhone: Option<string>,
    photo: Option<string>, status: Option<string>, password: Option<string>)

  /** The value a column takes: the patch's if present, the current one otherwise. */
  function Pick(field: Option<string>, current: string): string
  {
    if field.Some? then field.value else current
  }

  /** The password is only changed by a non-empty one (`if body.get('password')`). */
  predicate NewPassword(p: StaffPatch)
  {
    p.password.Some? && p.password.value != ""
  }

  /** Whether the `updates` dictionary is non-empty, so an UPDATE is issued at all. */
  predicate HasUpdates(p: StaffPatch)
  {
    p.firstName.Some? || p.lastName.Some? || p.email.Some? || p.subject.Some? ||
    p.classesTaught.Some? || p.role.Some? || p.dateEmployed.Some? || p.phone.Some? ||
    p.gender.Some? || p.qualification.Some? || p.address.Some? || p.idNumber.Some? ||
    p.dateOfBirth.Some? || p.nextOfKinName.Some? || p.nextOfKinPhone.Some? ||
    p.photo.Some? || p.status.Some? || NewPassword(p)
  }

  /** A staff row with a patch applied: present columns overwritten, the password
      re-hashed when a new one is given, everything else kept. */
  function Patched(s: Staff, p: StaffPatch): (t: Staff)
    ensures t.staffId == s.staffId && t.approved == s.approved
    ensures p.email.Some? ==> t.email == p.email.value
    ensures p.email.None? ==> t.email == s.email
    ensures NewPassword(p) ==> t.password == HashPassword(p.password.value)
    ensures !NewPassword(p) ==> t.password == s.password
  {
    s.(firstName := Pick(p.firstName, s.firstName), lastName := Pick(p.lastName, s.lastName),
       email := Pick(p.email, s.email), subject := Pick(p.subject, s.subject),
       classesTaught := Pick(p.classesTaught, s.classesTaught), role := Pick(p.role, s.role),
       dateEmployed := Pick(p.dateEmployed, s.dateEmployed), phone := Pick(p.phone, s.phone),
       gender := Pick(p.gender, s.gender), qualification := Pick(p.qualification, s.qualification),
       address := Pick(p.address, s.address), idNumber := Pick(p.idNumber, s.idNumber),
       dateOfBirth := Pick(p.dateOfBirth, s.dateOfBirth),
       nextOfKinName := Pick(p.nextOfKinName, s.nextOfKinName),
       nextOfKinPhone := Pick(p.nextOfKinPhone, s.nextOfKinPhone),
       photo := Pick(p.photo, s.photo), status := Pick(p.status, s.status),
       password := if NewPassword(p) then HashPassword(p.password.value) else s.password)
  }

  /** Two patches sent one after the other: the later one's present fields win. */
  function Merge(p: StaffPatch, q: StaffPatch): StaffPatch
  {
    StaffPatch(
      if q.firstName.Some? then q.firstName else p.firstName,
      if q.lastName.Some? then q.lastName else p.lastName,
      if q.email.Some? then q.email else p.email,
      if q.subject.Some? then q.subject else p.subject,
      if q.classesTaught.Some? then q.classesTaught else p.classesTaught,
      if q.role.Some? then q.role else p.role,
      if q.dateEmployed.Some? then q.dateEmployed else p.dateEmployed,
      if q.phone.Some? then q.phone else p.phone,
      if q.gender.Some? then q.gender else p.gender,
      if q.qualification.Some? then q.qualification else p.qualification,
      if q.address.Some? then q.address else p.address,
      if q.idNumber.Some? then q.idNumber else p.idNumber,
      if q.dateOfBirth.Some? then q.dateOfBirth else p.dateOfBirth,
      if q.nextOfKinName.Some? then q.nextOfKinName else p.nextOfKinName,
      if q.nextOfKinPhone.Some? then q.nextOfKinPhone else p.nextOfKinPhone,
      if q.photo.Some? then q.photo else p.photo,
      if q.status.Some? then q.status else p.status,
      if NewPassword(q) then q.password else p.password)
  }

  /** A request without any updatable field, or with only an empty password, changes nothing. */
  lemma EmptyPatchIsIdentity(s: Staff, p: StaffPatch)
    requires !HasUpdates(p)
    ensures Patched(s, p) == s
  {
  }

  /** Sending the same update twice has the effect of sending it once. */
  lemma PatchIdempotent(s: Staff, p: StaffPatch)
    ensures Patched(Patched(s, p), p) == Patched(s, p)
  {
  }

  /** Two updates in a row are one update with the merged body. */
  lemma PatchesCompose(s: Staff, p: StaffPatch, q: StaffPatch)
    ensures Patched(Patched(s, p), q) == Patched(s, Merge(p, q))
    ensures HasUpdates(Merge(p, q)) <==> HasUpdates(p) || HasUpdates(q)
  {
  }

  /** The update would give the row of `sid` an e-mail address another row already
      holds, which the `UNIQUE` constraint on `email` rejects. */
  predicate EmailConflict(staff: seq<Staff>, sid: string, p: StaffPatch)
  {
    p.email.Some? &&
    (exists i :: 0 <= i < |staff| && staff[i].staffId == sid) &&
    (exists j :: 0 <= j < |staff| && staff[j].staffId != sid && staff[j].email == p.email.value)
  }

  /** `UPDATE staff SET … WHERE staff_id=?`: `None` when the e-mail constraint rejects
      it and nothing changes, otherwise the updated table. An unknown id updates no row. */
  function UpdateStaff(staff: seq<Staff>, sid: string, p: StaffPatch): (r: Option<seq<Staff>>)
    ensures r.None? <==> EmailConflict(staff, sid, p)
    ensures r.Some? ==> |r.value| == |staff|
    ensures r.Some? ==>
              forall i :: 0 <= i < |staff| ==>
                r.value[i] == if staff[i].staffId == sid then Patched(staff[i], p) else staff[i]
  {
    if EmailConflict(staff, sid, p) then None
    else Some(UpdateWhere(staff, (s: Staff) => s.staffId == sid, (s: Staff) => Patched(s, p)))
  }

  /** An accepted update keeps the staff ids and e-mail addresses distinct. */
  lemma UpdateKeepsStaffUnique(staff: seq<Staff>, sid: string, p: StaffPatch)
    requires StaffUnique(staff)
    requires UpdateStaff(staff, sid, p).Some?
    ensures StaffUnique(UpdateStaff(staff, sid, p).value)
  {
    var r := UpdateStaff(staff, sid, p).value;
    forall i, j | 0 <= i < j < |r| ensures r[i].staffId != r[j].staffId && r[i].email != r[j].email {
      if p.email.Some? && staff[i].staffId == sid {
        assert staff[j].staffId != sid;
      } else if p.email.Some? && staff[j].staffId == sid {
        assert staff[i].staffId != sid;
      }
    }
  }

  /** The characters Python's `\w` matches in a request path. The request line is
      decoded as ISO-8859-1, so a path holds code points up to U+00FF only; among
      them `\w` matches `_` and the characters `str.isalnum()` accepts: the ASCII
      letters and digits, the ordinal indicators, the superscript digits, the micro
      sign, the vulgar fractions, and the accented letters other than the
      multiplication and division signs. */
  predicate IsWordChar(c: char)
  {
    || 'a' <= c <= 'z' || 'A' <= c <= 'Z' || '0' <= c <= '9' || c == '_'
    || c == '\U{AA}' || c == '\U{BA}'
    || c == '\U{B2}' || c == '\U{B3}' || c == '\U{B9}'
    || c == '\U{B5}'
    || '\U{BC}' <= c <= '\U{BE}'
    || ('\U{C0}' <= c <= '\U{FF}' && c != '\U{D7}' && c != '\U{F7}')
  }

  /** Whether the path segment matches `(\w+)$`. */
  predicate IsWord(s: string)
  {
    |s| > 0 && forall i :: 0 <= i < |s| ==> IsWordChar(s[i])
  }

  /** `DELETE /api/staff/<segment>`: `None` (not found) unless the segment is one or
      more word characters, otherwise the table without the rows of that id. */
  function DeleteStaff(staff: seq<Staff>, segment: string): (r: Option<seq<Staff>>)
    ensures r.None? <==> !IsWord(segment)
    ensures r.Some? ==> forall s :: s in r.value <==> s in staff && s.staffId != segment
    ensures r.Some? && (forall i :: 0 <= i < |staff| ==> staff[i].staffId != segment) ==> r.value == staff
  {
    if !IsWord(segment) then None
    else
      DeleteWhereMembers(staff, WithId(segment));
      Some(DeleteWhere(staff, WithId(segment)))
  }

  /** The rows `DELETE FROM staff WHERE staff_id=?` removes. */
  function WithId(segment: string): Staff -> bool
  {
    (s: Staff) => s.staffId == segment
  }

  /** The delete keeps the other rows in their order: when one row has the id, the
      table afterwards is the rows before it followed by the rows after it. */
  lemma DeleteStaffKeepsOrder(staff: seq<Staff>, segment: string, k: nat)
    requires IsWord(segment)
    requires k < |staff| && staff[k].staffId == segment
    requires forall i :: 0 <= i < |staff| && i != k ==> staff[i].staffId != segment
    ensures DeleteStaff(staff, segment) == Some(staff[..k] + staff[k + 1..])
  {
    DeleteWhereSingle(staff, WithId(segment), k);
  }

  /** A segment of Latin-1 letters such as `é` is a word, so the route deletes the
      rows of that identifier and answers success. */
  lemma LatinSegmentIsDeleted(staff: seq<Staff>)
    ensures DeleteStaff(staff, "\U{E9}").Some?
    ensures DeleteStaff(staff, "\U{E9}\U{B5}_2").Some?
  {
  }

  /** Every identifier the allocator hands out contains '-', which `\w` does not
      match: no generated staff id can be deleted through the delete route. */
  lemma GeneratedIdsAreNotDeletable(staff: seq<Staff>, n: nat)
    ensures DeleteStaff(staff, NewId("STF", n)).None?
  {
    assert NewId("STF", n)[3] == '-';
  }

  /** So while every staff id is a generated one, the delete route never changes the
      staff table, whatever the path. */
  lemma DeleteNeverRemovesGeneratedIds(staff: seq<Staff>, segment: string)
    requires forall i :: 0 <= i < |staff| ==> staff[i].staffId == NewId("STF", i)
    ensures DeleteStaff(staff, segment) == None || DeleteStaff(staff, segment) == Some(staff)
  {
    if IsWord(segment) {
      forall i | 0 <= i < |staff| ensures staff[i].staffId != segment {
        assert staff[i].staffId[3] == '-';
      }
    }
  }
}
