/** The PasswordRequest collection: its record, its status enum and the
    defaults and required-field checks that mongoose applies on create. */
module PasswordRequestModel {
  import opened Common

  /** The schema's `enum: ["pending", "approved", "rejected"]`. */
  datatype Status = Pending | Approved | Rejected

  /** The status as it is stored and sent to the client. */
  function StatusName(s: Status): (name: string)
    ensures name in {"pending", "approved", "rejected"}
    ensures name == "pending" <==> s == Pending
  {
    match s
    case Pending => "pending"
    case Approved => "approved"
    case Rejected => "rejected"
  }

  /** One stored password-change request. `newPassword` holds the hash of the
      requested password; `reason` holds the student's reason until a
      rejection overwrites it with the admin's. */
  datatype PasswordRequest = PasswordRequest(
    id: Id,
    studentId: Id,
    studentName: string,
    studentEmail: string,
    newPassword: string,
    status: Status,
    adminId: Option<Id>,
    adminName: Option<string>,
    reason: string,
    requestedAt: nat,
    processedAt: Option<nat>)

  /** The fields a caller passes to `PasswordRequest.create`. */
  datatype NewRequest = NewRequest(
    studentId: Option<Id>,
    studentName: string,
    studentEmail: string,
    newPassword: string,
    reason: Option<string>)

  /** The paths whose `required: true` validator fails. For a String path
      mongoose's required check also rejects the empty string. */
  function MissingPaths(f: NewRequest): (missing: set<string>)
    ensures "studentId" in missing <==> f.studentId.None?
    ensures "studentName" in missing <==> f.studentName == ""
    ensures "studentEmail" in missing <==> f.studentEmail == ""
    ensures "newPassword" in missing <==> f.newPassword == ""
    ensures missing <= {"studentId", "studentName", "studentEmail", "newPassword"}
  {
    (if f.studentId.None? then {"studentId"} else {})
    + (if f.studentName == "" then {"studentName"} else {})
    + (if f.studentEmail == "" then {"studentEmail"} else {})
    + (if f.newPassword == "" then {"newPassword"} else {})
  }

  /** The lifecycle invariant of a stored request: it is pending exactly while
      it has no processing time and no processing admin, a pending request has
      no admin name, and its required fields are present. */
  predicate WellFormed(r: PasswordRequest)
  {
    && (r.status == Pending <==> r.processedAt.None?)
    && (r.status == Pending <==> r.adminId.None?)
    && (r.status == Pending ==> r.adminName.None?)
    && r.studentName != "" && r.studentEmail != "" && r.newPassword != ""
  }

  /** `PasswordRequest.create(fields)` with document id `id` at time `now`:
      fails validation when a required path is missing, and otherwise applies
      the schema defaults (status pending, no admin, reason "", requestedAt
      now, processedAt null). */
  function Create(id: Id, f: NewRequest, now: nat): (r: Result<PasswordRequest, set<string>>)
    ensures r.Err? <==> MissingPaths(f) != {}
    ensures r.Err? ==> r.error == MissingPaths(f)
    ensures r.Ok? ==> WellFormed(r.value)
    ensures r.Ok? ==> && r.value.id == id
                      && f.studentId == Some(r.value.studentId)
                      && r.value.studentName == f.studentName
                      && r.value.studentEmail == f.studentEmail
                      && r.value.newPassword == f.newPassword
                      && r.value.status == Pending
                      && r.value.adminId.None? && r.value.adminName.None?
                      && r.value.reason == (if f.reason.Some? then f.reason.value else "")
                      && r.value.requestedAt == now
                      && r.value.processedAt.None?
  {
    var missing := MissingPaths(f);
    if missing != {} then Err(missing)
    else
      Ok(PasswordRequest(
        id, f.studentId.value, f.studentName, f.studentEmail, f.newPassword,
        Pending, None, None,
        match f.reason case Some(s) => s case None => "",
        now, None))
  }

  /** Requests that have left `pending` never change again and no request
      disappears (requests are never deleted). */
  predicate Settled(before: map<Id, PasswordRequest>, after: map<Id, PasswordRequest>)
  {
    && before.Keys <= after.Keys
    && forall k :: k in before && before[k].status != Pending ==> after[k] == before[k]
  }

  /** Any sequence of steps that each keep processed requests settled keeps
      them settled as a whole. */
  lemma SettledTransitive(a: map<Id, PasswordRequest>, b: map<Id, PasswordRequest>, c: map<Id, PasswordRequest>)
    requires Settled(a, b) && Settled(b, c)
    ensures Settled(a, c)
  {
  }
}
