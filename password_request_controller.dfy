/** The password-change workflow: a student files a request holding the hash
    of the new password; an admin approves it (the student's stored hash is
    replaced) or rejects it (the reason is overwritten). A request leaves
    `pending` at most once. */
module PasswordRequestController {
  import opened Common
  import opened PasswordRequestModel
  import opened Db

  const DefaultRequestReason := "Password change requested"
  const DefaultRejectReason := "Request rejected by admin"

  const SubmittedReply := Reply(201, "Password change request submitted successfully. Please wait for admin approval.")
  const ApprovedReply := Reply(200, "Password change request approved successfully")
  const RejectedReply := Reply(200, "Password change request rejected")
  const NotFoundReply := Reply(404, "Password change request not found")
  const AlreadyProcessedReply := Reply(400, "Request has already been processed")

  // ---------------------------------------------------------------------------
  // Queries: `find(filter).sort({ requestedAt: -1 })`

  /** Ordered by `requestedAt`, newest first. */
  predicate NewestFirst(s: seq<PasswordRequest>)
  {
    forall i, j :: 0 <= i < j < |s| ==> s[i].requestedAt >= s[j].requestedAt
  }

  function Ids(s: seq<PasswordRequest>): (ids: seq<Id>)
    ensures |ids| == |s|
    ensures forall i :: 0 <= i < |s| ==> ids[i] == s[i].id
  {
    if s == [] then [] else [s[0].id] + Ids(s[1..])
  }

  /** Insert `x` into a newest-first sequence before the first element
      that is not newer than it. */
  function InsertByDate(x: PasswordRequest, s: seq<PasswordRequest>): (r: seq<PasswordRequest>)
    ensures |r| == |s| + 1
  {
    if s == [] || x.requestedAt >= s[0].requestedAt then [x] + s
    else [s[0]] + InsertByDate(x, s[1..])
  }

  /** Every element of the insertion is `x` or an element of `s`. */
  lemma {:induction false} InsertByDateMembers(x: PasswordRequest, s: seq<PasswordRequest>)
    ensures forall y :: y in InsertByDate(x, s) ==> y == x || y in s
  {
    if s != [] && x.requestedAt < s[0].requestedAt {
      InsertByDateMembers(x, s[1..]);
      assert InsertByDate(x, s) == [s[0]] + InsertByDate(x, s[1..]);
      assert forall y :: y in s[1..] ==> y in s;
    }
  }

  /** Insertion keeps a newest-first sequence newest first. */
  lemma {:induction false} InsertByDateSorted(x: PasswordRequest, s: seq<PasswordRequest>)
    requires NewestFirst(s)
    ensures NewestFirst(InsertByDate(x, s))
  {
    if s != [] && x.requestedAt < s[0].requestedAt {
      InsertByDateSorted(x, s[1..]);
      InsertByDateMembers(x, s[1..]);
      var t := InsertByDate(x, s[1..]);
      assert forall y :: y in t ==> y.requestedAt <= s[0].requestedAt;
      assert InsertByDate(x, s) == [s[0]] + t;
    }
  }

  lemma IdsCons(x: PasswordRequest, s: seq<PasswordRequest>)
    ensures Ids([x] + s) == [x.id] + Ids(s)
  {
    assert ([x] + s)[1..] == s;
  }

  /** Insertion adds exactly the id of `x`. */
  lemma {:induction false} InsertByDateIds(x: PasswordRequest, s: seq<PasswordRequest>)
    ensures multiset(Ids(InsertByDate(x, s))) == multiset(Ids(s)) + multiset{x.id}
  {
    if s == [] || x.requestedAt >= s[0].requestedAt {
      IdsCons(x, s);
    } else {
      InsertByDateIds(x, s[1..]);
      var t := InsertByDate(x, s[1..]);
      IdsCons(s[0], t);
      IdsCons(s[0], s[1..]);
      assert s == [s[0]] + s[1..];
    }
  }

  /** The filter of a query: every request, or those filed by one student. */
  predicate Selected(owner: Option<Id>, r: PasswordRequest)
  {
    owner.None? || r.studentId == owner.value
  }

  /** The ids of the stored requests a filter selects. */
  function SelectedIds(requests: map<Id, PasswordRequest>, owner: Option<Id>): set<Id>
  {
    set k | k in requests && Selected(owner, requests[k])
  }

  /** What a query has established after visiting every key not in `rest`:
      the selected requests among them, each once, newest first. */
  ghost predicate Collected(table: map<Id, PasswordRequest>, owner: Option<Id>, rest: set<Id>, rs: seq<PasswordRequest>)
  {
    && NewestFirst(rs)
    && (forall y :: y in rs ==> y.id in table && table[y.id] == y && Selected(owner, y))
    && multiset(Ids(rs)) == multiset(SelectedIds(table, owner) - rest)
  }

  lemma CollectedFromTable(table: map<Id, PasswordRequest>, owner: Option<Id>, rs: seq<PasswordRequest>, x: PasswordRequest)
    requires forall y :: y in rs ==> y.id in table && table[y.id] == y && Selected(owner, y)
    requires x.id in table && table[x.id] == x && Selected(owner, x)
    ensures forall y :: y in InsertByDate(x, rs) ==> y.id in table && table[y.id] == y && Selected(owner, y)
  {
    InsertByDateMembers(x, rs);
  }

  lemma CollectedIds(table: map<Id, PasswordRequest>, owner: Option<Id>, rest: set<Id>, rs: seq<PasswordRequest>, k: Id)
    requires k in rest && k in table && table[k].id == k && Selected(owner, table[k])
    requires multiset(Ids(rs)) == multiset(SelectedIds(table, owner) - rest)
    ensures multiset(Ids(InsertByDate(table[k], rs))) == multiset(SelectedIds(table, owner) - (rest - {k}))
  {
    InsertByDateIds(table[k], rs);
    var done := SelectedIds(table, owner) - rest;
    assert SelectedIds(table, owner) - (rest - {k}) == done + {k};
    assert k !in done;
  }

  /** Visiting a key the filter selects inserts its request. */
  lemma CollectSelected(table: map<Id, PasswordRequest>, owner: Option<Id>, rest: set<Id>, rs: seq<PasswordRequest>, k: Id)
    requires k in rest && k in table && table[k].id == k && Selected(owner, table[k])
    requires Collected(table, owner, rest, rs)
    ensures Collected(table, owner, rest - {k}, InsertByDate(table[k], rs))
  {
    InsertByDateSorted(table[k], rs);
    CollectedFromTable(table, owner, rs, table[k]);
    CollectedIds(table, owner, rest, rs, k);
  }

  /** Visiting a key the filter does not select changes nothing. */
  lemma CollectSkipped(table: map<Id, PasswordRequest>, owner: Option<Id>, rest: set<Id>, rs: seq<PasswordRequest>, k: Id)
    requires k in rest && k in table && !Selected(owner, table[k])
    requires Collected(table, owner, rest, rs)
    ensures Collected(table, owner, rest - {k}, rs)
  {
    assert SelectedIds(table, owner) - (rest - {k}) == SelectedIds(table, owner) - rest;
  }

  /** `PasswordRequest.find(filter).sort({ requestedAt: -1 })`: exactly the
      selected stored requests, each once, newest first. */
  method Query(db: Database, owner: Option<Id>) returns (rs: seq<PasswordRequest>)
    requires db.Valid()
    ensures NewestFirst(rs)
    ensures forall i :: 0 <= i < |rs| ==> rs[i].id in db.requests && db.requests[rs[i].id] == rs[i] && Selected(owner, rs[i])
    ensures multiset(Ids(rs)) == multiset(SelectedIds(db.requests, owner))
  {
    var table := db.requests;
    rs := [];
    var rest := table.Keys;
    assert SelectedIds(table, owner) - rest == {};
    while rest != {}
      invariant rest <= table.Keys
      invariant Collected(table, owner, rest, rs)
      decreases rest
    {
      var k :| k in rest;
      if Selected(owner, table[k]) {
        CollectSelected(table, owner, rest, rs, k);
        rs := InsertByDate(table[k], rs);
      } else {
        CollectSkipped(table, owner, rest, rs, k);
      }
      rest := rest - {k};
    }
    assert SelectedIds(table, owner) - rest == SelectedIds(table, owner);
  }

  /** `getAllPasswordRequests`: every stored request, each once, newest first,
      with no status filter. */
  method ListAll(db: Database) returns (rs: seq<PasswordRequest>)
    requires db.Valid()
    ensures NewestFirst(rs)
    ensures forall i :: 0 <= i < |rs| ==> rs[i].id in db.requests && db.requests[rs[i].id] == rs[i]
    ensures multiset(Ids(rs)) == multiset(db.requests.Keys)
  {
    rs := Query(db, None);
    assert SelectedIds(db.requests, None) == db.requests.Keys;
  }

  /** A request as `select("-newPassword")` returns it: the hash is dropped. */
  datatype RequestView = RequestView(
    id: Id,
    studentId: Id,
    studentName: string,
    studentEmail: string,
    status: Status,
    adminId: Option<Id>,
    adminName: Option<string>,
    reason: string,
    requestedAt: nat,
    processedAt: Option<nat>)

  function Hide(r: PasswordRequest): (v: RequestView)
    ensures v.id == r.id && v.studentId == r.studentId && v.status == r.status
    ensures v.studentName == r.studentName && v.studentEmail == r.studentEmail
    ensures v.adminId == r.adminId && v.adminName == r.adminName
    ensures v.requestedAt == r.requestedAt && v.processedAt == r.processedAt && v.reason == r.reason
  {
    RequestView(r.id, r.studentId, r.studentName, r.studentEmail, r.status,
                r.adminId, r.adminName, r.reason, r.requestedAt, r.processedAt)
  }

  function ViewIds(vs: seq<RequestView>): (ids: seq<Id>)
    ensures |ids| == |vs|
    ensures forall i :: 0 <= i < |vs| ==> ids[i] == vs[i].id
  {
    seq(|vs|, i requires 0 <= i < |vs| => vs[i].id)
  }

  /** `getStudentPasswordRequests`: exactly the caller's own requests, each
      once, newest first, without the password hash. */
  method ListMine(db: Database, caller: Student) returns (vs: seq<RequestView>)
    requires db.Valid()
    ensures forall i :: 0 <= i < |vs| ==> vs[i].studentId == caller.id
    ensures forall i :: 0 <= i < |vs| ==> vs[i].id in db.requests && vs[i] == Hide(db.requests[vs[i].id])
    ensures forall i, j :: 0 <= i < j < |vs| ==> vs[i].requestedAt >= vs[j].requestedAt
    ensures multiset(ViewIds(vs)) == multiset(set k | k in db.requests && db.requests[k].studentId == caller.id)
  {
    var rs := Query(db, Some(caller.id));
    vs := seq(|rs|, i requires 0 <= i < |rs| => Hide(rs[i]));
    assert ViewIds(vs) == Ids(rs);
    assert SelectedIds(db.requests, Some(caller.id)) == set k | k in db.requests && db.requests[k].studentId == caller.id;
  }

  // ---------------------------------------------------------------------------
  // Transitions

  /** Mongoose leaves a field untouched when the update gives it undefined, so
      an admin without a name leaves `adminName` null. */
  function NameOrNull(name: string): Option<string>
  {
    if name == "" then None else Some(name)
  }

  /** The processing fields an approval or rejection writes. */
  function Processed(q: PasswordRequest, status: Status, admin: Student, now: nat): (p: PasswordRequest)
    requires status != Pending
    ensures WellFormed(q) ==> WellFormed(p)
    ensures p.status == status && p.processedAt == Some(now) && p.adminId == Some(admin.id)
    ensures p.adminName == (if admin.name == "" then None else Some(admin.name))
    ensures p.id == q.id && p.studentId == q.studentId && p.newPassword == q.newPassword && p.reason == q.reason
    ensures p.studentName == q.studentName && p.studentEmail == q.studentEmail && p.requestedAt == q.requestedAt
  {
    q.(status := status, adminId := Some(admin.id), adminName := NameOrNull(admin.name), processedAt := Some(now))
  }

  /** `requestPasswordChange`: files one pending request for the caller with
      the hash of `newPassword`. A missing password makes the hash throw and a
      caller without name or email fails the required validators; both end
      in 500 with nothing stored. Nobody's password changes, and earlier
      requests of the same student do not block a new one. */
  method RequestPasswordChange(db: Database, hash: string -> string, caller: Student,
                               newPassword: Option<string>, reason: string, now: nat)
    returns (reply: Reply, requestId: Option<Id>)
    requires db.Valid()
    modifies db
    ensures db.Valid()
    ensures db.students == old(db.students) && db.users == old(db.users)
    ensures Settled(old(db.requests), db.requests)
    ensures requestId.Some? <==> newPassword.Some? && caller.name != "" && caller.email != "" && hash(newPassword.value) != ""
    ensures requestId.Some? ==>
      && reply == SubmittedReply
      && requestId.value == old(db.nextId) && requestId.value !in old(db.requests)
      && db.nextId == old(db.nextId) + 1
      && db.requests == old(db.requests)[requestId.value := PasswordRequest(
           requestId.value, caller.id, caller.name, caller.email, hash(newPassword.value),
           Pending, None, None, OrElse(reason, DefaultRequestReason), now, None)]
    ensures requestId.None? ==> reply == InternalError && db.requests == old(db.requests) && db.nextId == old(db.nextId)
  {
    if newPassword.None? {
      return InternalError, None;
    }
    var hashed := hash(newPassword.value);
    var id := db.nextId;
    var created := Create(id, NewRequest(Some(caller.id), caller.name, caller.email, hashed,
                                         Some(OrElse(reason, DefaultRequestReason))), now);
    if created.Err? {
      return InternalError, None;
    }
    db.requests := db.requests[id := created.value];
    db.nextId := db.nextId + 1;
    reply, requestId := SubmittedReply, Some(id);
  }

  /** `approvePasswordRequest`: 404 for an unknown id and 400 for a request
      that is not pending, both changing nothing. A pending request becomes
      approved, stamped with the caller and `now`, and its student's stored
      hash becomes the request's hash; nothing else changes. A student who no
      longer exists is skipped and the request is still approved. */
  method Approve(db: Database, caller: Student, requestId: Id, now: nat) returns (reply: Reply)
    requires db.Valid()
    modifies db
    ensures db.Valid()
    ensures db.users == old(db.users) && db.nextId == old(db.nextId)
    ensures Settled(old(db.requests), db.requests)
    ensures requestId !in old(db.requests) ==>
      reply == NotFoundReply && db.requests == old(db.requests) && db.students == old(db.students)
    ensures requestId in old(db.requests) && old(db.requests[requestId]).status != Pending ==>
      reply == AlreadyProcessedReply && db.requests == old(db.requests) && db.students == old(db.students)
    ensures requestId in old(db.requests) && old(db.requests[requestId]).status == Pending ==>
      var q := old(db.requests[requestId]);
      && reply == ApprovedReply
      && db.requests == old(db.requests)[requestId := Processed(q, Approved, caller, now)]
      && db.students == (if q.studentId in old(db.students)
                         then old(db.students)[q.studentId := old(db.students)[q.studentId].(password := q.newPassword)]
                         else old(db.students))
  {
    if requestId !in db.requests {
      return NotFoundReply;
    }
    var q := db.requests[requestId];
    if q.status != Pending {
      return AlreadyProcessedReply;
    }
    if q.studentId in db.students {
      db.students := db.students[q.studentId := db.students[q.studentId].(password := q.newPassword)];
    }
    db.requests := db.requests[requestId := Processed(q, Approved, caller, now)];
    reply := ApprovedReply;
  }

  /** `rejectPasswordRequest`: the same 404 and 400 outcomes as approval. A
      pending request becomes rejected, stamped with the caller and `now`, and
      its reason is replaced by the admin's (or "Request rejected by admin"
      when none is given). No student changes. */
  method Reject(db: Database, caller: Student, requestId: Id, reason: string, now: nat) returns (reply: Reply)
    requires db.Valid()
    modifies db
    ensures db.Valid()
    ensures db.students == old(db.students) && db.users == old(db.users) && db.nextId == old(db.nextId)
    ensures Settled(old(db.requests), db.requests)
    ensures requestId !in old(db.requests) ==> reply == NotFoundReply && db.requests == old(db.requests)
    ensures requestId in old(db.requests) && old(db.requests[requestId]).status != Pending ==>
      reply == AlreadyProcessedReply && db.requests == old(db.requests)
    ensures requestId in old(db.requests) && old(db.requests[requestId]).status == Pending ==>
      var q := old(db.requests[requestId]);
      && reply == RejectedReply
      && db.requests == old(db.requests)[requestId := Processed(q, Rejected, caller, now).(reason := OrElse(reason, DefaultRejectReason))]
  {
    if requestId !in db.requests {
      return NotFoundReply;
    }
    var q := db.requests[requestId];
    if q.status != Pending {
      return AlreadyProcessedReply;
    }
    db.requests := db.requests[requestId := Processed(q, Rejected, caller, now).(reason := OrElse(reason, DefaultRejectReason))];
    reply := RejectedReply;
  }
}
