/** The password-request router: each route runs token verification, then a
    role gate, then its handler. */
module PasswordRequestRoutes {
  import opened Common
  import opened Tokens
  import opened Db
  import opened RoleMiddleware
  import opened VerifyToken

  datatype Operation = SubmitRequest | ListOwnRequests | ListAllRequests | ApproveRequest | RejectRequest

  datatype Endpoint = Endpoint(verb: string, path: string)

  /** Where each operation is mounted, relative to the router. */
  function EndpointOf(op: Operation): (e: Endpoint)
    ensures e.verb == "GET" <==> op == ListOwnRequests || op == ListAllRequests
    ensures e.verb == "PUT" <==> op == ApproveRequest || op == RejectRequest
    ensures e.verb == "POST" <==> op == SubmitRequest
  {
    match op
    case SubmitRequest => Endpoint("POST", "/request")
    case ListOwnRequests => Endpoint("GET", "/student")
    case ListAllRequests => Endpoint("GET", "/")
    case ApproveRequest => Endpoint("PUT", "/:requestId/approve")
    case RejectRequest => Endpoint("PUT", "/:requestId/reject")
  }

  /** No two operations share a verb and path, so each request reaches at
      most one route's guard chain. */
  lemma EndpointsDistinct(a: Operation, b: Operation)
    ensures EndpointOf(a) == EndpointOf(b) <==> a == b
  {
  }

  predicate IsStudentOperation(op: Operation)
  {
    op == SubmitRequest || op == ListOwnRequests
  }

  /** The role list of each route's gate: `requireStudent` for the student
      routes, `requireAdmin` for the admin ones. */
  function GateRoles(op: Operation): (roles: seq<string>)
    ensures IsStudentOperation(op) ==> roles == StudentRoles
    ensures !IsStudentOperation(op) ==> roles == AdminRoles
  {
    match op
    case SubmitRequest => StudentRoles
    case ListOwnRequests => StudentRoles
    case ListAllRequests => AdminRoles
    case ApproveRequest => AdminRoles
    case RejectRequest => AdminRoles
  }

  /** The guard chain of a route: the principal its handler runs with, or the
      reply of the first guard that stops the request. Token verification is
      consulted first; the role gate only sees a principal it attached. */
  function Admit(op: Operation, authorization: Option<string>, codec: Codec, now: nat, students: map<Id, Student>)
    : (r: Result<Student, Reply>)
    ensures var s := Resolve(authorization, codec, now, students);
      && (s.Err? ==> r == Err(ErrorReply(s.error)))
      && (s.Ok? ==> r == (if EffectiveRole(s.value.role) in GateRoles(op) then Ok(s.value) else Err(AccessDenied)))
  {
    match Resolve(authorization, codec, now, students)
    case Err(e) => Err(ErrorReply(e))
    case Ok(user) =>
      match RequireRole(GateRoles(op), Some(user))
      case Continue => Ok(user)
      case Halt(reply) => Err(reply)
  }

  /** Which principals reach each handler: students (or role-less records) for
      submitting and listing their own requests, admins for listing all,
      approving and rejecting. */
  lemma AdmittedRoles(op: Operation, authorization: Option<string>, codec: Codec, now: nat, students: map<Id, Student>)
    requires Admit(op, authorization, codec, now, students).Ok?
    ensures var u := Admit(op, authorization, codec, now, students).value;
      && u in students.Values
      && (IsStudentOperation(op) ==> u.role == "student" || u.role == "")
      && (!IsStudentOperation(op) ==> u.role == "admin")
  {
  }

  /** Verification runs before the role gate: without a header every route
      answers 401 "No token provided", whatever role it asks for. */
  lemma NoHeaderStopsFirst(op: Operation, codec: Codec, now: nat, students: map<Id, Student>)
    ensures Admit(op, None, codec, now, students) == Err(Reply(401, "No token provided"))
  {
  }

  /** As the code stands, only Student records can be attached, so the admin
      routes are reachable only through a Student record whose role is
      "admin". In a store where no student has that role (the registrations
      of this model never set one), every admin route answers 401, 403 or 404. */
  lemma AdminRoutesNeedAdminStudent(op: Operation, authorization: Option<string>, codec: Codec, now: nat, students: map<Id, Student>)
    requires !IsStudentOperation(op)
    requires forall k :: k in students ==> students[k].role != "admin"
    ensures Admit(op, authorization, codec, now, students).Err?
  {
    var s := Resolve(authorization, codec, now, students);
    if s.Ok? {
      var k :| k in students && students[k] == s.value;
      assert s.value.role != "admin";
    }
  }

  /** The chain run on a request object: `verifyToken` (which may attach
      `req.user`), then the route's role gate. The handler runs exactly when
      the result is `Continue`, and then `req.user` is the admitted
      principal. */
  method Guard(op: Operation, req: HttpRequest, codec: Codec, now: nat, db: Database) returns (flow: Flow)
    modifies req
    ensures var a := Admit(op, req.authorization, codec, now, db.students);
      && (a.Ok? ==> flow == Continue && req.user == Some(a.value))
      && (a.Err? ==> flow == Halt(a.error))
  {
    flow := Handle(req, codec, now, db);
    if flow == Continue {
      flow := RequireRole(GateRoles(op), req.user);
    }
  }
}
