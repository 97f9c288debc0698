/** Role-based access control: `requireRole(roles)` builds a middleware that
    lets a request through when the attached principal's role is allowed. */
module RoleMiddleware {
  import opened Common
  import opened Db

  const AuthenticationRequired := Reply(401, "Authentication required")
  const AccessDenied := Reply(403, "Access denied. Insufficient permissions.")

  /** `req.user.role || "student"`: records without a role count as students. */
  function EffectiveRole(role: string): (r: string)
    ensures r != ""
    ensures role != "" ==> r == role
    ensures role == "" ==> r == "student"
  {
    OrElse(role, "student")
  }

  /** `requireRole(roles)` applied to the principal `user` attached by token
      verification (None when nothing was attached). It changes nothing. */
  function RequireRole(roles: seq<string>, user: Option<Student>): (f: Flow)
    ensures f == Continue <==> user.Some? && EffectiveRole(user.value.role) in roles
    ensures user.None? ==> f == Halt(AuthenticationRequired)
    ensures user.Some? && EffectiveRole(user.value.role) !in roles ==> f == Halt(AccessDenied)
  {
    if user.None? then Halt(AuthenticationRequired)
    else if EffectiveRole(user.value.role) !in roles then Halt(AccessDenied)
    else Continue
  }

  const AdminRoles: seq<string> := ["admin"]
  const StudentRoles: seq<string> := ["student"]
  const UserRoles: seq<string> := ["admin", "student"]

  /** `requireAdmin`: admits exactly principals whose role is "admin". */
  function RequireAdmin(user: Option<Student>): (f: Flow)
    ensures f == Continue <==> user.Some? && user.value.role == "admin"
  {
    RequireRole(AdminRoles, user)
  }

  /** `requireStudent`: admits role "student" and principals without a role. */
  function RequireStudent(user: Option<Student>): (f: Flow)
    ensures f == Continue <==> user.Some? && (user.value.role == "student" || user.value.role == "")
  {
    RequireRole(StudentRoles, user)
  }

  /** `requireUser`: admits "admin", "student" and principals without a role. */
  function RequireUser(user: Option<Student>): (f: Flow)
    ensures f == Continue <==> user.Some? && user.value.role in {"admin", "student", ""}
  {
    RequireRole(UserRoles, user)
  }

  /** No principal is both let through by `requireAdmin` and by
      `requireStudent`, and `requireUser` lets through exactly those that one
      of them does. */
  lemma GatesPartitionUsers(user: Option<Student>)
    ensures !(RequireAdmin(user) == Continue && RequireStudent(user) == Continue)
    ensures RequireUser(user) == Continue <==> RequireAdmin(user) == Continue || RequireStudent(user) == Continue
  {
  }
}
