/** The authentication controller: registration and login for the two
    disjoint principal collections (Student, User), the current-user view and
    the student's own profile update. Passwords are stored as `hash(p)` and a
    login verifies `p` against a stored `h` as `hash(p) == h`. */
module AuthController {
  import opened Common
  import opened Tokens
  import opened Db
  import opened RoleMiddleware

  const DefaultCourse := "MERN Bootcamp"

  const LoggedIn := Reply(200, "Login successful")

  /** The `user` object of a response. Neither shape has a password field. */
  datatype UserView =
    | StudentView(id: Id, name: string, email: string, role: string, course: string, enrollmentDate: nat)
    | AdminView(id: Id, name: string, email: string, role: string)

  /** A token (as its claims) and the user object sent with it. */
  datatype Session = Session(token: Claims, user: UserView)

  function StudentViewOf(s: Student): UserView
  {
    StudentView(s.id, s.name, s.email, "student", s.course, s.enrollmentDate)
  }

  function AdminViewOf(u: User): UserView
  {
    AdminView(u.id, u.name, u.email, "admin")
  }

  /** User `k` is the one `User.findOne({ email, role: "admin" })` returns. */
  predicate FirstAdminWith(users: map<Id, User>, email: string, k: Id)
  {
    k in users && users[k].email == email && users[k].role == "admin"
    && forall j :: j in users && users[j].email == email && users[j].role == "admin" ==> k <= j
  }

  /** `registerStudent`: 400 when the Student collection already holds the
      email, creating nothing; a body without a password makes the hash throw
      (500, nothing created); otherwise one new student with the hash of the
      password and course "MERN Bootcamp" when none is given, and a 24-hour
      token naming it with role "student". */
  method RegisterStudent(db: Database, hash: string -> string, name: string, email: string,
                         password: Option<string>, course: string, now: nat)
    returns (reply: Reply, session: Option<Session>)
    requires db.Valid()
    modifies db
    ensures db.Valid()
    ensures db.users == old(db.users) && db.requests == old(db.requests)
    ensures PasswordsKept(old(db.students), db.students)
    ensures EmailsUnique(old(db.students)) ==> EmailsUnique(db.students)
    ensures (exists k :: k in old(db.students) && old(db.students)[k].email == email) ==>
      reply == EmailTaken && session.None? && db.students == old(db.students) && db.nextId == old(db.nextId)
    ensures (forall k :: k in old(db.students) ==> old(db.students)[k].email != email) && password.None? ==>
      reply == InternalError && session.None? && db.students == old(db.students) && db.nextId == old(db.nextId)
    ensures (forall k :: k in old(db.students) ==> old(db.students)[k].email != email) && password.Some? ==>
      var id := old(db.nextId);
      var s := Student(id, name, "", email, hash(password.value), OrElse(course, DefaultCourse), "", now);
      && id !in old(db.students)
      && db.students == old(db.students)[id := s] && db.nextId == id + 1
      && reply == Reply(201, "Student registered successfully")
      && session == Some(Session(Sign(id, Some("student"), now, Day), StudentViewOf(s)))
  {
    var existing := FindFirst(db.students, (s: Student) => s.email == email);
    if existing.Some? {
      return EmailTaken, None;
    }
    if password.None? {
      return InternalError, None;
    }
    var id := db.nextId;
    var s := Student(id, name, "", email, hash(password.value), OrElse(course, DefaultCourse), "", now);
    db.students := db.students[id := s];
    db.nextId := id + 1;
    reply := Reply(201, "Student registered successfully");
    session := Some(Session(Sign(id, Some("student"), now, Day), StudentViewOf(s)));
  }

  /** `registerAdmin`: the duplicate check looks at the User collection only,
      so an admin may share an email with a student. A body without a
      password ends in 500 with nothing created. The new record has role
      "admin" and the token carries role "admin" for 24 hours. */
  method RegisterAdmin(db: Database, hash: string -> string, name: string, email: string,
                       password: Option<string>, now: nat)
    returns (reply: Reply, session: Option<Session>)
    requires db.Valid()
    modifies db
    ensures db.Valid()
    ensures db.students == old(db.students) && db.requests == old(db.requests)
    ensures UserEmailsUnique(old(db.users)) ==> UserEmailsUnique(db.users)
    ensures (exists k :: k in old(db.users) && old(db.users)[k].email == email) ==>
      reply == EmailTaken && session.None? && db.users == old(db.users) && db.nextId == old(db.nextId)
    ensures (forall k :: k in old(db.users) ==> old(db.users)[k].email != email) && password.None? ==>
      reply == InternalError && session.None? && db.users == old(db.users) && db.nextId == old(db.nextId)
    ensures (forall k :: k in old(db.users) ==> old(db.users)[k].email != email) && password.Some? ==>
      var id := old(db.nextId);
      var u := User(id, name, email, hash(password.value), "admin");
      && id !in old(db.users) && id !in old(db.students)
      && db.users == old(db.users)[id := u] && db.nextId == id + 1
      && reply == Reply(201, "Admin registered successfully")
      && session == Some(Session(Sign(id, Some("admin"), now, Day), AdminViewOf(u)))
  {
    var existing := FindFirst(db.users, (u: User) => u.email == email);
    if existing.Some? {
      return EmailTaken, None;
    }
    if password.None? {
      return InternalError, None;
    }
    var id := db.nextId;
    var u := User(id, name, email, hash(password.value), "admin");
    db.users := db.users[id := u];
    db.nextId := id + 1;
    reply := Reply(201, "Admin registered successfully");
    session := Some(Session(Sign(id, Some("admin"), now, Day), AdminViewOf(u)));
  }

  /** `loginStudent`: succeeds exactly when a password is given and the first
      student with the email stores its hash, and then issues a 24-hour
      "student" token for it. An unknown email and a wrong password get the
      same 401; a known email without a password makes the comparison throw
      (500). */
  method LoginStudent(db: Database, hash: string -> string, email: string, password: Option<string>, now: nat)
    returns (reply: Reply, session: Option<Session>)
    ensures session.Some? <==>
      password.Some? && exists k :: FirstStudentWith(db.students, email, k) && db.students[k].password == hash(password.value)
    ensures session.None? ==>
      reply == (if password.None? && (exists k :: k in db.students && db.students[k].email == email)
                then InternalError else BadCredentials)
    ensures session.Some? ==> reply == LoggedIn
    ensures session.Some? ==>
      exists k :: FirstStudentWith(db.students, email, k)
        && session.value == Session(Sign(db.students[k].id, Some("student"), now, Day), StudentViewOf(db.students[k]))
  {
    var found := FindFirst(db.students, (s: Student) => s.email == email);
    if found.None? {
      return BadCredentials, None;
    }
    if password.None? {
      return InternalError, None;
    }
    if db.students[found.value].password != hash(password.value) {
      return BadCredentials, None;
    }
    var s := db.students[found.value];
    reply := LoggedIn;
    session := Some(Session(Sign(s.id, Some("student"), now, Day), StudentViewOf(s)));
    assert FirstStudentWith(db.students, email, found.value);
  }

  /** `loginAdmin`: like student login, but over User records whose role is
      "admin"; the token carries role "admin". */
  method LoginAdmin(db: Database, hash: string -> string, email: string, password: Option<string>, now: nat)
    returns (reply: Reply, session: Option<Session>)
    ensures session.Some? <==>
      password.Some? && exists k :: FirstAdminWith(db.users, email, k) && db.users[k].password == hash(password.value)
    ensures session.None? ==>
      reply == (if password.None? && (exists k :: k in db.users && db.users[k].email == email && db.users[k].role == "admin")
                then InternalError else BadCredentials)
    ensures session.Some? ==> reply == LoggedIn
    ensures session.Some? ==>
      exists k :: FirstAdminWith(db.users, email, k)
        && session.value == Session(Sign(db.users[k].id, Some("admin"), now, Day), AdminViewOf(db.users[k]))
  {
    var found := FindFirst(db.users, (u: User) => u.email == email && u.role == "admin");
    if found.None? {
      return BadCredentials, None;
    }
    if password.None? {
      return InternalError, None;
    }
    if db.users[found.value].password != hash(password.value) {
      return BadCredentials, None;
    }
    var u := db.users[found.value];
    reply := LoggedIn;
    session := Some(Session(Sign(u.id, Some("admin"), now, Day), AdminViewOf(u)));
    assert FirstAdminWith(db.users, email, found.value);
  }

  /** `getCurrentUser`: the attached principal as a user object, its role
      defaulting to "student" just as the role gate defaults it. */
  function GetCurrentUser(user: Student): (v: UserView)
    ensures v.StudentView? && v.id == user.id && v.email == user.email
    ensures v.role == EffectiveRole(user.role)
    ensures user.role == "" ==> v.role == "student"
  {
    StudentView(user.id, user.name, user.email, OrElse(user.role, "student"), user.course, user.enrollmentDate)
  }

  /** The fields a profile update writes: mongoose drops undefined fields
      from an update, so an absent field keeps its stored value. */
  function Patched(s: Student, name: Option<string>, email: Option<string>, course: Option<string>): (p: Student)
    ensures p.id == s.id && p.username == s.username && p.password == s.password
    ensures p.role == s.role && p.enrollmentDate == s.enrollmentDate
    ensures p.name == (if name.Some? then name.value else s.name)
    ensures p.email == (if email.Some? then email.value else s.email)
    ensures p.course == (if course.Some? then course.value else s.course)
  {
    s.(name := if name.Some? then name.value else s.name,
       email := if email.Some? then email.value else s.email,
       course := if course.Some? then course.value else s.course)
  }

  /** The update moves to another email (a non-empty one that differs from
      the caller's), which is the only case that is checked for duplicates. */
  predicate ChangesEmail(caller: Student, email: Option<string>)
  {
    email.Some? && email.value != "" && email.value != caller.email
  }

  /** `updateStudentProfile`: moving to an email another student holds gets
      400; keeping the email skips the check. A caller whose record is gone
      makes the response step throw (500). Otherwise the caller's record gets
      the given fields; no password changes. */
  method UpdateStudentProfile(db: Database, caller: Student, name: Option<string>,
                              email: Option<string>, course: Option<string>)
    returns (reply: Reply, user: Option<UserView>)
    requires db.Valid()
    modifies db
    ensures db.Valid()
    ensures db.users == old(db.users) && db.requests == old(db.requests) && db.nextId == old(db.nextId)
    ensures PasswordsKept(old(db.students), db.students)
    ensures var conflict := ChangesEmail(caller, email) &&
                            exists k :: k in old(db.students) && old(db.students)[k].email == email.value;
      && (conflict ==> reply == EmailTaken && user.None? && db.students == old(db.students))
      && (!conflict && caller.id !in old(db.students) ==>
            reply == InternalError && user.None? && db.students == old(db.students))
      && (!conflict && caller.id in old(db.students) ==>
            var s := Patched(old(db.students)[caller.id], name, email, course);
            && db.students == old(db.students)[caller.id := s]
            && reply == Reply(200, "Profile updated successfully")
            && user == Some(StudentViewOf(s)))
    ensures EmailsUnique(old(db.students)) && caller.id in old(db.students)
            && old(db.students)[caller.id].email == caller.email && email != Some("")
            ==> EmailsUnique(db.students)
  {
    if ChangesEmail(caller, email) {
      var existing := FindFirst(db.students, (s: Student) => s.email == email.value);
      if existing.Some? {
        return EmailTaken, None;
      }
    }
    if caller.id !in db.students {
      return InternalError, None;
    }
    var s := Patched(db.students[caller.id], name, email, course);
    db.students := db.students[caller.id := s];
    reply := Reply(200, "Profile updated successfully");
    user := Some(StudentViewOf(s));
  }
}
