/** The legacy student controller, whose two handlers are the ones the
    authentication router mounts at `/student/register` and `/student/login`.
    It writes `username` rather than `name`, signs `{ userId }` alone for one
    hour, and answers with a three-field user object. */
module StudentController {
  import opened Common
  import opened Tokens
  import opened Db

  const Registered := Reply(201, "User registered")
  const LoggedIn := Reply(200, "Login success")

  /** The `user` object of both responses: no password, no role. */
  datatype AccountView = AccountView(id: Id, username: string, email: string)

  /** A token (as its claims) and the user object sent with it. */
  datatype Session = Session(token: Claims, user: AccountView)

  /** The document `Student.create({ username, email, password })` stores:
      fields the call does not give are "" and the record has no role.
      The enrollment date is taken to be the creation time. */
  function NewStudent(id: Id, username: string, email: string, hashed: string, now: nat): (s: Student)
    ensures s.id == id && s.username == username && s.email == email && s.password == hashed
    ensures s.name == "" && s.course == "" && s.role == ""
  {
    Student(id, "", username, email, hashed, "", "", now)
  }

  /** `registerStudent`: 400 and nothing created when a student already has
      the email; a body without a password makes the hash throw (500, nothing
      created); otherwise one new student holding the hash of the password,
      and a one-hour token that names it and carries no role. */
  method RegisterStudent(db: Database, hash: string -> string, username: string, email: string,
                         password: Option<string>, now: nat)
    returns (reply: Reply, session: Option<Session>)
    requires db.Valid()
    modifies db
    ensures db.Valid()
    ensures db.users == old(db.users) && db.requests == old(db.requests)
    ensures PasswordsKept(old(db.students), db.students)
    ensures EmailsUnique(old(db.students)) ==> EmailsUnique(db.students)
    ensures (exists k :: k in old(db.students) && old(db.students)[k].email == email) ==>
      reply == EmailTaken && session.None? && db.students == old(db.students) && db.nextId == old(db.nextId)
    ensures (forall k :: k in old(db.students) ==> old(db.students)[k].email != email) && password.None? ==>
      reply == InternalError && session.None? && db.students == old(db.students) && db.nextId == old(db.nextId)
    ensures (forall k :: k in old(db.students) ==> old(db.students)[k].email != email) && password.Some? ==>
      var id := old(db.nextId);
      && id !in old(db.students)
      && db.students == old(db.students)[id := NewStudent(id, username, email, hash(password.value), now)]
      && db.nextId == id + 1
      && reply == Registered
      && session == Some(Session(Sign(id, None, now, Hour), AccountView(id, username, email)))
  {
    var existing := FindFirst(db.students, (s: Student) => s.email == email);
    if existing.Some? {
      return EmailTaken, None;
    }
    if password.None? {
      return InternalError, None;
    }
    var id := db.nextId;
    db.students := db.students[id := NewStudent(id, username, email, hash(password.value), now)];
    db.nextId := id + 1;
    reply := Registered;
    session := Some(Session(Sign(id, None, now, Hour), AccountView(id, username, email)));
  }

  /** `loginStudent`: succeeds exactly when a password is given and the first
      student with the email stores its hash. An unknown email and a wrong
      password get the same 401; a known email without a password makes the
      comparison throw (500). The token carries no role and lasts an hour;
      the user object has the stored username. */
  method LoginStudent(db: Database, hash: string -> string, email: string, password: Option<string>, now: nat)
    returns (reply: Reply, session: Option<Session>)
    ensures session.Some? <==>
      password.Some? && exists k :: FirstStudentWith(db.students, email, k) && db.students[k].password == hash(password.value)
    ensures session.None? ==>
      reply == (if password.None? && (exists k :: k in db.students && db.students[k].email == email)
                then InternalError else BadCredentials)
    ensures session.Some? ==> reply == LoggedIn && session.value.token.role.None?
    ensures session.Some? ==>
      exists k :: FirstStudentWith(db.students, email, k)
        && session.value == Session(Sign(db.students[k].id, None, now, Hour),
                                  AccountView(db.students[k].id, db.students[k].username, email))
  {
    var found := FindFirst(db.students, (s: Student) => s.email == email);
    if found.None? {
      return BadCredentials, None;
    }
    if password.None? {
      return InternalError, None;
    }
    var k := found.value;
    if db.students[k].password != hash(password.value) {
      return BadCredentials, None;
    }
    reply := LoggedIn;
    session := Some(Session(Sign(db.students[k].id, None, now, Hour),
                             AccountView(db.students[k].id, db.students[k].username, email)));
    assert FirstStudentWith(db.students, email, k);
  }

  /** When registration succeeds (no existing student has the email), a
      login with the same credentials in the resulting store finds the new
      student, and its stored hash verifies the password. */
  lemma RegisterThenLogin(before: map<Id, Student>, id: Id, hash: string -> string,
                          username: string, email: string, password: string, now: nat)
    requires forall k :: k in before ==> before[k].email != email
    ensures var after := before[id := NewStudent(id, username, email, hash(password), now)];
      FirstStudentWith(after, email, id) && after[id].password == hash(password)
  {
  }
}
