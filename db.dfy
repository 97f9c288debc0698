/** The document store the controllers share: the Student, User and
    PasswordRequest collections, keyed by document id. Absent string fields
    of a document are "". */
module Db {
  import opened Common
  import opened PasswordRequestModel

  /** A Student document. `password` holds a hash; `role` is "" unless the
      document was given one outside the modelled operations. `name` is set
      by the current controller and `username` by the legacy one. */
  datatype Student = Student(
    id: Id,
    name: string,
    username: string,
    email: string,
    password: string,
    course: string,
    role: string,
    enrollmentDate: nat)

  /** A User document (administrators). */
  datatype User = User(id: Id, name: string, email: string, password: string, role: string)

  /** The replies both account controllers send for a taken email and for
      failed credentials. */
  const EmailTaken := Reply(400, "Email already exists")
  const BadCredentials := Reply(401, "Invalid email or password")

  /** No two students share an email. */
  predicate EmailsUnique(students: map<Id, Student>)
  {
    forall j, k :: j in students && k in students && students[j].email == students[k].email ==> j == k
  }

  /** No two User records share an email. */
  predicate UserEmailsUnique(users: map<Id, User>)
  {
    forall j, k :: j in users && k in users && users[j].email == users[k].email ==> j == k
  }

  /** Every student's stored password hash is kept (students may be added). */
  predicate PasswordsKept(before: map<Id, Student>, after: map<Id, Student>)
  {
    && before.Keys <= after.Keys
    && forall k :: k in before ==> after[k].password == before[k].password
  }

  /** Student `k` is the one `Student.findOne({ email })` returns: the first
      with that email in insertion order. */
  predicate FirstStudentWith(students: map<Id, Student>, email: string, k: Id)
  {
    k in students && students[k].email == email
    && forall j :: j in students && students[j].email == email ==> k <= j
  }

  class Database {
    var students: map<Id, Student>
    var users: map<Id, User>
    var requests: map<Id, PasswordRequest>
    /** The next document id to hand out. */
    var nextId: Id

    /** Documents sit under their own id, ids below `nextId`, no id in two
        collections, and every request keeps its lifecycle invariant. */
    ghost predicate Valid()
      reads this
    {
      && (forall k :: k in students ==> students[k].id == k && k < nextId)
      && (forall k :: k in users ==> users[k].id == k && k < nextId)
      && (forall k :: k in requests ==> requests[k].id == k && k < nextId && WellFormed(requests[k]))
      && students.Keys !! users.Keys
      && students.Keys !! requests.Keys
      && users.Keys !! requests.Keys
    }

    constructor ()
      ensures Valid()
      ensures students == map[] && users == map[] && requests == map[] && nextId == 0
    {
      students, users, requests, nextId := map[], map[], map[], 0;
    }
  }

  /** `Model.findOne(filter)`: the first document in natural (insertion)
      order that matches, which with counter ids is the smallest matching id. */
  method FindFirst<T>(table: map<Id, T>, matches: T -> bool) returns (r: Option<Id>)
    ensures r.None? <==> forall k :: k in table ==> !matches(table[k])
    ensures r.Some? ==> r.value in table && matches(table[r.value])
    ensures r.Some? ==> forall k :: k in table && matches(table[k]) ==> r.value <= k
  {
    r := None;
    var rest := table.Keys;
    while rest != {}
      invariant rest <= table.Keys
      invariant r.None? ==> forall k :: k in table && k !in rest ==> !matches(table[k])
      invariant r.Some? ==> r.value in table && matches(table[r.value])
      invariant r.Some? ==> forall k :: k in table && k !in rest && matches(table[k]) ==> r.value <= k
      decreases rest
    {
      var k :| k in rest;
      if matches(table[k]) && (r.None? || k < r.value) {
        r := Some(k);
      }
      rest := rest - {k};
    }
  }
}
