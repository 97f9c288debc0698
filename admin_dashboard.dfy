/** The admin dashboard's list logic: the student search and course filter,
    the list of distinct courses offered by the course drop-down, and the
    request a submitted student form sends (edit or create). */
module AdminDashboard {
  import opened Common

  /** A student as the dashboard receives it. Missing fields are "". */
  datatype StudentRow = StudentRow(id: Id, name: string, email: string, course: string)

  /** The lower-cased name or the lower-cased email contains the lower-cased
      search term. */
  predicate MatchesSearch(s: StudentRow, term: string)
  {
    Includes(Lower(s.name), Lower(term)) || Includes(Lower(s.email), Lower(term))
  }

  /** No course selected, or exactly the selected course. */
  predicate MatchesCourse(s: StudentRow, course: string)
  {
    course == "" || s.course == course
  }

  predicate Shown(s: StudentRow, term: string, course: string)
  {
    MatchesSearch(s, term) && MatchesCourse(s, course)
  }

  /** `filteredStudents`: the non-null entries that match both the search
      and the course filter, in the order they arrived. */
  function FilteredStudents(students: seq<Option<StudentRow>>, term: string, course: string)
    : (r: seq<StudentRow>)
    ensures |r| <= |students|
    ensures forall i :: 0 <= i < |r| ==> Some(r[i]) in students && Shown(r[i], term, course)
    ensures forall i :: 0 <= i < |students| && students[i].Some? && Shown(students[i].value, term, course)
              ==> students[i].value in r
  {
    if students == [] then []
    else
      var rest := FilteredStudents(students[1..], term, course);
      assert forall i :: 0 < i < |students| ==> students[i] == students[1..][i - 1];
      if students[0].Some? && Shown(students[0].value, term, course) then [students[0].value] + rest
      else rest
  }

  /** The filter works entry by entry, so it keeps the relative order of the
      students it shows. */
  lemma {:induction false} FilteredStudentsConcat(a: seq<Option<StudentRow>>, b: seq<Option<StudentRow>>,
                                                  term: string, course: string)
    ensures FilteredStudents(a + b, term, course) == FilteredStudents(a, term, course) + FilteredStudents(b, term, course)
  {
    if a == [] {
      assert a + b == b;
    } else {
      assert (a + b)[0] == a[0];
      assert (a + b)[1..] == a[1..] + b;
      FilteredStudentsConcat(a[1..], b, term, course);
    }
  }

  /** The non-null entries, in order. */
  function Present(students: seq<Option<StudentRow>>): (r: seq<StudentRow>)
    ensures forall i :: 0 <= i < |r| ==> Some(r[i]) in students
  {
    if students == [] then []
    else (if students[0].Some? then [students[0].value] else []) + Present(students[1..])
  }

  /** With an empty search term and no course selected, every non-null
      student is shown. */
  lemma {:induction false} NoFiltersShowAll(students: seq<Option<StudentRow>>)
    ensures FilteredStudents(students, "", "") == Present(students)
  {
    if students != [] {
      if students[0].Some? {
        EveryStringIncludesEmpty(Lower(students[0].value.name));
      }
      NoFiltersShowAll(students[1..]);
    }
  }

  /** Lower-casing twice is lower-casing once. */
  lemma LowerTwice(s: string)
    ensures Lower(Lower(s)) == Lower(s)
  {
  }

  /** The search ignores the case of the term: a term and its lower-cased
      form show the same students. */
  lemma SearchIgnoresCase(students: seq<Option<StudentRow>>, term: string, course: string)
    ensures FilteredStudents(students, term, course) == FilteredStudents(students, Lower(term), course)
  {
    LowerTwice(term);
  }

  // ---------------------------------------------------------------------------
  // `uniqueCourses`

  /** The truthy `course` values of the non-null students, in order. */
  function Courses(students: seq<Option<StudentRow>>): (r: seq<string>)
    ensures forall i :: 0 <= i < |r| ==> r[i] != "" && exists k :: 0 <= k < |students| && students[k].Some? && students[k].value.course == r[i]
    ensures forall k :: 0 <= k < |students| && students[k].Some? && students[k].value.course != "" ==> students[k].value.course in r
  {
    if students == [] then []
    else
      var rest := Courses(students[1..]);
      assert forall k :: 0 < k < |students| ==> students[k] == students[1..][k - 1];
      if students[0].Some? && students[0].value.course != "" then [students[0].value.course] + rest
      else rest
  }

  /** `[...new Set(s)]` for the values not yet in `seen`: each value once. */
  function Distinct(s: seq<string>, seen: set<string>): (r: seq<string>)
    ensures forall i :: 0 <= i < |r| ==> r[i] in s && r[i] !in seen
    ensures forall i :: 0 <= i < |s| && s[i] !in seen ==> s[i] in r
    ensures forall i, j :: 0 <= i < j < |r| ==> r[i] != r[j]
  {
    if s == [] then []
    else if s[0] in seen then
      var r := Distinct(s[1..], seen);
      assert forall i :: 0 < i < |s| ==> s[i] == s[1..][i - 1];
      r
    else
      var rest := Distinct(s[1..], seen + {s[0]});
      assert forall i :: 0 < i < |s| ==> s[i] == s[1..][i - 1];
      [s[0]] + rest
  }

  /** `uniqueCourses`: every non-empty course of a non-null student exactly
      once, and nothing else. */
  function UniqueCourses(students: seq<Option<StudentRow>>): (r: seq<string>)
    ensures forall i, j :: 0 <= i < j < |r| ==> r[i] != r[j]
    ensures forall i :: 0 <= i < |r| ==> r[i] != ""
    ensures forall i :: 0 <= i < |r| ==>
              exists k :: 0 <= k < |students| && students[k].Some? && students[k].value.course == r[i]
    ensures forall k :: 0 <= k < |students| && students[k].Some? && students[k].value.course != ""
              ==> students[k].value.course in r
  {
    var cs := Courses(students);
    var r := Distinct(cs, {});
    assert forall i :: 0 <= i < |r| ==> r[i] in cs;
    r
  }

  /** Every course offered in the drop-down is taken by some non-null
      student, and with an empty search term choosing it shows at least one
      student. (The course list ignores the search term, so with a term that
      matches nobody the list is empty whatever course is chosen.) */
  lemma {:induction false} ListedCourseIsTaken(students: seq<Option<StudentRow>>, c: string)
    requires c in UniqueCourses(students)
    ensures exists s :: s in Present(students) && MatchesCourse(s, c) && s.course != ""
    ensures exists s :: s in FilteredStudents(students, "", c) && s.course == c
  {
    var i :| 0 <= i < |UniqueCourses(students)| && UniqueCourses(students)[i] == c;
    var k :| 0 <= k < |students| && students[k].Some? && students[k].value.course == c;
    PresentHas(students, k);
    var s := students[k].value;
    assert Lower("") == "";
    EveryStringIncludesEmpty(Lower(s.name));
    assert Shown(s, "", c);
    assert s in FilteredStudents(students, "", c);
  }

  lemma {:induction false} PresentHas(students: seq<Option<StudentRow>>, k: nat)
    requires k < |students| && students[k].Some?
    ensures students[k].value in Present(students)
  {
    if k > 0 {
      assert students[k] == students[1..][k - 1];
      PresentHas(students[1..], k - 1);
    }
  }

  // ---------------------------------------------------------------------------
  // `handleSubmit`

  /** The modal form's fields. */
  datatype StudentForm = StudentForm(name: string, email: string, password: string, course: string)

  /** Where the form is sent: the collection, or one student. */
  datatype Target = Collection | Item(id: Id)

  datatype Body =
    | EditBody(name: string, email: string, course: string)
    | CreateBody(form: StudentForm)

  datatype Submission = Submission(verb: string, target: Target, body: Body)

  /** The password a body carries, if any. */
  function SentPassword(b: Body): Option<string>
  {
    match b
    case EditBody(_, _, _) => None
    case CreateBody(form) => Some(form.password)
  }

  /** `handleSubmit`'s request: editing a student sends PUT to that student
      with name, email and course only; otherwise POST of the whole form to
      the collection. */
  function SubmitFor(editing: Option<Id>, form: StudentForm): (r: Submission)
    ensures editing.Some? <==> r.verb == "PUT"
    ensures editing.None? <==> r.verb == "POST"
    ensures editing.Some? ==> r.target == Item(editing.value) && SentPassword(r.body).None?
    ensures editing.None? ==> r.target == Collection && SentPassword(r.body) == Some(form.password)
    ensures r.body.EditBody? ==> r.body.name == form.name && r.body.email == form.email && r.body.course == form.course
    ensures r.body.CreateBody? ==> r.body.form == form
  {
    if editing.Some? then Submission("PUT", Item(editing.value), EditBody(form.name, form.email, form.course))
    else Submission("POST", Collection, CreateBody(form))
  }
}
