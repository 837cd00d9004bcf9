/**
  TestsController: the tests of a course, listed behind the enrollment gate
  and edited by teachers.
*/
module Tests {
  import opened Wrappers
  import opened Seqs
  import opened Text
  import opened Domain
  import opened Store
  import opened Access
  import opened CourseContent

  /** Position of the test with key `id` (FindAsync / FirstOrDefault by Id). */
  function TestIndex(tests: seq<Test>, id: int): (r: Option<nat>)
    ensures r.Some? ==> r.value < |tests| && tests[r.value].id == id
    ensures r.None? <==> !HasKey(tests, (t: Test) => t.id, id)
  {
    IndexOf(tests, (t: Test) => t.id == id)
  }

  /** Index: the tests of one course; a student needs an approved or
      completed application for it. */
  function Index(courses: seq<Course>, students: seq<Student>, studentsCourses: seq<StudentsCourse>,
                 tests: seq<Test>, id: Option<int>, name: string, isStudent: bool, userId: string)
    : (r: Page<Test>)
    ensures r.ToCourses? <==> id.None?
    ensures r.Missing? <==> id.Some? && name == "" && !HasCourse(courses, id.value)
    ensures r.Refused? <==>
      && id.Some? && (name != "" || HasCourse(courses, id.value))
      && isStudent && !StudentMayOpen(students, studentsCourses, userId, id.value)
    ensures r.Shown? && isStudent ==> StudentMayOpen(students, studentsCourses, userId, id.value)
    ensures r.Shown? ==> forall i :: 0 <= i < |r.items| ==> r.items[i] in tests && r.items[i].courseId == id.value
    ensures r.Shown? ==> forall i :: 0 <= i < |tests| && tests[i].courseId == id.value ==> tests[i] in r.items
  {
    ContentIndex(courses, students, studentsCourses, tests, (t: Test) => t.courseId, id, name, isStudent, userId)
  }

  /** POST Create: the test is stored under the course of the route, with a
      fresh key. The database rejects a course key that
      does not exist, and a blank name, which the form binds as null for a
      NOT NULL column. */
  method Create(db: LearningMvcContext, courseId: int, t: Test) returns (o: Outcome)
    requires db.Valid()
    modifies db`tests, db`nextId
    ensures db.Valid()
    ensures IsBlank(t.name) || !HasCourse(db.courses, courseId) ==>
      o == Failed && db.tests == old(db.tests) && db.nextId == old(db.nextId)
    ensures !IsBlank(t.name) && HasCourse(db.courses, courseId) ==>
      && o == Done
      && db.tests == old(db.tests) + [t.(id := old(db.nextId), courseId := courseId)]
      && db.nextId == old(db.nextId) + 1
  {
    if IsBlank(t.name) || !HasCourse(db.courses, courseId) {
      return Failed;
    }
    var _ := db.AddTest(t.(courseId := courseId));
    o := Done;
  }

  /** POST Edit: the posted test replaces the stored one with its key.
      A key that differs from the route's, or that no row has, gives 404; a
      course key that does not exist or a blank name makes the update fail. */
  method Edit(db: LearningMvcContext, id: int, t: Test) returns (o: Outcome)
    requires db.Valid()
    modifies db`tests
    ensures db.Valid()
    ensures id != t.id ==> o == NotFound && db.tests == old(db.tests)
    ensures id == t.id ==>
      match TestIndex(old(db.tests), id)
      case None => o == NotFound && db.tests == old(db.tests)
      case Some(k) =>
        if IsBlank(t.name) || !HasCourse(db.courses, t.courseId) then o == Failed && db.tests == old(db.tests)
        else o == Done && db.tests == old(db.tests)[k := t]
  {
    if id != t.id {
      return NotFound;
    }
    var found := TestIndex(db.tests, id);
    if found.None? {
      // no row was updated: the concurrency check fails and the row is gone
      return NotFound;
    }
    if IsBlank(t.name) || !HasCourse(db.courses, t.courseId) {
      return Failed;
    }
    db.UpdateTest(found.value, t);
    o := Done;
  }

  /** POST Delete: removes the test with that key, which is at most one row;
      a missing key only redirects. */
  method DeleteConfirmed(db: LearningMvcContext, id: int) returns (o: Outcome)
    requires db.Valid()
    modifies db`tests
    ensures db.Valid()
    ensures o == Done
    ensures db.tests == Filter(old(db.tests), (t: Test) => t.id != id)
    ensures |db.tests| == if HasKey(old(db.tests), (t: Test) => t.id, id) then |old(db.tests)| - 1 else |old(db.tests)|
  {
    RemoveByKeyCount(db.tests, (t: Test) => t.id, id, (t: Test) => t.id != id);
    db.RemoveTest(id);
    o := Done;
  }
}
