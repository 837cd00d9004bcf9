/**
  LessonsController: the lessons of a course, listed behind the enrollment
  gate and edited by teachers.
*/
module Lessons {
  import opened Wrappers
  import opened Seqs
  import opened Text
  import opened Domain
  import opened Store
  import opened Access
  import opened CourseContent

  /** Position of the lesson with key `id` (FindAsync / FirstOrDefault by Id). */
  function LessonIndex(lessons: seq<Lesson>, id: int): (r: Option<nat>)
    ensures r.Some? ==> r.value < |lessons| && lessons[r.value].id == id
    ensures r.None? <==> !HasKey(lessons, (l: Lesson) => l.id, id)
  {
    IndexOf(lessons, (l: Lesson) => l.id == id)
  }

  /** Index: the lessons of one course; a student needs an approved or
      completed application for it. */
  function Index(courses: seq<Course>, students: seq<Student>, studentsCourses: seq<StudentsCourse>,
                 lessons: seq<Lesson>, id: Option<int>, name: string, isStudent: bool, userId: string)
    : (r: Page<Lesson>)
    ensures r.ToCourses? <==> id.None?
    ensures r.Missing? <==> id.Some? && name == "" && !HasCourse(courses, id.value)
    ensures r.Refused? <==>
      && id.Some? && (name != "" || HasCourse(courses, id.value))
      && isStudent && !StudentMayOpen(students, studentsCourses, userId, id.value)
    ensures r.Shown? && isStudent ==> StudentMayOpen(students, studentsCourses, userId, id.value)
    ensures r.Shown? ==> forall i :: 0 <= i < |r.items| ==> r.items[i] in lessons && r.items[i].courseId == id.value
    ensures r.Shown? ==> forall i :: 0 <= i < |lessons| && lessons[i].courseId == id.value ==> lessons[i] in r.items
  {
    ContentIndex(courses, students, studentsCourses, lessons, (l: Lesson) => l.courseId, id, name, isStudent, userId)
  }

  /** POST Create: the lesson is stored under the course of the route, with a
      fresh key. The database rejects a course key that
      does not exist, and a blank name, which the form binds as null for a
      NOT NULL column. */
  method Create(db: LearningMvcContext, courseId: int, l: Lesson) returns (o: Outcome)
    requires db.Valid()
    modifies db`lessons, db`nextId
    ensures db.Valid()
    ensures IsBlank(l.name) || !HasCourse(db.courses, courseId) ==>
      o == Failed && db.lessons == old(db.lessons) && db.nextId == old(db.nextId)
    ensures !IsBlank(l.name) && HasCourse(db.courses, courseId) ==>
      && o == Done
      && db.lessons == old(db.lessons) + [l.(id := old(db.nextId), courseId := courseId)]
      && db.nextId == old(db.nextId) + 1
  {
    if IsBlank(l.name) || !HasCourse(db.courses, courseId) {
      return Failed;
    }
    var _ := db.AddLesson(l.(courseId := courseId));
    o := Done;
  }

  /** POST Edit: the posted lesson replaces the stored one with its key.
      A key that differs from the route's, or that no row has, gives 404; a
      course key that does not exist or a blank name makes the update fail. */
  method Edit(db: LearningMvcContext, id: int, l: Lesson) returns (o: Outcome)
    requires db.Valid()
    modifies db`lessons
    ensures db.Valid()
    ensures id != l.id ==> o == NotFound && db.lessons == old(db.lessons)
    ensures id == l.id ==>
      match LessonIndex(old(db.lessons), id)
      case None => o == NotFound && db.lessons == old(db.lessons)
      case Some(k) =>
        if IsBlank(l.name) || !HasCourse(db.courses, l.courseId) then o == Failed && db.lessons == old(db.lessons)
        else o == Done && db.lessons == old(db.lessons)[k := l]
  {
    if id != l.id {
      return NotFound;
    }
    var found := LessonIndex(db.lessons, id);
    if found.None? {
      // no row was updated: the concurrency check fails and the row is gone
      return NotFound;
    }
    if IsBlank(l.name) || !HasCourse(db.courses, l.courseId) {
      return Failed;
    }
    db.UpdateLesson(found.value, l);
    o := Done;
  }

  /** POST Delete: removes the lesson with that key, which is at most one row;
      a missing key only redirects. */
  method DeleteConfirmed(db: LearningMvcContext, id: int) returns (o: Outcome)
    requires db.Valid()
    modifies db`lessons
    ensures db.Valid()
    ensures o == Done
    ensures db.lessons == Filter(old(db.lessons), (l: Lesson) => l.id != id)
    ensures |db.lessons| == if HasKey(old(db.lessons), (l: Lesson) => l.id, id) then |old(db.lessons)| - 1 else |old(db.lessons)|
  {
    RemoveByKeyCount(db.lessons, (l: Lesson) => l.id, id, (l: Lesson) => l.id != id);
    db.RemoveLesson(id);
    o := Done;
  }
}
