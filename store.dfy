/**
  The database context: one table per entity, each a sequence of rows in
  table order, and the identity counter the database draws new keys from.
  Every request handler reads and updates these tables in place.
*/
module Store {
  import opened Wrappers
  import opened Seqs
  import opened Domain

  /** No two rows of `s` share a key. */
  ghost predicate UniqueKeys<T>(s: seq<T>, key: T -> int)
  {
    forall i, j :: 0 <= i < j < |s| ==> key(s[i]) != key(s[j])
  }

  /** Every key of `s` was handed out before `next`. */
  ghost predicate KeysBelow<T>(s: seq<T>, key: T -> int, next: int)
  {
    forall i :: 0 <= i < |s| ==> key(s[i]) < next
  }

  predicate HasCourse(courses: seq<Course>, id: int)
  {
    exists c :: c in courses && c.id == id
  }

  predicate HasStudent(students: seq<Student>, id: int)
  {
    exists s :: s in students && s.id == id
  }

  predicate HasTeacher(teachers: seq<Teacher>, id: int)
  {
    exists t :: t in teachers && t.id == id
  }

  predicate HasEnrollment(studentsCourses: seq<StudentsCourse>, id: int)
  {
    exists e :: e in studentsCourses && e.id == id
  }

  /** Position of the course with primary key `id` (Courses.FindAsync). */
  function CourseIndex(courses: seq<Course>, id: int): Option<nat>
  {
    IndexOf(courses, (c: Course) => c.id == id)
  }

  /** Position of the enrollment with primary key `id` (StudentsCourses.FindAsync). */
  function EnrollmentIndex(studentsCourses: seq<StudentsCourse>, id: int): Option<nat>
  {
    IndexOf(studentsCourses, (e: StudentsCourse) => e.id == id)
  }

  /** The student record of the signed-in user (Students.FirstOrDefault by IdentityId). */
  function StudentOf(students: seq<Student>, userId: string): Option<Student>
  {
    match IndexOf(students, (s: Student) => s.identityId == userId)
    case None => None
    case Some(k) => Some(students[k])
  }

  /** The teacher record of the signed-in user (Teachers.FirstOrDefault by IdentityId). */
  function TeacherOf(teachers: seq<Teacher>, userId: string): Option<Teacher>
  {
    match IndexOf(teachers, (t: Teacher) => t.identityId == userId)
    case None => None
    case Some(k) => Some(teachers[k])
  }

  /** Whether some TeachersCourse row links the teacher to the course. */
  predicate IsLinked(teachersCourses: seq<TeachersCourse>, teacherId: int, courseId: int)
  {
    exists l :: l in teachersCourses && l.teacherId == teacherId && l.courseId == courseId
  }

  /** Dropping rows keeps the keys unique and below the counter. */
  lemma {:induction false} FilterKeepsKeys<T>(s: seq<T>, p: T -> bool, key: T -> int, next: int)
    requires UniqueKeys(s, key) && KeysBelow(s, key, next)
    ensures UniqueKeys(Filter(s, p), key) && KeysBelow(Filter(s, p), key, next)
    decreases |s|
  {
    if s != [] {
      FilterKeepsKeys(s[1..], p, key, next);
      var rest := Filter(s[1..], p);
      forall i | 0 <= i < |rest| ensures key(rest[i]) != key(s[0]) {
        var j :| 0 <= j < |s[1..]| && s[1..][j] == rest[i];
        assert s[j + 1] == rest[i];
      }
    }
  }

  /** Some row of `s` carries the key `id`. */
  predicate HasKey<T>(s: seq<T>, key: T -> int, id: int)
  {
    exists i :: 0 <= i < |s| && key(s[i]) == id
  }

  /** Removing the rows with one key from a table with unique keys removes
      exactly one row when the key is present, and none otherwise. */
  lemma {:induction false} RemoveByKeyCount<T>(s: seq<T>, key: T -> int, id: int, p: T -> bool)
    requires UniqueKeys(s, key)
    requires forall x :: p(x) == (key(x) != id)
    ensures |Filter(s, p)| == if HasKey(s, key, id) then |s| - 1 else |s|
    decreases |s|
  {
    if s != [] {
      assert UniqueKeys(s[1..], key) by {
        forall i, j | 0 <= i < j < |s[1..]| ensures key(s[1..][i]) != key(s[1..][j]) {
          assert s[1..][i] == s[i + 1] && s[1..][j] == s[j + 1];
        }
      }
      RemoveByKeyCount(s[1..], key, id, p);
      if key(s[0]) == id {
        assert !HasKey(s[1..], key, id) by {
          forall i | 0 <= i < |s[1..]| ensures key(s[1..][i]) != id {
            assert s[1..][i] == s[i + 1];
          }
        }
      } else {
        if HasKey(s, key, id) {
          var i :| 0 <= i < |s| && key(s[i]) == id;
          assert key(s[1..][i - 1]) == id;
        }
        if HasKey(s[1..], key, id) {
          var i :| 0 <= i < |s[1..]| && key(s[1..][i]) == id;
          assert key(s[i + 1]) == id;
        }
      }
    }
  }

  /** The enrollment `enrollmentId` belongs to the course `courseId`. */
  predicate EnrollmentOfCourse(studentsCourses: seq<StudentsCourse>, enrollmentId: int, courseId: int)
  {
    exists e :: e in studentsCourses && e.id == enrollmentId && e.courseId == courseId
  }

  class LearningMvcContext {
    var courses: seq<Course>
    var students: seq<Student>
    var teachers: seq<Teacher>
    var studentsCourses: seq<StudentsCourse>
    var teachersCourses: seq<TeachersCourse>
    var certificates: seq<Certificate>
    var lessons: seq<Lesson>
    var tests: seq<Test>
    var reviews: seq<Review>
    /** The next identity value; every key inserted by a handler comes from here. */
    var nextId: int

    /** Primary keys are unique in every table, and inserted ones are below `nextId`. */
    ghost predicate KeysValid()
      reads this
    {
      && UniqueKeys(courses, (c: Course) => c.id) && KeysBelow(courses, (c: Course) => c.id, nextId)
      && UniqueKeys(students, (s: Student) => s.id)
      && UniqueKeys(teachers, (t: Teacher) => t.id)
      && UniqueKeys(studentsCourses, (e: StudentsCourse) => e.id)
      && KeysBelow(studentsCourses, (e: StudentsCourse) => e.id, nextId)
      && UniqueKeys(teachersCourses, (l: TeachersCourse) => l.id)
      && KeysBelow(teachersCourses, (l: TeachersCourse) => l.id, nextId)
      && UniqueKeys(certificates, (c: Certificate) => c.id)
      && KeysBelow(certificates, (c: Certificate) => c.id, nextId)
      && UniqueKeys(lessons, (l: Lesson) => l.id) && KeysBelow(lessons, (l: Lesson) => l.id, nextId)
      && UniqueKeys(tests, (t: Test) => t.id) && KeysBelow(tests, (t: Test) => t.id, nextId)
      && UniqueKeys(reviews, (r: Review) => r.id) && KeysBelow(reviews, (r: Review) => r.id, nextId)
    }

    /** Every foreign key names an existing row (the database's FK constraints). */
    ghost predicate ReferencesValid()
      reads this
    {
      && (forall e :: e in studentsCourses ==> HasCourse(courses, e.courseId) && HasStudent(students, e.studentId))
      && (forall l :: l in teachersCourses ==> HasCourse(courses, l.courseId) && HasTeacher(teachers, l.teacherId))
      && (forall c :: c in certificates ==> HasEnrollment(studentsCourses, c.studentCoursesId))
      && (forall l :: l in lessons ==> HasCourse(courses, l.courseId))
      && (forall t :: t in tests ==> HasCourse(courses, t.courseId))
      && (forall r :: r in reviews ==> HasCourse(courses, r.courseId))
    }

    ghost predicate Valid()
      reads this
    {
      KeysValid() && ReferencesValid()
    }

    /** A database holding the given accounts and nothing else. */
    constructor (students: seq<Student>, teachers: seq<Teacher>)
      requires UniqueKeys(students, (s: Student) => s.id)
      requires UniqueKeys(teachers, (t: Teacher) => t.id)
      ensures Valid()
      ensures this.students == students && this.teachers == teachers
      ensures courses == [] && studentsCourses == [] && teachersCourses == [] && certificates == []
      ensures lessons == [] && tests == [] && reviews == []
    {
      this.students := students;
      this.teachers := teachers;
      courses, studentsCourses, teachersCourses, certificates := [], [], [], [];
      lessons, tests, reviews := [], [], [];
      nextId := 1;
    }

    // ===== Writes through the context (Add/Update followed by SaveChanges) =====
    // An inserted row receives the next identity value; a foreign key that
    // names no row is refused by the database, so callers check it first.

    /** Courses.Add: stores the course under a fresh key. */
    method AddCourse(name: string, info: Option<string>) returns (id: int)
      requires Valid()
      modifies this`courses, this`nextId
      ensures Valid()
      ensures id == old(nextId) && nextId == old(nextId) + 1
      ensures courses == old(courses) + [Course(id, name, info)]
    {
      id := nextId;
      courses := courses + [Course(id, name, info)];
      nextId := nextId + 1;
      forall l | l in teachersCourses ensures HasCourse(courses, l.courseId) {
        var c :| c in old(courses) && c.id == l.courseId;
        assert c in courses;
      }
      forall e | e in studentsCourses ensures HasCourse(courses, e.courseId) {
        var c :| c in old(courses) && c.id == e.courseId;
        assert c in courses;
      }
      forall l | l in lessons ensures HasCourse(courses, l.courseId) {
        var c :| c in old(courses) && c.id == l.courseId;
        assert c in courses;
      }
      forall t | t in tests ensures HasCourse(courses, t.courseId) {
        var c :| c in old(courses) && c.id == t.courseId;
        assert c in courses;
      }
      forall r | r in reviews ensures HasCourse(courses, r.courseId) {
        var c :| c in old(courses) && c.id == r.courseId;
        assert c in courses;
      }
    }

    /** StudentsCourses.Add: stores an application under a fresh key. */
    method AddEnrollment(courseId: int, studentId: int, status: Status) returns (id: int)
      requires Valid()
      requires HasCourse(courses, courseId) && HasStudent(students, studentId)
      modifies this`studentsCourses, this`nextId
      ensures Valid()
      ensures id == old(nextId) && nextId == old(nextId) + 1
      ensures studentsCourses == old(studentsCourses) + [StudentsCourse(id, courseId, studentId, status)]
    {
      id := nextId;
      studentsCourses := studentsCourses + [StudentsCourse(id, courseId, studentId, status)];
      nextId := nextId + 1;
      forall c | c in certificates ensures HasEnrollment(studentsCourses, c.studentCoursesId) {
        var e :| e in old(studentsCourses) && e.id == c.studentCoursesId;
        assert e in studentsCourses;
      }
    }

    /** TeachersCourses.Add: links a teacher to a course under a fresh key. */
    method AddTeacherLink(courseId: int, teacherId: int) returns (id: int)
      requires Valid()
      requires HasCourse(courses, courseId) && HasTeacher(teachers, teacherId)
      modifies this`teachersCourses, this`nextId
      ensures Valid()
      ensures id == old(nextId) && nextId == old(nextId) + 1
      ensures teachersCourses == old(teachersCourses) + [TeachersCourse(id, courseId, teacherId)]
    {
      id := nextId;
      teachersCourses := teachersCourses + [TeachersCourse(id, courseId, teacherId)];
      nextId := nextId + 1;
    }

    /** Certificates.Add: stores a certificate under a fresh key. */
    method AddCertificate(studentCoursesId: int, name: string, info: Option<string>) returns (id: int)
      requires Valid()
      requires HasEnrollment(studentsCourses, studentCoursesId)
      modifies this`certificates, this`nextId
      ensures Valid()
      ensures id == old(nextId) && nextId == old(nextId) + 1
      ensures certificates == old(certificates) + [Certificate(id, studentCoursesId, name, info)]
    {
      id := nextId;
      certificates := certificates + [Certificate(id, studentCoursesId, name, info)];
      nextId := nextId + 1;
    }

    /** Lessons.Add: stores the lesson under a fresh key, whatever key it carried. */
    method AddLesson(lesson: Lesson) returns (id: int)
      requires Valid()
      requires HasCourse(courses, lesson.courseId)
      modifies this`lessons, this`nextId
      ensures Valid()
      ensures id == old(nextId) && nextId == old(nextId) + 1
      ensures lessons == old(lessons) + [lesson.(id := id)]
    {
      id := nextId;
      lessons := lessons + [lesson.(id := id)];
      nextId := nextId + 1;
    }

    /** Tests.Add: stores the test under a fresh key, whatever key it carried. */
    method AddTest(test: Test) returns (id: int)
      requires Valid()
      requires HasCourse(courses, test.courseId)
      modifies this`tests, this`nextId
      ensures Valid()
      ensures id == old(nextId) && nextId == old(nextId) + 1
      ensures tests == old(tests) + [test.(id := id)]
    {
      id := nextId;
      tests := tests + [test.(id := id)];
      nextId := nextId + 1;
    }

    /** Reviews.Add: stores the review under a fresh key, whatever key it carried. */
    method AddReview(review: Review) returns (id: int)
      requires Valid()
      requires HasCourse(courses, review.courseId)
      modifies this`reviews, this`nextId
      ensures Valid()
      ensures id == old(nextId) && nextId == old(nextId) + 1
      ensures reviews == old(reviews) + [review.(id := id)]
    {
      id := nextId;
      reviews := reviews + [review.(id := id)];
      nextId := nextId + 1;
    }

    /** Courses.Update: the row at `k` is replaced by a course with the same key. */
    method UpdateCourse(k: nat, course: Course)
      requires Valid()
      requires k < |courses| && course.id == courses[k].id
      modifies this`courses
      ensures Valid()
      ensures courses == old(courses)[k := course]
    {
      courses := courses[k := course];
      forall id | HasCourse(old(courses), id) ensures HasCourse(courses, id) {
        var c :| c in old(courses) && c.id == id;
        var j :| 0 <= j < |old(courses)| && old(courses)[j] == c;
        assert courses[j] in courses;
      }
    }

    /** Lessons.Update: the row at `k` is replaced by a lesson with the same key. */
    method UpdateLesson(k: nat, lesson: Lesson)
      requires Valid()
      requires k < |lessons| && lesson.id == lessons[k].id && HasCourse(courses, lesson.courseId)
      modifies this`lessons
      ensures Valid()
      ensures lessons == old(lessons)[k := lesson]
    {
      lessons := lessons[k := lesson];
    }

    /** Tests.Update: the row at `k` is replaced by a test with the same key. */
    method UpdateTest(k: nat, test: Test)
      requires Valid()
      requires k < |tests| && test.id == tests[k].id && HasCourse(courses, test.courseId)
      modifies this`tests
      ensures Valid()
      ensures tests == old(tests)[k := test]
    {
      tests := tests[k := test];
    }

    /** Reviews.Update: the row at `k` is replaced by a review with the same key. */
    method UpdateReview(k: nat, review: Review)
      requires Valid()
      requires k < |reviews| && review.id == reviews[k].id && HasCourse(courses, review.courseId)
      modifies this`reviews
      ensures Valid()
      ensures reviews == old(reviews)[k := review]
    {
      reviews := reviews[k := review];
    }

    /** Lessons.Remove: drops the lesson with that key, if any; nothing refers to lessons. */
    method RemoveLesson(id: int)
      requires Valid()
      modifies this`lessons
      ensures Valid()
      ensures lessons == Filter(old(lessons), (l: Lesson) => l.id != id)
    {
      FilterKeepsKeys(lessons, (l: Lesson) => l.id != id, (l: Lesson) => l.id, nextId);
      lessons := Filter(lessons, (l: Lesson) => l.id != id);
    }

    /** Tests.Remove: drops the test with that key, if any; nothing refers to tests. */
    method RemoveTest(id: int)
      requires Valid()
      modifies this`tests
      ensures Valid()
      ensures tests == Filter(old(tests), (t: Test) => t.id != id)
    {
      FilterKeepsKeys(tests, (t: Test) => t.id != id, (t: Test) => t.id, nextId);
      tests := Filter(tests, (t: Test) => t.id != id);
    }

    /** Reviews.Remove: drops the review with that key, if any; nothing refers to reviews. */
    method RemoveReview(id: int)
      requires Valid()
      modifies this`reviews
      ensures Valid()
      ensures reviews == Filter(old(reviews), (r: Review) => r.id != id)
    {
      FilterKeepsKeys(reviews, (r: Review) => r.id != id, (r: Review) => r.id, nextId);
      reviews := Filter(reviews, (r: Review) => r.id != id);
    }

    /** Certificates.RemoveRange of the certificates issued for one application. */
    method RemoveCertificatesOf(enrollmentId: int)
      requires Valid()
      modifies this`certificates
      ensures Valid()
      ensures certificates == Filter(old(certificates), (c: Certificate) => c.studentCoursesId != enrollmentId)
    {
      FilterKeepsKeys(certificates, (c: Certificate) => c.studentCoursesId != enrollmentId,
                      (c: Certificate) => c.id, nextId);
      certificates := Filter(certificates, (c: Certificate) => c.studentCoursesId != enrollmentId);
    }

    /** StudentsCourses.RemoveRange of a course's applications; no
        certificate may still refer to one of them. */
    method RemoveEnrollmentsOf(courseId: int)
      requires Valid()
      requires forall c :: c in certificates ==> !EnrollmentOfCourse(studentsCourses, c.studentCoursesId, courseId)
      modifies this`studentsCourses
      ensures Valid()
      ensures studentsCourses == Filter(old(studentsCourses), (e: StudentsCourse) => e.courseId != courseId)
      ensures forall e :: e in studentsCourses ==> e.courseId != courseId
    {
      FilterKeepsKeys(studentsCourses, (e: StudentsCourse) => e.courseId != courseId, (e: StudentsCourse) => e.id, nextId);
      ghost var oldEnrollments := studentsCourses;
      studentsCourses := Filter(studentsCourses, (e: StudentsCourse) => e.courseId != courseId);
      forall c | c in certificates ensures HasEnrollment(studentsCourses, c.studentCoursesId) {
        var e :| e in oldEnrollments && e.id == c.studentCoursesId;
        var j :| 0 <= j < |oldEnrollments| && oldEnrollments[j] == e;
      }
    }

    /** TeachersCourses.RemoveRange of a course's teacher links. */
    method RemoveLinksOf(courseId: int)
      requires Valid()
      modifies this`teachersCourses
      ensures Valid()
      ensures teachersCourses == Filter(old(teachersCourses), (l: TeachersCourse) => l.courseId != courseId)
      ensures forall l :: l in teachersCourses ==> l.courseId != courseId
    {
      FilterKeepsKeys(teachersCourses, (l: TeachersCourse) => l.courseId != courseId, (l: TeachersCourse) => l.id, nextId);
      teachersCourses := Filter(teachersCourses, (l: TeachersCourse) => l.courseId != courseId);
    }

    /** The database's cascade from a course to its lessons. */
    method RemoveLessonsOf(courseId: int)
      requires Valid()
      modifies this`lessons
      ensures Valid()
      ensures lessons == Filter(old(lessons), (l: Lesson) => l.courseId != courseId)
      ensures forall l :: l in lessons ==> l.courseId != courseId
    {
      FilterKeepsKeys(lessons, (l: Lesson) => l.courseId != courseId, (l: Lesson) => l.id, nextId);
      lessons := Filter(lessons, (l: Lesson) => l.courseId != courseId);
    }

    /** The database's cascade from a course to its tests. */
    method RemoveTestsOf(courseId: int)
      requires Valid()
      modifies this`tests
      ensures Valid()
      ensures tests == Filter(old(tests), (t: Test) => t.courseId != courseId)
      ensures forall t :: t in tests ==> t.courseId != courseId
    {
      FilterKeepsKeys(tests, (t: Test) => t.courseId != courseId, (t: Test) => t.id, nextId);
      tests := Filter(tests, (t: Test) => t.courseId != courseId);
    }

    /** The database's cascade from a course to its reviews. */
    method RemoveReviewsOf(courseId: int)
      requires Valid()
      modifies this`reviews
      ensures Valid()
      ensures reviews == Filter(old(reviews), (r: Review) => r.courseId != courseId)
      ensures forall r :: r in reviews ==> r.courseId != courseId
    {
      FilterKeepsKeys(reviews, (r: Review) => r.courseId != courseId, (r: Review) => r.id, nextId);
      reviews := Filter(reviews, (r: Review) => r.courseId != courseId);
    }

    /** Courses.Remove once nothing refers to the course any more. */
    method RemoveCourseRow(id: int)
      requires Valid()
      requires forall e :: e in studentsCourses ==> e.courseId != id
      requires forall l :: l in teachersCourses ==> l.courseId != id
      requires forall l :: l in lessons ==> l.courseId != id
      requires forall t :: t in tests ==> t.courseId != id
      requires forall r :: r in reviews ==> r.courseId != id
      modifies this`courses
      ensures Valid()
      ensures courses == Filter(old(courses), (c: Course) => c.id != id)
    {
      FilterKeepsKeys(courses, (c: Course) => c.id != id, (c: Course) => c.id, nextId);
      ghost var oldCourses := courses;
      courses := Filter(courses, (c: Course) => c.id != id);
      forall courseId | courseId != id && HasCourse(oldCourses, courseId) ensures HasCourse(courses, courseId) {
        var c :| c in oldCourses && c.id == courseId;
        var j :| 0 <= j < |oldCourses| && oldCourses[j] == c;
      }
    }

    /** Removes a course together with every row that refers to it. */
    method RemoveCourse(id: int)
      requires Valid()
      requires forall c :: c in certificates ==> !EnrollmentOfCourse(studentsCourses, c.studentCoursesId, id)
      modifies this`courses, this`studentsCourses, this`teachersCourses, this`lessons, this`tests, this`reviews
      ensures Valid()
      ensures courses == Filter(old(courses), (c: Course) => c.id != id)
      ensures studentsCourses == Filter(old(studentsCourses), (e: StudentsCourse) => e.courseId != id)
      ensures teachersCourses == Filter(old(teachersCourses), (l: TeachersCourse) => l.courseId != id)
      ensures lessons == Filter(old(lessons), (l: Lesson) => l.courseId != id)
      ensures tests == Filter(old(tests), (t: Test) => t.courseId != id)
      ensures reviews == Filter(old(reviews), (r: Review) => r.courseId != id)
    {
      RemoveEnrollmentsOf(id);
      RemoveLinksOf(id);
      RemoveLessonsOf(id);
      RemoveTestsOf(id);
      RemoveReviewsOf(id);
      RemoveCourseRow(id);
    }

    /** StudentsCourses.Update of one application's status. */
    method SetStatus(k: nat, status: Status)
      requires Valid()
      requires k < |studentsCourses|
      modifies this`studentsCourses
      ensures Valid()
      ensures studentsCourses == old(studentsCourses)[k := old(studentsCourses)[k].(status := status)]
    {
      studentsCourses := studentsCourses[k := studentsCourses[k].(status := status)];
      forall c | c in certificates ensures HasEnrollment(studentsCourses, c.studentCoursesId) {
        var e :| e in old(studentsCourses) && e.id == c.studentCoursesId;
        var j :| 0 <= j < |old(studentsCourses)| && old(studentsCourses)[j] == e;
        assert studentsCourses[j] in studentsCourses;
      }
    }
  }
}
