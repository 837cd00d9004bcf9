/**
  StudentsCoursesController: students apply for a course and ask to complete
  it, teachers approve or reject applications, and both sides list them.
*/
module StudentsCourses {
  import opened Wrappers
  import opened Seqs
  import opened Domain
  import opened Store
  import opened Access

  /** No student holds two applications for the same course. Nothing in the
      database enforces this; the duplicate check of CreatePost keeps it. */
  ghost predicate OneApplicationPerPair(studentsCourses: seq<StudentsCourse>)
  {
    forall i, j :: 0 <= i < j < |studentsCourses| ==>
      studentsCourses[i].courseId != studentsCourses[j].courseId
      || studentsCourses[i].studentId != studentsCourses[j].studentId
  }

  /** Every certificate belongs to a completed application. This is what the
      workflow intends; Approve and Reject can break it (see Certificates). */
  ghost predicate CertificatesBacked(studentsCourses: seq<StudentsCourse>, certificates: seq<Certificate>)
  {
    forall c :: c in certificates ==>
      exists e :: e in studentsCourses && e.id == c.studentCoursesId && e.status == Completed
  }

  /** Changing a status keeps every key and every enrollment id in place. */
  lemma StatusChangeKeepsKeys(studentsCourses: seq<StudentsCourse>, k: nat, s: Status)
    requires k < |studentsCourses|
    ensures var after := studentsCourses[k := studentsCourses[k].(status := s)];
            && (forall id :: HasEnrollment(after, id) <==> HasEnrollment(studentsCourses, id))
            && (forall i :: 0 <= i < |after| ==>
                  && after[i].id == studentsCourses[i].id
                  && after[i].courseId == studentsCourses[i].courseId
                  && after[i].studentId == studentsCourses[i].studentId)
  {
    var after := studentsCourses[k := studentsCourses[k].(status := s)];
    forall id | HasEnrollment(studentsCourses, id) ensures HasEnrollment(after, id) {
      var e :| e in studentsCourses && e.id == id;
      var j :| 0 <= j < |studentsCourses| && studentsCourses[j] == e;
      assert after[j] in after;
    }
    forall id | HasEnrollment(after, id) ensures HasEnrollment(studentsCourses, id) {
      var e :| e in after && e.id == id;
      var j :| 0 <= j < |after| && after[j] == e;
      assert studentsCourses[j] in studentsCourses;
    }
  }

  /** Changing a status keeps every student at one application per course. */
  lemma StatusChangeKeepsPairs(studentsCourses: seq<StudentsCourse>, k: nat, s: Status)
    requires k < |studentsCourses| && OneApplicationPerPair(studentsCourses)
    ensures OneApplicationPerPair(studentsCourses[k := studentsCourses[k].(status := s)])
  {
    var after := studentsCourses[k := studentsCourses[k].(status := s)];
    forall i, j | 0 <= i < j < |after|
      ensures after[i].courseId != after[j].courseId || after[i].studentId != after[j].studentId
    {
      assert after[i].courseId == studentsCourses[i].courseId && after[i].studentId == studentsCourses[i].studentId;
      assert after[j].courseId == studentsCourses[j].courseId && after[j].studentId == studentsCourses[j].studentId;
    }
  }

  // ===== Student side =====

  /** POST Create: a student applies for a course. */
  method CreatePost(db: LearningMvcContext, userId: string, courseId: int) returns (o: Outcome)
    requires db.Valid()
    modifies db`studentsCourses, db`nextId
    ensures db.Valid()
    ensures match StudentOf(db.students, userId)
      case None =>
        o == NotFound && db.studentsCourses == old(db.studentsCourses) && db.nextId == old(db.nextId)
      case Some(st) =>
        if ApplicationIndex(old(db.studentsCourses), courseId, st.id).Some? then
          o == FormError && db.studentsCourses == old(db.studentsCourses) && db.nextId == old(db.nextId)
        else if !HasCourse(db.courses, courseId) then
          o == Failed && db.studentsCourses == old(db.studentsCourses) && db.nextId == old(db.nextId)
        else
          && o == Done
          && db.studentsCourses == old(db.studentsCourses) + [StudentsCourse(old(db.nextId), courseId, st.id, Pending)]
          && db.nextId == old(db.nextId) + 1
    ensures OneApplicationPerPair(old(db.studentsCourses)) ==> OneApplicationPerPair(db.studentsCourses)
    ensures CertificatesBacked(old(db.studentsCourses), db.certificates)
            ==> CertificatesBacked(db.studentsCourses, db.certificates)
  {
    var student := StudentOf(db.students, userId);
    if student.None? {
      return NotFound;
    }
    var st := student.value;
    assert HasStudent(db.students, st.id) by {
      var k := IndexOf(db.students, (s: Student) => s.identityId == userId).value;
      assert db.students[k] in db.students;
    }
    var existing := ApplicationIndex(db.studentsCourses, courseId, st.id);
    if existing.Some? {
      return FormError;
    }
    if !HasCourse(db.courses, courseId) {
      // the foreign key to Courses rejects the insert
      return Failed;
    }
    var _ := db.AddEnrollment(courseId, st.id, Pending);
    o := Done;
  }

  /** MyCourses: the caller's applications that are approved or completed. */
  function MyCourses(students: seq<Student>, studentsCourses: seq<StudentsCourse>, userId: string)
    : (r: Option<seq<StudentsCourse>>)
    ensures r.None? <==> StudentOf(students, userId).None?
    ensures r.Some? ==>
      forall e :: e in r.value <==>
        e in studentsCourses && e.studentId == StudentOf(students, userId).value.id && GrantsAccess(e.status)
  {
    match StudentOf(students, userId)
    case None => None
    case Some(st) =>
      Some(Filter(studentsCourses, (e: StudentsCourse) =>
        e.studentId == st.id && (e.status == Approved || e.status == Completed)))
  }

  /** When every student has at most one application per course, MyCourses
      lists exactly the courses whose lessons and tests the gate opens. */
  lemma MyCoursesAgreesWithGate(students: seq<Student>, studentsCourses: seq<StudentsCourse>, userId: string,
                                e: StudentsCourse)
    requires OneApplicationPerPair(studentsCourses)
    requires MyCourses(students, studentsCourses, userId).Some?
    requires e in studentsCourses && e.studentId == StudentOf(students, userId).value.id
    ensures e in MyCourses(students, studentsCourses, userId).value
            <==> StudentMayOpen(students, studentsCourses, userId, e.courseId)
  {
    var st := StudentOf(students, userId).value;
    var j :| 0 <= j < |studentsCourses| && studentsCourses[j] == e;
    var k := ApplicationIndex(studentsCourses, e.courseId, st.id);
    assert k.Some?;
    assert k.value == j;
  }

  /** RequestCompletion: the student asks to complete an approved course. The
      handler does not check that the application is the caller's. */
  method RequestCompletion(db: LearningMvcContext, id: int) returns (o: Outcome)
    requires db.Valid()
    modifies db`studentsCourses
    ensures db.Valid()
    ensures match EnrollmentIndex(old(db.studentsCourses), id)
      case None => o == NotFound && db.studentsCourses == old(db.studentsCourses)
      case Some(k) =>
        if old(db.studentsCourses)[k].status != Approved then
          o == BadRequest && db.studentsCourses == old(db.studentsCourses)
        else
          && o == Done
          && db.studentsCourses == old(db.studentsCourses)[k := old(db.studentsCourses)[k].(status := CompletionRequested)]
    ensures OneApplicationPerPair(old(db.studentsCourses)) ==> OneApplicationPerPair(db.studentsCourses)
    ensures CertificatesBacked(old(db.studentsCourses), db.certificates)
            ==> CertificatesBacked(db.studentsCourses, db.certificates)
  {
    var found := EnrollmentIndex(db.studentsCourses, id);
    if found.None? {
      return NotFound;
    }
    var k := found.value;
    if db.studentsCourses[k].status != Approved {
      return BadRequest;
    }
    StatusChangeKeepsKeys(db.studentsCourses, k, CompletionRequested);
    db.SetStatus(k, CompletionRequested);
    o := Done;
    forall c | c in db.certificates && CertificatesBacked(old(db.studentsCourses), db.certificates)
      ensures exists e :: e in db.studentsCourses && e.id == c.studentCoursesId && e.status == Completed
    {
      var e :| e in old(db.studentsCourses) && e.id == c.studentCoursesId && e.status == Completed;
      var j :| 0 <= j < |old(db.studentsCourses)| && old(db.studentsCourses)[j] == e;
      assert j != k;
      assert db.studentsCourses[j] == e;
    }
  }

  // ===== Teacher side =====

  /** Index: the applications waiting for a teacher, over all courses. */
  function PendingApplications(studentsCourses: seq<StudentsCourse>): (r: seq<StudentsCourse>)
    ensures forall e :: e in r <==>
      e in studentsCourses && (e.status == Pending || e.status == CompletionRequested)
  {
    Filter(studentsCourses, (e: StudentsCourse) => e.status == Pending || e.status == CompletionRequested)
  }

  /** Approve: whatever the application's current status, it becomes approved. */
  method Approve(db: LearningMvcContext, id: int) returns (o: Outcome)
    requires db.Valid()
    modifies db`studentsCourses
    ensures db.Valid()
    ensures match EnrollmentIndex(old(db.studentsCourses), id)
      case None => o == NotFound && db.studentsCourses == old(db.studentsCourses)
      case Some(k) =>
        && o == Done
        && db.studentsCourses == old(db.studentsCourses)[k := old(db.studentsCourses)[k].(status := Approved)]
    ensures OneApplicationPerPair(old(db.studentsCourses)) ==> OneApplicationPerPair(db.studentsCourses)
  {
    var found := EnrollmentIndex(db.studentsCourses, id);
    if found.None? {
      return NotFound;
    }
    var k := found.value;
    StatusChangeKeepsKeys(db.studentsCourses, k, Approved);
    db.SetStatus(k, Approved);
    o := Done;
  }

  /** Reject: whatever the application's current status, it becomes rejected. */
  method Reject(db: LearningMvcContext, id: int) returns (o: Outcome)
    requires db.Valid()
    modifies db`studentsCourses
    ensures db.Valid()
    ensures match EnrollmentIndex(old(db.studentsCourses), id)
      case None => o == NotFound && db.studentsCourses == old(db.studentsCourses)
      case Some(k) =>
        && o == Done
        && db.studentsCourses == old(db.studentsCourses)[k := old(db.studentsCourses)[k].(status := Rejected)]
    ensures OneApplicationPerPair(old(db.studentsCourses)) ==> OneApplicationPerPair(db.studentsCourses)
  {
    var found := EnrollmentIndex(db.studentsCourses, id);
    if found.None? {
      return NotFound;
    }
    var k := found.value;
    StatusChangeKeepsKeys(db.studentsCourses, k, Rejected);
    db.SetStatus(k, Rejected);
    o := Done;
  }
}
