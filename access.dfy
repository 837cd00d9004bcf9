/**
  The enrollment gate shared by lessons, tests and reviews: a student sees a
  course's content only through an application whose status lets them in.
*/
module Access {
  import opened Wrappers
  import opened Seqs
  import opened Domain
  import opened Store

  /** Statuses that open lessons, tests and the review form. */
  predicate GrantsAccess(s: Status)
  {
    s == Approved || s == Completed
  }

  /** The only status under which a review may be submitted. */
  predicate GrantsReviewSubmission(s: Status)
  {
    s == Approved
  }

  /** Position of the student's application for the course
      (StudentsCourses.FirstOrDefault by CourseId and StudentId). */
  function ApplicationIndex(studentsCourses: seq<StudentsCourse>, courseId: int, studentId: int): Option<nat>
  {
    IndexOf(studentsCourses, (e: StudentsCourse) => e.courseId == courseId && e.studentId == studentId)
  }

  /** The gate: the user has a student record, an application for the course,
      and that application is approved or completed. */
  predicate StudentMayOpen(students: seq<Student>, studentsCourses: seq<StudentsCourse>, userId: string, courseId: int)
  {
    match StudentOf(students, userId)
    case None => false
    case Some(st) =>
      match ApplicationIndex(studentsCourses, courseId, st.id)
      case None => false
      case Some(k) => GrantsAccess(studentsCourses[k].status)
  }

  /** The gate of the review form (Create GET): skipped when the user has no
      student record, otherwise the same as for lessons. */
  predicate ReviewFormOpen(students: seq<Student>, studentsCourses: seq<StudentsCourse>, userId: string, courseId: int)
  {
    StudentOf(students, userId).None? || StudentMayOpen(students, studentsCourses, userId, courseId)
  }

  /** The gate of review submission (Create POST): skipped when the user has no
      student record, otherwise the application must be exactly approved. */
  predicate ReviewSubmissionOpen(students: seq<Student>, studentsCourses: seq<StudentsCourse>, userId: string, courseId: int)
  {
    match StudentOf(students, userId)
    case None => true
    case Some(st) =>
      match ApplicationIndex(studentsCourses, courseId, st.id)
      case None => false
      case Some(k) => GrantsReviewSubmission(studentsCourses[k].status)
  }

  /** Submission is stricter than the form: whoever may submit may open the
      form, and the only users who may open the form but not submit are
      students whose application is completed. */
  lemma ReviewSubmissionStricterThanForm(students: seq<Student>, studentsCourses: seq<StudentsCourse>, userId: string, courseId: int)
    ensures ReviewSubmissionOpen(students, studentsCourses, userId, courseId)
            ==> ReviewFormOpen(students, studentsCourses, userId, courseId)
    ensures (ReviewFormOpen(students, studentsCourses, userId, courseId)
             && !ReviewSubmissionOpen(students, studentsCourses, userId, courseId))
            <==> (StudentOf(students, userId).Some?
                  && ApplicationIndex(studentsCourses, courseId, StudentOf(students, userId).value.id).Some?
                  && studentsCourses[ApplicationIndex(studentsCourses, courseId, StudentOf(students, userId).value.id).value].status
                     == Completed)
  {
  }

  /** Changing one application's status leaves every (course, student)
      lookup pointing at the same row. */
  lemma StatusChangeKeepsApplication(studentsCourses: seq<StudentsCourse>, k: nat, s: Status,
                                     courseId: int, studentId: int)
    requires k < |studentsCourses|
    ensures ApplicationIndex(studentsCourses[k := studentsCourses[k].(status := s)], courseId, studentId)
            == ApplicationIndex(studentsCourses, courseId, studentId)
  {
    IndexOfSameOn(studentsCourses[k := studentsCourses[k].(status := s)], studentsCourses,
                  (e: StudentsCourse) => e.courseId == courseId && e.studentId == studentId);
  }

  /** After one application's status changes, the gate for a user and course
      follows the new status if that application is the one the gate looks at,
      and is as before otherwise. */
  lemma AccessAfterStatusChange(students: seq<Student>, studentsCourses: seq<StudentsCourse>, k: nat, s: Status,
                                userId: string, courseId: int)
    requires k < |studentsCourses|
    ensures var after := studentsCourses[k := studentsCourses[k].(status := s)];
            StudentMayOpen(students, after, userId, courseId)
            == if StudentOf(students, userId).Some?
                  && ApplicationIndex(studentsCourses, courseId, StudentOf(students, userId).value.id) == Some(k)
               then GrantsAccess(s)
               else StudentMayOpen(students, studentsCourses, userId, courseId)
  {
    match StudentOf(students, userId)
    case None =>
    case Some(st) =>
      StatusChangeKeepsApplication(studentsCourses, k, s, courseId, st.id);
  }

  /** A student who requests completion of an approved course loses access to
      its lessons and tests until the teacher confirms the completion. */
  lemma RequestCompletionRevokesAccess(students: seq<Student>, studentsCourses: seq<StudentsCourse>, k: nat, userId: string)
    requires k < |studentsCourses| && studentsCourses[k].status == Approved
    requires StudentOf(students, userId).Some?
    requires ApplicationIndex(studentsCourses, studentsCourses[k].courseId, StudentOf(students, userId).value.id) == Some(k)
    ensures StudentMayOpen(students, studentsCourses, userId, studentsCourses[k].courseId)
    ensures !StudentMayOpen(students, studentsCourses[k := studentsCourses[k].(status := CompletionRequested)],
                            userId, studentsCourses[k].courseId)
  {
    AccessAfterStatusChange(students, studentsCourses, k, CompletionRequested, userId, studentsCourses[k].courseId);
  }
}
