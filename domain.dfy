/**
  The records of the learning platform: one datatype per table row
  (LearningDomain/Model), the enrollment status as a closed set of five
  values, and the outcome a request handler reports.
*/
module Domain {
  import opened Wrappers

  /** The status of an enrollment application (StudentsCourse.Status). */
  datatype Status =
    | Pending              // "Ожидает": submitted, waiting for a teacher
    | Approved             // "Принято": the student may follow the course
    | CompletionRequested  // "Ожидает завершения": the student asked to complete
    | Completed            // "Пройдено": completion approved, certificate issued
    | Rejected             // "Отклонено": the teacher turned the application down

  /** The literal the application stores in the Status column for each value. */
  function StatusText(s: Status): string
  {
    match s
    case Pending => "Ожидает"
    case Approved => "Принято"
    case CompletionRequested => "Ожидает завершения"
    case Completed => "Пройдено"
    case Rejected => "Отклонено"
  }

  /** The five literals are pairwise different, so comparing the stored text
      with a literal is the same as comparing statuses. */
  lemma StatusTextInjective(a: Status, b: Status)
    ensures StatusText(a) == StatusText(b) <==> a == b
  {
    if a != b {
      assert StatusText(a)[..] != StatusText(b)[..] by {
        match a
        case Pending => assert |StatusText(a)| == 7;
        case Approved => assert StatusText(a)[0] == 'П' && StatusText(a)[1] == 'р';
        case CompletionRequested => assert |StatusText(a)| == 18;
        case Completed => assert StatusText(a)[0] == 'П' && StatusText(a)[1] == 'р' && StatusText(a)[2] == 'о';
        case Rejected => assert StatusText(a)[0] == 'О' && StatusText(a)[1] == 'т';
      }
    }
  }

  datatype Course = Course(id: int, name: string, info: Option<string>)

  /** A student account; `identityId` links it to the signed-in user. */
  datatype Student = Student(id: int, identityId: string, name: string)

  /** A teacher account; `identityId` links it to the signed-in user. */
  datatype Teacher = Teacher(id: int, identityId: string, name: string)

  /** An enrollment application of a student for a course. */
  datatype StudentsCourse = StudentsCourse(id: int, courseId: int, studentId: int, status: Status)

  /** The link saying that a teacher teaches (and may edit) a course. */
  datatype TeachersCourse = TeachersCourse(id: int, courseId: int, teacherId: int)

  /** A certificate issued for one enrollment. */
  datatype Certificate = Certificate(id: int, studentCoursesId: int, name: string, info: Option<string>)

  datatype Lesson = Lesson(id: int, name: string, info: Option<string>, videoUrl: Option<string>,
                           docxUrl: Option<string>, courseId: int)

  datatype Test = Test(id: int, name: string, info: Option<string>, formUrl: Option<string>, courseId: int)

  datatype Review = Review(id: int, name: string, info: Option<string>, courseId: int)

  /** What a handler answers, stripped of views, messages and redirect targets. */
  datatype Outcome =
    | Done        // the action succeeded (a redirect or a view)
    | NotFound    // 404
    | BadRequest  // 400 with a status message
    | Denied      // Forbid, or the redirect to the access-denied page
    | FormError   // the form is shown again with a validation error
    | Failed      // an exception escapes the handler

  /** What a listing page answers: a redirect to the course list, 404, the
      redirect to the access-denied page, or the rows it shows. */
  datatype Page<T> =
    | ToCourses
    | Missing
    | Refused
    | Shown(items: seq<T>)
}
