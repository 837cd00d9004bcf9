# LearningProjMVC: the enrollment workflow in Dafny

LearningProjMVC is an ASP.NET MVC learning platform on Entity Framework
Core. Teachers publish courses with lessons, tests and reviews. Students
apply for a course, and a teacher approves or rejects the application.
Approved students follow the course and ask to complete it. A teacher then
confirms the completion, which issues a certificate. Courses can be
exported to a spreadsheet and imported from one. A charts endpoint counts
applications per course and certificates per student.

This project models the handlers behind that workflow and proves what they
do.

- **Store.** `Store.LearningMvcContext` is the database context. It has one
  `seq` field per table, in table order, and a single identity counter
  `nextId` that hands out every new key. `Valid()` says two things:
  - primary keys are unique, and inserted keys lie below the counter;
  - every foreign key names an existing row, as the schema's constraints
    in `LearningInfrastructure/LearningMvcContext.cs` demand.
- **Handlers.** Each controller is a module. Each request handler is a
  method over the context, or a function when it only reads. Every
  writing handler keeps `Valid()`.
- **Outcomes.** A handler answers a `Domain.Outcome`:
  - `Done`, or 404, 400, a refusal, or a form shown again;
  - `Failed` when an exception escapes the handler. Two cases raise one:
    the unreadable stream, and a row whose course does not exist, which
    the database refuses.
  
  The listing pages answer a `Domain.Page`.
- **Status.** The application status is a closed datatype with five
  values. `Domain.StatusText` maps each value to the literal the code
  stores.
- **Signed-in user.** The user is an identity string and a role flag.
  The student or teacher record is looked up from the identity string by
  `Store.StudentOf` and `Store.TeacherOf`.
- **Workbook.** A spreadsheet is a `seq` of rows of cell texts
  (`Workbook.Sheet`).

Modules:

| module | what it models |
|---|---|
| `Domain` | the records, the status and the handler outcomes |
| `Text` | trimming, blankness and substring search on strings |
| `Workbook` | cells, used rows, and data rows after the header |
| `Store` | the tables, key lookups, and the inserts, updates and removals of the context |
| `Access` | the enrollment gate of lessons, tests and reviews |
| `StudentsCourses` | applying, requesting completion, approving, rejecting; the two listings |
| `Certificates` | completing an application with its certificate; listing and opening certificates |
| `CourseContent` | the listing shared by lessons, tests and reviews |
| `Lessons`, `Tests`, `Reviews` | the handlers of those controllers |
| `Courses` | the course list, creation, editing, deletion, and the import that links courses to the teacher |
| `CourseImport`, `CourseExport` | the two spreadsheet services and their round trip |
| `Charts` | the two group-by-count series |

## Model

| member | source | states |
|---|---|---|
| `Domain.StatusTextInjective` | LearningInfrastructure/Controllers/StudentsCoursesController.cs:82-84 | two statuses have the same stored literal exactly when they are the same status, so comparing literals is comparing statuses |
| `Text.Trim` | LearningInfrastructure/Services/CourseImportService.cs:30-31 | the result has no white space at either end |
| `Text.TrimStartDrops` | LearningInfrastructure/Services/CourseImportService.cs:30-31 | TrimStart removes a prefix made only of white space and keeps the rest of the string |
| `Text.TrimEndDrops` | LearningInfrastructure/Services/CourseImportService.cs:30-31 | TrimEnd removes a suffix made only of white space and keeps the rest |
| `Text.TrimKeepsMiddle` | LearningInfrastructure/Services/CourseImportService.cs:30-31 | Trim returns a contiguous slice of its input |
| `Text.TrimmedIsFixed` | LearningInfrastructure/Services/CourseImportService.cs:30-31 | a string with no white space at its ends is its own trim |
| `Text.TrimIdempotent` | LearningInfrastructure/Services/CourseImportService.cs:30-31 | trimming twice gives the same result as trimming once |
| `Text.BlankIffTrimsToEmpty` | LearningInfrastructure/Services/CourseImportService.cs:30-34 | a string trims to empty exactly when it is all white space, so the import skips exactly the blank names |
| `Text.Contains` | LearningInfrastructure/Controllers/CoursesController.cs:56 | true exactly when the pattern occurs at some position of the string |
| `Store.RemoveByKeyCount` | LearningInfrastructure/Controllers/LessonsController.cs:199-203 | in a table with unique keys, removing by key drops exactly one row when the key is present and none otherwise |
| `Store.LearningMvcContext.AddCourse` | LearningInfrastructure/Controllers/CoursesController.cs:145-146 | the course is appended under the next key, the counter advances, and the store stays valid |
| `Store.LearningMvcContext.AddEnrollment` | LearningInfrastructure/Controllers/StudentsCoursesController.cs:60-68 | the application is appended under the next key; the course and the student must exist |
| `Store.LearningMvcContext.AddTeacherLink` | LearningInfrastructure/Controllers/CoursesController.cs:153-159 | the link is appended under the next key; the course and the teacher must exist |
| `Store.LearningMvcContext.AddCertificate` | LearningInfrastructure/Controllers/CertificatesController.cs:47-55 | the certificate is appended under the next key; its application must exist |
| `Store.LearningMvcContext.AddLesson` | LearningInfrastructure/Controllers/LessonsController.cs:108-111 | the lesson is appended under the next key, whatever key it carried |
| `Store.LearningMvcContext.AddTest` | LearningInfrastructure/Controllers/TestsController.cs:106-109 | the test is appended under the next key, whatever key it carried |
| `Store.LearningMvcContext.AddReview` | LearningInfrastructure/Controllers/ReviewsController.cs:103-105 | the review is appended under the next key, whatever key it carried |
| `Store.LearningMvcContext.UpdateCourse` | LearningInfrastructure/Controllers/CoursesController.cs:201-202 | only the row at the given position is replaced, by a course with the same key |
| `Store.LearningMvcContext.UpdateLesson` | LearningInfrastructure/Controllers/LessonsController.cs:153-154 | only that row is replaced, by a lesson with the same key and an existing course |
| `Store.LearningMvcContext.UpdateTest` | LearningInfrastructure/Controllers/TestsController.cs:152-153 | only that row is replaced, by a test with the same key and an existing course |
| `Store.LearningMvcContext.UpdateReview` | LearningInfrastructure/Controllers/ReviewsController.cs:135-136 | only that row is replaced, by a review with the same key and an existing course |
| `Store.LearningMvcContext.RemoveLesson` | LearningInfrastructure/Controllers/LessonsController.cs:199-204 | the lessons are the old ones without those carrying the key |
| `Store.LearningMvcContext.RemoveTest` | LearningInfrastructure/Controllers/TestsController.cs:198-203 | the tests are the old ones without those carrying the key |
| `Store.LearningMvcContext.RemoveReview` | LearningInfrastructure/Controllers/ReviewsController.cs:169-174 | the reviews are the old ones without those carrying the key |
| `Store.LearningMvcContext.RemoveCertificatesOf` | LearningInfrastructure/Controllers/CoursesController.cs:246-247 | the certificates of one application are removed and the rest are kept in order |
| `Store.LearningMvcContext.RemoveEnrollmentsOf` | LearningInfrastructure/Controllers/CoursesController.cs:249 | a course's applications are removed, and none remains; no certificate may refer to them (LearningMvcContext.cs:48-50 sets no cascade) |
| `Store.LearningMvcContext.RemoveLinksOf` | LearningInfrastructure/Controllers/CoursesController.cs:250 | a course's teacher links are removed, and none remains |
| `Store.LearningMvcContext.RemoveLessonsOf` | LearningInfrastructure/LearningMvcContext.cs:66-69 | the database cascade removes the course's lessons, and none remains |
| `Store.LearningMvcContext.RemoveTestsOf` | LearningInfrastructure/LearningMvcContext.cs:133-136 | the database cascade removes the course's tests, and none remains |
| `Store.LearningMvcContext.RemoveReviewsOf` | LearningInfrastructure/LearningMvcContext.cs:77-80 | the database cascade removes the course's reviews, and none remains |
| `Store.LearningMvcContext.RemoveCourseRow` | LearningInfrastructure/Controllers/CoursesController.cs:251 | the course row goes once no row refers to the course |
| `Store.LearningMvcContext.RemoveCourse` | LearningInfrastructure/Controllers/CoursesController.cs:249-254 | every table is left without the course's rows, the rest kept in order, and the store stays valid |
| `Store.LearningMvcContext.SetStatus` | LearningInfrastructure/Controllers/StudentsCoursesController.cs:119-121 | only the status of one application changes |
| `Access.ReviewSubmissionStricterThanForm` | LearningInfrastructure/Controllers/ReviewsController.cs:69-101 | whoever may submit a review may open the form; the users who may open it but not submit are exactly the students whose application is completed |
| `Access.StatusChangeKeepsApplication` | LearningInfrastructure/Controllers/StudentsCoursesController.cs:119-121 | a status change leaves every (course, student) application lookup at the same row |
| `Access.AccessAfterStatusChange` | LearningInfrastructure/Controllers/LessonsController.cs:46-61 | after a status change, the gate follows the new status for the application it looks at, and is unchanged for everyone else |
| `Access.RequestCompletionRevokesAccess` | LearningInfrastructure/Controllers/StudentsCoursesController.cs:113-121 | a student who requests completion of an approved course loses access to its lessons and tests |
| `StudentsCourses.StatusChangeKeepsKeys` | LearningInfrastructure/Controllers/StudentsCoursesController.cs:119-121 | a status change keeps every key, course and student of the applications |
| `StudentsCourses.StatusChangeKeepsPairs` | LearningInfrastructure/Controllers/StudentsCoursesController.cs:133-135 | a status change keeps at most one application per student and course |
| `StudentsCourses.CreatePost` | LearningInfrastructure/Controllers/StudentsCoursesController.cs:39-70 | no student record gives 404 and an existing application gives the form again, both with no change; otherwise exactly one pending application is appended. One application per pair and backed certificates are preserved |
| `StudentsCourses.MyCourses` | LearningInfrastructure/Controllers/StudentsCoursesController.cs:74-89 | 404 exactly without a student record; otherwise exactly the caller's approved or completed applications |
| `StudentsCourses.MyCoursesAgreesWithGate` | LearningInfrastructure/Controllers/StudentsCoursesController.cs:82-84 | with one application per pair, an application is listed exactly when the gate opens its course |
| `StudentsCourses.RequestCompletion` | LearningInfrastructure/Controllers/StudentsCoursesController.cs:106-124 | a missing key gives 404 and any status but approved gives 400, both with no change; otherwise only that status becomes completion-requested. Whose application it is is not checked |
| `StudentsCourses.PendingApplications` | LearningInfrastructure/Controllers/StudentsCoursesController.cs:94-103 | exactly the applications, over all courses, that are pending or waiting for completion |
| `StudentsCourses.Approve` | LearningInfrastructure/Controllers/StudentsCoursesController.cs:127-137 | a missing key gives 404; otherwise that status becomes approved whatever it was |
| `StudentsCourses.Reject` | LearningInfrastructure/Controllers/StudentsCoursesController.cs:141-151 | a missing key gives 404; otherwise that status becomes rejected whatever it was |
| `Certificates.CountAfterIssue` | LearningInfrastructure/Controllers/CertificatesController.cs:54 | appending a certificate raises its application's certificate count by one and leaves the others' counts alone |
| `Certificates.StatusChangeKeepsLookup` | LearningInfrastructure/Controllers/CertificatesController.cs:42-44 | a status change keeps the key lookup of every application |
| `Certificates.ApproveCompletion` | LearningInfrastructure/Controllers/CertificatesController.cs:26-59 | a missing key gives 404 and any status but completion-requested gives 400, both with no change. Otherwise the status becomes completed and exactly one certificate is appended, with the application's key, "Сертифікат курсу: " plus the course name, and "Автоматичне генерування". The certified application is then completed, and backed certificates and one application per pair are preserved |
| `Certificates.CompleteApplication` | LearningInfrastructure/Controllers/CertificatesController.cs:42-44 | only that status becomes completed, and the application is still found by its key |
| `Certificates.IssueCertificate` | LearningInfrastructure/Controllers/CertificatesController.cs:47-55 | exactly one certificate naming the application's course is appended, and that application's count rises by one |
| `Certificates.CompletingKeepsBacked` | LearningInfrastructure/Controllers/CertificatesController.cs:42-44 | completing an application keeps every certificate backed by a completed application |
| `Certificates.IssuingKeepsBacked` | LearningInfrastructure/Controllers/CertificatesController.cs:47-55 | a certificate for a completed application keeps every certificate backed |
| `Certificates.ApproveCompletionTwice` | LearningInfrastructure/Controllers/CertificatesController.cs:36-44 | a second ApproveCompletion on the same key is refused, so two calls issue at most one certificate |
| `Certificates.ReapprovalIssuesSecondCertificate` | LearningInfrastructure/Controllers/StudentsCoursesController.cs:127-137 | Approve, RequestCompletion and ApproveCompletion on a completed application with one certificate all succeed and leave it with two |
| `Certificates.MyCertificates` | LearningInfrastructure/Controllers/CertificatesController.cs:63-77 | 404 exactly without a student record; otherwise exactly the certificates whose application belongs to the caller |
| `Certificates.Details` | LearningInfrastructure/Controllers/CertificatesController.cs:81-92 | the certificate with that key, or 404 exactly when none has it; the owner is not checked |
| `CourseContent.ContentIndex` | LearningInfrastructure/Controllers/LessonsController.cs:28-69 | no course key redirects, a blank name and a missing course give 404, and a gated visitor without access is refused, each exactly in its case; a shown page lists exactly the rows of that course |
| `CourseContent.AppendedRowListed` | LearningInfrastructure/Controllers/LessonsController.cs:64-67 | a row added to the table shows up last on its own course's page and changes no other course's page |
| `CourseContent.ClosedUnlessApprovedOrCompleted` | LearningInfrastructure/Controllers/LessonsController.cs:55-61 | for a student with an application, the page is shown exactly when it is approved or completed |
| `Lessons.LessonIndex` | LearningInfrastructure/Controllers/LessonsController.cs:211-214 | the position of the lesson with that key, absent exactly when no lesson has it |
| `Lessons.Index` | LearningInfrastructure/Controllers/LessonsController.cs:28-69 | the same cases as the shared listing, with the gate applied to students only; a student sees the page only through the gate |
| `Lessons.Create` | LearningInfrastructure/Controllers/LessonsController.cs:106-115 | the lesson is appended with the route's course and a fresh key; a blank name or a missing course fails with no change |
| `Lessons.Edit` | LearningInfrastructure/Controllers/LessonsController.cs:143-171 | a key mismatch or a missing lesson gives 404, and a blank name or a missing course fails, all with no change; otherwise only that row is replaced |
| `Lessons.DeleteConfirmed` | LearningInfrastructure/Controllers/LessonsController.cs:197-209 | the lesson with that key is removed, one row when present and none otherwise |
| `Tests.TestIndex` | LearningInfrastructure/Controllers/TestsController.cs:210-213 | the position of the test with that key, absent exactly when no test has it |
| `Tests.Index` | LearningInfrastructure/Controllers/TestsController.cs:28-68 | the same cases as the shared listing, with the gate applied to students only |
| `Tests.Create` | LearningInfrastructure/Controllers/TestsController.cs:104-113 | the test is appended with the route's course and a fresh key; a blank name or a missing course fails with no change |
| `Tests.Edit` | LearningInfrastructure/Controllers/TestsController.cs:141-170 | a key mismatch or a missing test gives 404, and a blank name or a missing course fails, all with no change; otherwise only that row is replaced |
| `Tests.DeleteConfirmed` | LearningInfrastructure/Controllers/TestsController.cs:196-208 | the test with that key is removed, one row when present and none otherwise |
| `Reviews.ReviewIndex` | LearningInfrastructure/Controllers/ReviewsController.cs:169 | the position of the review with that key, absent exactly when no review has it |
| `Reviews.Index` | LearningInfrastructure/Controllers/ReviewsController.cs:26-47 | no course key redirects and a blank name with a missing course gives 404; there is no gate; a shown page lists exactly the course's reviews |
| `Reviews.CreateForm` | LearningInfrastructure/Controllers/ReviewsController.cs:64-82 | refused exactly for a student whose application is missing or neither approved nor completed |
| `Reviews.Create` | LearningInfrastructure/Controllers/ReviewsController.cs:88-107 | refused with no change unless the submission gate is open, which needs an exactly approved application; a blank name or a missing course fails with no change; otherwise exactly one review is appended with the route's course |
| `Reviews.CompletedStudentCannotSubmit` | LearningInfrastructure/Controllers/ReviewsController.cs:73-97 | a student with a completed application gets the form but cannot submit it |
| `Reviews.Edit` | LearningInfrastructure/Controllers/ReviewsController.cs:128-147 | a key mismatch or a missing review gives 404, and a blank name or a missing course fails, all with no change; otherwise only that row is replaced |
| `Reviews.DeleteConfirmed` | LearningInfrastructure/Controllers/ReviewsController.cs:167-178 | the review with that key is removed, one row when present and none otherwise |
| `Courses.Selected` | LearningInfrastructure/Controllers/CoursesController.cs:35-58 | a teacher with a record gets exactly the courses linked to them, with no search; a teacher without one gets every course; others get exactly the courses whose name contains the search, or every course without one |
| `Courses.Index` | LearningInfrastructure/Controllers/CoursesController.cs:33-69 | the not-found flag is set only for a search, and then every course is listed; otherwise the selection is listed; a search never yields an empty list unless there are no courses |
| `Courses.SearchByNameFindsCourse` | LearningInfrastructure/Controllers/CoursesController.cs:54-66 | searching for a course's full name lists it without the not-found message |
| `Courses.UnlinkedTeacherSearchShowsAll` | LearningInfrastructure/Controllers/CoursesController.cs:37-66 | a teacher with no linked course who types any search text gets every course with the not-found message |
| `Courses.EditForm` | LearningInfrastructure/Controllers/CoursesController.cs:168-186 | the form opens exactly for a teacher linked to an existing course, and is forbidden exactly for a teacher not linked to it |
| `Courses.Create` | LearningInfrastructure/Controllers/CoursesController.cs:141-164 | a blank name shows the form with no change; otherwise the course is appended, and with a teacher record exactly one link to that teacher, who may then open the course's edit form |
| `Courses.EditPost` | LearningInfrastructure/Controllers/CoursesController.cs:192-214 | a key mismatch gives 404 and a blank name the form, with no change; a missing course gives 404; otherwise only that row is replaced. Ownership is not checked |
| `Courses.IssuedForCourse` | LearningInfrastructure/Controllers/CoursesController.cs:236-246 | an application key is among a course's loaded applications exactly when that application belongs to the course |
| `Courses.RemainingStep` | LearningInfrastructure/Controllers/CoursesController.cs:244-248 | one more turn of the certificate loop removes the certificates of one more application |
| `Courses.RemoveCertificatesFor` | LearningInfrastructure/Controllers/CoursesController.cs:244-248 | the loop leaves exactly the certificates issued for none of the given applications |
| `Courses.DeleteConfirmed` | LearningInfrastructure/Controllers/CoursesController.cs:234-256 | a missing key changes nothing. Otherwise the course goes, together with the certificates of its applications, its applications, its teacher links, lessons, tests and reviews; every other row stays in order, and no course with that key remains |
| `Courses.SheetNames` | LearningInfrastructure/Controllers/CoursesController.cs:307-317 | every name read back is non-blank and comes from a data row, and every non-blank name of a data row is read back |
| `Courses.CollectNames` | LearningInfrastructure/Controllers/CoursesController.cs:307-317 | the loop collects exactly the names read back from the file's data rows |
| `Courses.LinkRows` | LearningInfrastructure/Controllers/CoursesController.cs:329-333 | one new link row per course to be linked |
| `Courses.LinkedAllStep` | LearningInfrastructure/Controllers/CoursesController.cs:323-335 | one more turn of the linking loop adds a link exactly when the course is not yet linked in the saved links |
| `Courses.LinkCourses` | LearningInfrastructure/Controllers/CoursesController.cs:323-336 | the loop appends one link for each given course not yet linked to the teacher, with consecutive fresh keys |
| `Courses.LinkedAllLinksEvery` | LearningInfrastructure/Controllers/CoursesController.cs:323-336 | after linking, every given course is linked to the teacher |
| `Courses.LinkingIdempotent` | LearningInfrastructure/Controllers/CoursesController.cs:325-327 | linking the same courses again adds nothing |
| `Courses.LinkingKeepsNoDuplicates` | LearningInfrastructure/Controllers/CoursesController.cs:325-334 | linking courses with distinct keys never links a teacher twice to one course |
| `Courses.ImportAsync` | LearningInfrastructure/Controllers/CoursesController.cs:278-340 | no file shows the form with no change; otherwise the file is imported, and with a teacher record every course whose name the file carries is linked to that teacher |
| `Courses.LinkNamedCourses` | LearningInfrastructure/Controllers/CoursesController.cs:306-336 | the courses named in the file are linked to the teacher |
| `Courses.ImportLinksEveryName` | LearningInfrastructure/Controllers/CoursesController.cs:290-336 | after an import by a teacher, every name the file carries is the name of a course linked to that teacher |
| `CourseImport.ParseRow` | LearningInfrastructure/Services/CourseImportService.cs:30-31 | the name and info read from a row have no white space at their ends |
| `CourseImport.Entries` | LearningInfrastructure/Services/CourseImportService.cs:28-31 | one entry per data row, in order |
| `CourseImport.ImportEntry` | LearningInfrastructure/Services/CourseImportService.cs:33-55 | one row adds a course exactly when its name is not blank and no saved course has it; otherwise a non-blank name overwrites the info of the first saved course with that name, and every other row is unchanged |
| `CourseImport.Imported` | LearningInfrastructure/Services/CourseImportService.cs:28-56 | saved courses keep their position, key and name |
| `CourseImport.ImportedNewCourses` | LearningInfrastructure/Services/CourseImportService.cs:40-48 | every added course has a consecutive fresh key and a non-blank name that no saved course had, taken from the file |
| `CourseImport.ImportedUpdatesInfo` | LearningInfrastructure/Services/CourseImportService.cs:37-55 | the first saved course with a name ends up with that course's key and name and the info of the last row carrying the name |
| `CourseImport.ImportedKeepsShadowed` | LearningInfrastructure/Services/CourseImportService.cs:37-38 | a saved course that is not the first with its name, or whose name is blank, is never matched and comes out unchanged |
| `CourseImport.ImportedUntouched` | LearningInfrastructure/Services/CourseImportService.cs:28-58 | a saved course whose name the file does not carry is unchanged |
| `CourseImport.ImportedCount` | LearningInfrastructure/Services/CourseImportService.cs:37-49 | the import adds exactly one course per row whose name is non-blank and new to the saved table |
| `CourseImport.RepeatedNewNameAddedPerRow` | LearningInfrastructure/Services/CourseImportService.cs:37-38 | a new name repeated on several rows is added once per row, because the lookup reads the saved table |
| `CourseImport.ImportedHasEveryName` | LearningInfrastructure/Services/CourseImportService.cs:33-55 | every non-blank name of the file is the name of some course after the import |
| `CourseImport.ImportedStep` | LearningInfrastructure/Services/CourseImportService.cs:28-56 | importing the first i+1 rows is importing the first i rows and then row i |
| `CourseImport.ApplyEntry` | LearningInfrastructure/Services/CourseImportService.cs:33-55 | one turn of the loop: a blank name is skipped, an existing name updates that course's info, any other name adds a course |
| `CourseImport.ImportFromStream` | LearningInfrastructure/Services/CourseImportService.cs:19-59 | an unreadable stream fails with no change; otherwise the courses become the import of the data rows, and the counter advances by the number added |
| `CourseExport.ExportRows` | LearningInfrastructure/Services/CourseExportService.cs:30-34 | one row per course, in order, holding its name and its info |
| `CourseExport.WriteTo` | LearningInfrastructure/Services/CourseExportService.cs:18-37 | the header "Name", "Info", then course i on row i+2 with its name in column 1 and its info in column 2, for the number of courses plus one rows |
| `CourseExport.ExportedEntries` | LearningInfrastructure/Services/CourseExportService.cs:24-34 | with clean names, the import reads back one entry per course with its name and trimmed info |
| `CourseExport.ImportReadBackPrefix` | LearningInfrastructure/Services/CourseImportService.cs:28-55 | with clean, distinct names, importing the first j read-back entries refreshes the info of the first j courses |
| `CourseExport.ImportReadBack` | LearningInfrastructure/Services/CourseImportService.cs:28-55 | importing read-back entries adds no course and keeps keys and names; with distinct names it refreshes every course's info |
| `CourseExport.ImportOfExport` | LearningInfrastructure/Services/CourseExportService.cs:24-34 | round trip: importing the export adds no course and keeps every key and name; with distinct names each course comes back with its info trimmed |
| `Charts.Tally` | LearningInfrastructure/Controllers/ChartsController.cs:32-33 | counting one more label keeps the series well grouped, raises that label's count by one and the total by one |
| `Charts.LabelCounted` | LearningInfrastructure/Controllers/ChartsController.cs:32-33 | a label in a well-grouped series is counted at its own count, which is at least one |
| `Charts.NotCounted` | LearningInfrastructure/Controllers/ChartsController.cs:32-33 | a label absent from a well-grouped series counts zero |
| `Charts.GroupCount` | LearningInfrastructure/Controllers/ChartsController.cs:32-33 | labels are pairwise distinct and counts at least one; each label's count is its number of occurrences; the counts sum to the number of rows |
| `Charts.KeyCounted` | LearningInfrastructure/Controllers/ChartsController.cs:32-33 | in a well-grouped series a label has a group exactly when its count is positive |
| `Charts.GroupedLabels` | LearningInfrastructure/Controllers/ChartsController.cs:32-33 | a label is in the series exactly when it occurs among the grouped rows |
| `Charts.CourseName` | LearningInfrastructure/Controllers/ChartsController.cs:31-32 | an application is counted under the name of a course with its key, and under none exactly when no course has that key |
| `Charts.CourseLabels` | LearningInfrastructure/Controllers/ChartsController.cs:30-32 | one label per application whose course exists, all of them when every course exists |
| `Charts.CourseLabelsCount` | LearningInfrastructure/Controllers/ChartsController.cs:30-32 | a name occurs among the labels exactly once per application counted under it |
| `Charts.StudentsByCourse` | LearningInfrastructure/Controllers/ChartsController.cs:26-37 | one item per distinct course name, whose count is the number of applications whose course has that name |
| `Charts.StudentsByCourseCountsEveryApplication` | LearningInfrastructure/Controllers/ChartsController.cs:30-34 | in a valid store the counts sum to the number of applications |
| `Charts.StudentName` | LearningInfrastructure/Controllers/ChartsController.cs:45-47 | a certificate is counted under the name of the student of an application with its key; it has none when no application has that key, and has one when the key and every application's student exist |
| `Charts.StudentLabels` | LearningInfrastructure/Controllers/ChartsController.cs:44-47 | one label per certificate whose application and student exist, all of them when those references resolve |
| `Charts.StudentLabelsCount` | LearningInfrastructure/Controllers/ChartsController.cs:44-47 | a name occurs among the labels exactly once per certificate counted under it |
| `Charts.CertificatesByStudent` | LearningInfrastructure/Controllers/ChartsController.cs:40-52 | one item per distinct student name, whose count is the number of certificates whose application's student has that name |
| `Charts.CertificatesByStudentCountsEveryCertificate` | LearningInfrastructure/Controllers/ChartsController.cs:44-49 | in a valid store the counts sum to the number of certificates |

## Left out

- **Identity and roles.** Sign-in, accounts, role seeding and `[Authorize]` enforcement are framework code (`AccountsController.cs`, `Program.cs`). The user's identity string and the role flag are inputs.
- **Persistence and concurrency.** Async calls, cancellation and races between requests are not modelled. Each handler is one atomic step.
- **Update exceptions.** `DbUpdateConcurrencyException` is modelled only where a handler catches it: an update of a missing row gives 404. The rethrow branch needs a concurrent writer and is not modelled.
- **Foreign-key failures.** A `DbUpdateException` from a foreign key that names no row is modelled as `Failed` with no change. This covers a lesson, test, review or application for a missing course, and an edit that points to a missing course.
- **ClosedXML.** The Office Open XML format and the library are not modelled; a workbook is its first worksheet as rows of strings. A row counts as used when some cell holds text; the library's notion also counts formatting. Re-opening the upload stream gives the same rows as the first read.
- **Service factory.** `DataPortServiceFactory.cs` and the service interfaces only pick a service by content type. The import is called directly, and a readable stream is a `readable` flag.
- **Export action.** The export action's content type and file name, built from the clock, are left out. Only the written worksheet is modelled.
- **Presentation.** Views, `ViewBag`, `TempData`, `ViewData`/`SelectList`, messages and redirect targets are not modelled. Handlers answer `Outcome` or `Page`.
- **View-only actions.** These only render a row or a form, or redirect:
  - `Details` of courses, lessons, tests and reviews;
  - the `Delete` and `Edit` GET actions of lessons, tests and reviews;
  - the `Create` GET actions of courses, lessons, tests and applications;
  - the `Import` GET action and `AccessDenied`;
  - the course actions that redirect to lessons, reviews and tests.
- **Status storage.** The status column holds free text. The model admits only the five literals that the handlers write.
- Charts.GroupCount: the SQL `GROUP BY` of the charts fixes no order. The model lists groups in order of first occurrence, and its contracts do not depend on the order.
- **Collation.** The database compares names case-insensitively under its default collation. `Text.Contains`, the import's name lookup and the chart groups compare ordinally. SQL Server's `=` and `IN` also ignore trailing spaces, so a lookup of "Math " finds "Math"; the model does not.
- **Column limits.** Column lengths and other schema limits are left out.
- Certificates.ApproveCompletion: the handler saves twice, first the completed status and then the certificate. A course name over 237 characters makes the certificate name longer than its 255-character column. The second save then fails and leaves a completed application with no certificate. The model makes both changes together and always issues the certificate.
- **Posted keys on create.** A key posted with a new course, lesson, test or review is ignored: the row takes the next identity value. On SQL Server a non-zero key for an identity column is refused unless identity insert is on, so a form that posts one fails where the model succeeds.
- **Null strings.** A course name is `[Required]` (`LearningDomain/Model/Course.cs:9`). A null name and a blank one are the same blank string. Form binding turns a blank field into null, so a blank lesson, test or review name reaches the NOT NULL `Name` column as null and the save fails; the model answers `Failed` with no change. A null info is the empty cell on export.
- **Shared counter.** `Store.LearningMvcContext` draws every table's keys from one counter. The database keeps one counter per table, and the model relies only on keys being fresh.
- **Delete cascade.** `Courses.DeleteConfirmed` also removes the course's lessons, tests and reviews. The cascade declared in `LearningInfrastructure/LearningMvcContext.cs` does this, not the handler.
- **Workflow guards.** The documented workflow says a rejected application cannot be approved or moved on. `StudentsCourses.Approve` and `StudentsCourses.Reject` have no status guard, and the model follows the code. `Certificates.ReapprovalIssuesSecondCertificate` shows the consequence: one application can collect a second certificate.
- **Course edit ownership.** `Courses.EditPost` checks no ownership, as in the code. Only the GET form checks that the teacher is linked to the course.
- **Import links.** The import links the teacher to every course whose name the file carries, including courses that existed before the import.
