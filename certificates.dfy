/**
  CertificatesController: a teacher confirms a completion request, which
  marks the application completed and issues a certificate; students list
  and open certificates.
*/
module Certificates {
  import opened Wrappers
  import opened Seqs
  import opened Domain
  import opened Store
  import opened StudentsCourses

  const NamePrefix: string := "Сертифікат курсу: "
  const GeneratedInfo: string := "Автоматичне генерування"

  /** The name of the course an application belongs to (application.Course.Name). */
  function CourseName(courses: seq<Course>, courseId: int): string
    requires HasCourse(courses, courseId)
  {
    var c :| c in courses && c.id == courseId;
    assert IndexOf(courses, (x: Course) => x.id == courseId).Some? by {
      var j :| 0 <= j < |courses| && courses[j] == c;
    }
    courses[CourseIndex(courses, courseId).value].name
  }

  /** How many certificates were issued for the application `enrollmentId`. */
  function CertificateCount(certificates: seq<Certificate>, enrollmentId: int): nat
  {
    |Filter(certificates, (c: Certificate) => c.studentCoursesId == enrollmentId)|
  }

  /** Appending a certificate for an application raises its count by one and
      leaves every other application's count alone. */
  lemma CountAfterIssue(certificates: seq<Certificate>, c: Certificate, enrollmentId: int)
    ensures CertificateCount(certificates + [c], enrollmentId)
            == CertificateCount(certificates, enrollmentId) + (if c.studentCoursesId == enrollmentId then 1 else 0)
  {
    FilterAppend(certificates, [c], (x: Certificate) => x.studentCoursesId == enrollmentId);
  }

  /** Changing a status leaves the primary-key lookup of every application in place. */
  lemma StatusChangeKeepsLookup(studentsCourses: seq<StudentsCourse>, k: nat, s: Status, id: int)
    requires k < |studentsCourses|
    ensures EnrollmentIndex(studentsCourses[k := studentsCourses[k].(status := s)], id)
            == EnrollmentIndex(studentsCourses, id)
  {
    IndexOfSameOn(studentsCourses[k := studentsCourses[k].(status := s)], studentsCourses,
                  (e: StudentsCourse) => e.id == id);
  }

  /** ApproveCompletion: the application must be waiting for completion; it
      becomes completed and exactly one certificate naming its course is
      appended. The status is saved before the certificate is built. */
  method ApproveCompletion(db: LearningMvcContext, id: int) returns (o: Outcome)
    requires db.Valid()
    modifies db`studentsCourses, db`certificates, db`nextId
    ensures db.Valid()
    ensures match EnrollmentIndex(old(db.studentsCourses), id)
      case None =>
        && o == NotFound
        && db.studentsCourses == old(db.studentsCourses) && db.certificates == old(db.certificates)
        && db.nextId == old(db.nextId)
      case Some(k) =>
        if old(db.studentsCourses)[k].status != CompletionRequested then
          && o == BadRequest
          && db.studentsCourses == old(db.studentsCourses) && db.certificates == old(db.certificates)
          && db.nextId == old(db.nextId)
        else
          && o == Done
          && db.studentsCourses == old(db.studentsCourses)[k := old(db.studentsCourses)[k].(status := Completed)]
          && HasCourse(db.courses, old(db.studentsCourses)[k].courseId)
          && db.certificates == old(db.certificates) +
               [Certificate(old(db.nextId), id,
                            NamePrefix + CourseName(db.courses, old(db.studentsCourses)[k].courseId),
                            Some(GeneratedInfo))]
          && db.nextId == old(db.nextId) + 1
    ensures o == Done ==> CertificateCount(db.certificates, id) == old(CertificateCount(db.certificates, id)) + 1
    ensures o != Done ==> db.certificates == old(db.certificates)
    ensures o == Done ==> HasEnrollment(db.studentsCourses, id)
                          && db.studentsCourses[EnrollmentIndex(db.studentsCourses, id).value].status == Completed
    ensures CertificatesBacked(old(db.studentsCourses), old(db.certificates))
            ==> CertificatesBacked(db.studentsCourses, db.certificates)
    ensures OneApplicationPerPair(old(db.studentsCourses)) ==> OneApplicationPerPair(db.studentsCourses)
  {
    var found := EnrollmentIndex(db.studentsCourses, id);
    if found.None? {
      return NotFound;
    }
    var k := found.value;
    var application := db.studentsCourses[k];
    if application.status != CompletionRequested {
      return BadRequest;
    }
    CompleteApplication(db, k, id);
    IssueCertificate(db, k, id);
    o := Done;
  }

  /** The status change of ApproveCompletion, saved on its own. */
  method CompleteApplication(db: LearningMvcContext, k: nat, id: int)
    requires db.Valid()
    requires EnrollmentIndex(db.studentsCourses, id) == Some(k)
    modifies db`studentsCourses
    ensures db.Valid()
    ensures db.studentsCourses == old(db.studentsCourses)[k := old(db.studentsCourses)[k].(status := Completed)]
    ensures EnrollmentIndex(db.studentsCourses, id) == Some(k) && db.studentsCourses[k].status == Completed
    ensures CertificatesBacked(old(db.studentsCourses), db.certificates)
            ==> CertificatesBacked(db.studentsCourses, db.certificates)
    ensures OneApplicationPerPair(old(db.studentsCourses)) ==> OneApplicationPerPair(db.studentsCourses)
  {
    StatusChangeKeepsLookup(db.studentsCourses, k, Completed, id);
    if OneApplicationPerPair(db.studentsCourses) {
      StatusChangeKeepsPairs(db.studentsCourses, k, Completed);
    }
    if CertificatesBacked(db.studentsCourses, db.certificates) {
      CompletingKeepsBacked(db.studentsCourses, db.certificates, k);
    }
    db.SetStatus(k, Completed);
  }

  /** Builds the certificate of the application at `k`, named after its
      course, and stores it under a fresh key. */
  method IssueCertificate(db: LearningMvcContext, k: nat, id: int)
    requires db.Valid()
    requires EnrollmentIndex(db.studentsCourses, id) == Some(k)
    modifies db`certificates, db`nextId
    ensures db.Valid()
    ensures HasCourse(db.courses, db.studentsCourses[k].courseId)
    ensures db.certificates == old(db.certificates) +
              [Certificate(old(db.nextId), id,
                           NamePrefix + CourseName(db.courses, db.studentsCourses[k].courseId),
                           Some(GeneratedInfo))]
    ensures db.nextId == old(db.nextId) + 1
    ensures CertificateCount(db.certificates, id) == old(CertificateCount(db.certificates, id)) + 1
    ensures db.studentsCourses[k].status == Completed && CertificatesBacked(db.studentsCourses, old(db.certificates))
            ==> CertificatesBacked(db.studentsCourses, db.certificates)
  {
    var application := db.studentsCourses[k];
    assert application in db.studentsCourses;
    var name := NamePrefix + CourseName(db.courses, application.courseId);
    assert HasEnrollment(db.studentsCourses, id);
    var certificate := Certificate(db.nextId, id, name, Some(GeneratedInfo));
    CountAfterIssue(db.certificates, certificate, id);
    if application.status == Completed && CertificatesBacked(db.studentsCourses, db.certificates) {
      IssuingKeepsBacked(db.studentsCourses, db.certificates, certificate);
    }
    var _ := db.AddCertificate(id, name, Some(GeneratedInfo));
  }

  /** Completing an application keeps every certificate backed. */
  lemma CompletingKeepsBacked(studentsCourses: seq<StudentsCourse>, certificates: seq<Certificate>, k: nat)
    requires k < |studentsCourses| && CertificatesBacked(studentsCourses, certificates)
    ensures CertificatesBacked(studentsCourses[k := studentsCourses[k].(status := Completed)], certificates)
  {
    var after := studentsCourses[k := studentsCourses[k].(status := Completed)];
    forall c | c in certificates
      ensures exists e :: e in after && e.id == c.studentCoursesId && e.status == Completed
    {
      var e :| e in studentsCourses && e.id == c.studentCoursesId && e.status == Completed;
      var j :| 0 <= j < |studentsCourses| && studentsCourses[j] == e;
      assert after[j] in after;
    }
  }

  /** A certificate for a completed application keeps every certificate backed. */
  lemma IssuingKeepsBacked(studentsCourses: seq<StudentsCourse>, certificates: seq<Certificate>, certificate: Certificate)
    requires exists e :: e in studentsCourses && e.id == certificate.studentCoursesId && e.status == Completed
    requires CertificatesBacked(studentsCourses, certificates)
    ensures CertificatesBacked(studentsCourses, certificates + [certificate])
  {
    forall c | c in certificates + [certificate]
      ensures exists e :: e in studentsCourses && e.id == c.studentCoursesId && e.status == Completed
    {
      if c != certificate {
        assert c in certificates;
      }
    }
  }

  /** A second ApproveCompletion on the same application is refused: the
      first one already left it completed, so at most one certificate results. */
  method ApproveCompletionTwice(db: LearningMvcContext, id: int) returns (first: Outcome, second: Outcome)
    requires db.Valid()
    modifies db`studentsCourses, db`certificates, db`nextId
    ensures db.Valid()
    ensures second != Done
    ensures first == Done ==> second == BadRequest
    ensures CertificateCount(db.certificates, id)
            == old(CertificateCount(db.certificates, id)) + (if first == Done then 1 else 0)
  {
    first := ApproveCompletion(db, id);
    second := ApproveCompletion(db, id);
  }

  /** The workflow does not keep one certificate per application: a completed
      application that a teacher approves again can be walked through
      completion once more, and a second certificate is issued for it. */
  method ReapprovalIssuesSecondCertificate(db: LearningMvcContext, id: int)
    returns (approve: Outcome, request: Outcome, complete: Outcome)
    requires db.Valid()
    requires EnrollmentIndex(db.studentsCourses, id).Some?
    requires db.studentsCourses[EnrollmentIndex(db.studentsCourses, id).value].status == Completed
    requires CertificateCount(db.certificates, id) == 1
    modifies db`studentsCourses, db`certificates, db`nextId
    ensures approve == Done && request == Done && complete == Done
    ensures CertificateCount(db.certificates, id) == 2
  {
    var k := EnrollmentIndex(db.studentsCourses, id).value;
    approve := StudentsCourses.Approve(db, id);
    StatusChangeKeepsLookup(old(db.studentsCourses), k, Approved, id);
    request := StudentsCourses.RequestCompletion(db, id);
    ghost var afterApprove := old(db.studentsCourses)[k := old(db.studentsCourses)[k].(status := Approved)];
    StatusChangeKeepsLookup(afterApprove, k, CompletionRequested, id);
    complete := ApproveCompletion(db, id);
  }

  /** MyCertificates: the certificates of the caller's own applications. */
  function MyCertificates(students: seq<Student>, studentsCourses: seq<StudentsCourse>,
                          certificates: seq<Certificate>, userId: string): (r: Option<seq<Certificate>>)
    ensures r.None? <==> StudentOf(students, userId).None?
    ensures r.Some? ==>
      forall c :: c in r.value <==>
        && c in certificates
        && exists e :: e in studentsCourses && e.id == c.studentCoursesId
                       && e.studentId == StudentOf(students, userId).value.id
  {
    match StudentOf(students, userId)
    case None => None
    case Some(st) =>
      Some(Filter(certificates, (c: Certificate) =>
        exists e :: e in studentsCourses && e.id == c.studentCoursesId && e.studentId == st.id))
  }

  /** Details: the certificate with that key, whoever owns it. */
  function Details(certificates: seq<Certificate>, id: int): (r: Option<Certificate>)
    ensures r.Some? ==> r.value in certificates && r.value.id == id
    ensures r.None? ==> forall c :: c in certificates ==> c.id != id
  {
    match IndexOf(certificates, (c: Certificate) => c.id == id)
    case None => None
    case Some(k) => Some(certificates[k])
  }
}
