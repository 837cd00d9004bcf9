/**
  ChartsController: two JSON series for the dashboard, each a list of
  (label, count) pairs grouped by a name: applications per course name and
  certificates per student name.
*/
module Charts {
  import opened Wrappers
  import opened Seqs
  import opened Domain
  import opened Store

  /** One point of a series (CountResponseItem). */
  datatype CountItem = CountItem(key: string, count: nat)

  /** How often `x` occurs in `labels`. */
  function Occurrences(labels: seq<string>, x: string): nat
    decreases |labels|
  {
    if labels == [] then 0
    else Occurrences(labels[..|labels| - 1], x) + (if labels[|labels| - 1] == x then 1 else 0)
  }

  /** The count the series gives for `x`, or 0 when `x` is no label of it. */
  function CountOf(items: seq<CountItem>, x: string): nat
    decreases |items|
  {
    if items == [] then 0
    else if items[0].key == x then items[0].count
    else CountOf(items[1..], x)
  }

  /** The sum of all counts of the series. */
  function Total(items: seq<CountItem>): nat
    decreases |items|
  {
    if items == [] then 0 else items[0].count + Total(items[1..])
  }

  /** No label appears twice and every count is at least one. */
  predicate WellGrouped(items: seq<CountItem>)
  {
    && (forall i, j :: 0 <= i < j < |items| ==> items[i].key != items[j].key)
    && (forall i :: 0 <= i < |items| ==> items[i].count >= 1)
  }

  /** Counts one more `x`: its group grows by one, or a new group is appended. */
  function Tally(items: seq<CountItem>, x: string): (r: seq<CountItem>)
    requires WellGrouped(items)
    ensures WellGrouped(r)
    ensures forall y :: CountOf(r, y) == CountOf(items, y) + (if y == x then 1 else 0)
    ensures Total(r) == Total(items) + 1
    decreases |items|
  {
    if items == [] then [CountItem(x, 1)]
    else if items[0].key == x then
      assert forall y :: y != x ==> CountOf(items, y) == CountOf(items[1..], y);
      [items[0].(count := items[0].count + 1)] + items[1..]
    else
      var rest := Tally(items[1..], x);
      assert forall i :: 0 <= i < |rest| ==> rest[i].key != items[0].key by {
        forall i | 0 <= i < |rest| ensures rest[i].key != items[0].key {
          LabelCounted(rest, i);
          if rest[i].key != x {
            NotCounted(items[1..], items[0].key);
          }
        }
      }
      [items[0]] + rest
  }

  /** A label of a well-grouped series is counted at its own count. */
  lemma {:induction false} LabelCounted(items: seq<CountItem>, i: nat)
    requires WellGrouped(items) && i < |items|
    ensures CountOf(items, items[i].key) == items[i].count >= 1
    decreases |items|
  {
    if i > 0 {
      LabelCounted(items[1..], i - 1);
    }
  }

  /** A label that differs from every label of the series counts zero. */
  lemma {:induction false} NotCounted(items: seq<CountItem>, x: string)
    requires WellGrouped(items)
    requires forall i :: 0 <= i < |items| ==> items[i].key != x
    ensures CountOf(items, x) == 0
    decreases |items|
  {
    if items != [] {
      NotCounted(items[1..], x);
    }
  }

  /** GroupBy(label).Select(g => (g.Key, g.Count())): one group per distinct
      label, counting its occurrences, the counts adding up to the number of
      rows grouped. Groups appear in order of first occurrence. */
  function GroupCount(labels: seq<string>): (r: seq<CountItem>)
    ensures WellGrouped(r)
    ensures forall x :: CountOf(r, x) == Occurrences(labels, x)
    ensures Total(r) == |labels|
    decreases |labels|
  {
    if labels == [] then []
    else Tally(GroupCount(labels[..|labels| - 1]), labels[|labels| - 1])
  }

  /** In a well-grouped series, a label has a group exactly when it counts. */
  lemma KeyCounted(items: seq<CountItem>, x: string)
    requires WellGrouped(items)
    ensures (exists i :: 0 <= i < |items| && items[i].key == x) <==> CountOf(items, x) > 0
  {
    if exists i :: 0 <= i < |items| && items[i].key == x {
      var i :| 0 <= i < |items| && items[i].key == x;
      LabelCounted(items, i);
    } else {
      NotCounted(items, x);
    }
  }

  /** A label is in the series exactly when it occurs among the grouped labels. */
  lemma GroupedLabels(labels: seq<string>, x: string, r: seq<CountItem>)
    requires r == GroupCount(labels)
    ensures (exists i :: 0 <= i < |r| && r[i].key == x) <==> Occurrences(labels, x) > 0
  {
    KeyCounted(r, x);
  }

  /** The name an application is counted under: the name of its course, or
      None when the course is missing and the inner join of the query drops it. */
  function CourseName(courses: seq<Course>, e: StudentsCourse): (r: Option<string>)
    ensures r.Some? <==> HasCourse(courses, e.courseId)
    ensures r.Some? ==> exists c :: c in courses && c.id == e.courseId && c.name == r.value
  {
    match CourseIndex(courses, e.courseId)
    case None => None
    case Some(k) =>
      assert courses[k] in courses;
      Some(courses[k].name)
  }

  /** The applications the series counts under the name `x`. */
  function CourseRows(courses: seq<Course>, studentsCourses: seq<StudentsCourse>, x: string): seq<StudentsCourse>
  {
    Filter(studentsCourses, (e: StudentsCourse) => CourseName(courses, e) == Some(x))
  }

  /** The label of each application, in table order; an application whose
      course is missing has none. */
  function CourseLabels(courses: seq<Course>, studentsCourses: seq<StudentsCourse>): (r: seq<string>)
    ensures |r| <= |studentsCourses|
    ensures (forall e :: e in studentsCourses ==> HasCourse(courses, e.courseId)) ==> |r| == |studentsCourses|
    decreases |studentsCourses|
  {
    if studentsCourses == [] then []
    else
      assert forall x :: x in studentsCourses[1..] ==> x in studentsCourses;
      var head := match CourseName(courses, studentsCourses[0])
        case None => []
        case Some(n) => [n];
      head + CourseLabels(courses, studentsCourses[1..])
  }

  /** Occurrences add up over a concatenation. */
  lemma {:induction false} OccurrencesAppend(a: seq<string>, b: seq<string>, x: string)
    ensures Occurrences(a + b, x) == Occurrences(a, x) + Occurrences(b, x)
    decreases |b|
  {
    if b == [] {
      assert a + b == a;
    } else {
      var n := |b| - 1;
      assert (a + b)[..|a + b| - 1] == a + b[..n];
      OccurrencesAppend(a, b[..n], x);
    }
  }

  /** A name occurs among the labels once per application counted under it. */
  lemma {:induction false} CourseLabelsCount(courses: seq<Course>, studentsCourses: seq<StudentsCourse>, x: string)
    ensures Occurrences(CourseLabels(courses, studentsCourses), x) == |CourseRows(courses, studentsCourses, x)|
    decreases |studentsCourses|
  {
    if studentsCourses != [] {
      var head := match CourseName(courses, studentsCourses[0])
        case None => []
        case Some(n) => [n];
      CourseLabelsCount(courses, studentsCourses[1..], x);
      OccurrencesAppend(head, CourseLabels(courses, studentsCourses[1..]), x);
      assert head != [] ==> head[..0] == [];
    }
  }

  /** GET studentsByCourse: the number of applications per course name. */
  function StudentsByCourse(courses: seq<Course>, studentsCourses: seq<StudentsCourse>): (r: seq<CountItem>)
    ensures WellGrouped(r)
    ensures forall x :: CountOf(r, x) == Occurrences(CourseLabels(courses, studentsCourses), x)
    ensures forall x :: CountOf(r, x) == |CourseRows(courses, studentsCourses, x)|
  {
    assert forall x :: Occurrences(CourseLabels(courses, studentsCourses), x) == |CourseRows(courses, studentsCourses, x)| by {
      forall x ensures Occurrences(CourseLabels(courses, studentsCourses), x) == |CourseRows(courses, studentsCourses, x)| {
        CourseLabelsCount(courses, studentsCourses, x);
      }
    }
    GroupCount(CourseLabels(courses, studentsCourses))
  }

  /** In a consistent database every application is counted exactly once. */
  lemma StudentsByCourseCountsEveryApplication(db: LearningMvcContext)
    requires db.Valid()
    ensures Total(StudentsByCourse(db.courses, db.studentsCourses)) == |db.studentsCourses|
  {
    assert forall e :: e in db.studentsCourses ==> HasCourse(db.courses, e.courseId);
  }

  /** The name a certificate is counted under: the name of the student of its
      application, or None when the application or the student is missing. */
  function StudentName(students: seq<Student>, studentsCourses: seq<StudentsCourse>, c: Certificate)
    : (r: Option<string>)
    ensures !HasEnrollment(studentsCourses, c.studentCoursesId) ==> r.None?
    ensures HasEnrollment(studentsCourses, c.studentCoursesId)
            && (forall e :: e in studentsCourses ==> HasStudent(students, e.studentId))
            ==> r.Some?
    ensures r.Some? ==>
      exists e, s :: e in studentsCourses && e.id == c.studentCoursesId && s in students && s.id == e.studentId && s.name == r.value
  {
    match EnrollmentIndex(studentsCourses, c.studentCoursesId)
    case None => None
    case Some(k) =>
      assert studentsCourses[k] in studentsCourses;
      match IndexOf(students, (s: Student) => s.id == studentsCourses[k].studentId)
      case None =>
        None
      case Some(m) =>
        assert students[m] in students;
        Some(students[m].name)
  }

  /** The certificates the series counts under the name `x`. */
  function StudentRows(students: seq<Student>, studentsCourses: seq<StudentsCourse>,
                       certificates: seq<Certificate>, x: string): seq<Certificate>
  {
    Filter(certificates, (c: Certificate) => StudentName(students, studentsCourses, c) == Some(x))
  }

  /** The label of each certificate, in table order; a certificate whose
      application or student is missing has none. */
  function StudentLabels(students: seq<Student>, studentsCourses: seq<StudentsCourse>,
                         certificates: seq<Certificate>): (r: seq<string>)
    ensures |r| <= |certificates|
    ensures (forall c :: c in certificates ==> HasEnrollment(studentsCourses, c.studentCoursesId))
            && (forall e :: e in studentsCourses ==> HasStudent(students, e.studentId))
            ==> |r| == |certificates|
    decreases |certificates|
  {
    if certificates == [] then []
    else
      var c := certificates[0];
      assert forall x :: x in certificates[1..] ==> x in certificates;
      var head := match StudentName(students, studentsCourses, c)
        case None => []
        case Some(n) => [n];
      assert HasEnrollment(studentsCourses, c.studentCoursesId)
             && (forall e :: e in studentsCourses ==> HasStudent(students, e.studentId))
             ==> head != [] by {
        if HasEnrollment(studentsCourses, c.studentCoursesId)
           && (forall e :: e in studentsCourses ==> HasStudent(students, e.studentId)) {
          var k := EnrollmentIndex(studentsCourses, c.studentCoursesId).value;
          assert studentsCourses[k] in studentsCourses;
        }
      }
      head + StudentLabels(students, studentsCourses, certificates[1..])
  }

  /** A name occurs among the labels once per certificate counted under it. */
  lemma {:induction false} StudentLabelsCount(students: seq<Student>, studentsCourses: seq<StudentsCourse>,
                                              certificates: seq<Certificate>, x: string)
    ensures Occurrences(StudentLabels(students, studentsCourses, certificates), x)
            == |StudentRows(students, studentsCourses, certificates, x)|
    decreases |certificates|
  {
    if certificates != [] {
      var head := match StudentName(students, studentsCourses, certificates[0])
        case None => []
        case Some(n) => [n];
      StudentLabelsCount(students, studentsCourses, certificates[1..], x);
      OccurrencesAppend(head, StudentLabels(students, studentsCourses, certificates[1..]), x);
      assert head != [] ==> head[..0] == [];
    }
  }

  /** GET certificatesByStudent: the number of certificates per student name. */
  function CertificatesByStudent(students: seq<Student>, studentsCourses: seq<StudentsCourse>,
                                 certificates: seq<Certificate>): (r: seq<CountItem>)
    ensures WellGrouped(r)
    ensures forall x :: CountOf(r, x) == Occurrences(StudentLabels(students, studentsCourses, certificates), x)
    ensures forall x :: CountOf(r, x) == |StudentRows(students, studentsCourses, certificates, x)|
  {
    assert forall x :: Occurrences(StudentLabels(students, studentsCourses, certificates), x)
                       == |StudentRows(students, studentsCourses, certificates, x)| by {
      forall x ensures Occurrences(StudentLabels(students, studentsCourses, certificates), x)
                       == |StudentRows(students, studentsCourses, certificates, x)| {
        StudentLabelsCount(students, studentsCourses, certificates, x);
      }
    }
    GroupCount(StudentLabels(students, studentsCourses, certificates))
  }

  /** In a consistent database every certificate is counted exactly once. */
  lemma CertificatesByStudentCountsEveryCertificate(db: LearningMvcContext)
    requires db.Valid()
    ensures Total(CertificatesByStudent(db.students, db.studentsCourses, db.certificates)) == |db.certificates|
  {
    assert forall c :: c in db.certificates ==> HasEnrollment(db.studentsCourses, c.studentCoursesId);
    assert forall e :: e in db.studentsCourses ==> HasStudent(db.students, e.studentId);
  }}
