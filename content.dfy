/**
  The listing page shared by lessons, tests and reviews (their Index
  actions): the rows of one course, behind the enrollment gate when the
  visitor is a student.
*/
module CourseContent {
  import opened Wrappers
  import opened Seqs
  import opened Domain
  import opened Store
  import opened Access

  /** Index(id, name) over `table`, whose rows belong to the course
      `courseOf(row)`. Without a course id the visitor goes back to the
      course list; without a name the course must exist; when `gated` (a
      student visiting lessons or tests) the gate must be open. */
  function ContentIndex<T>(courses: seq<Course>, students: seq<Student>, studentsCourses: seq<StudentsCourse>,
                           table: seq<T>, courseOf: T -> int,
                           id: Option<int>, name: string, gated: bool, userId: string): (r: Page<T>)
    ensures r.ToCourses? <==> id.None?
    ensures r.Missing? <==> id.Some? && name == "" && !HasCourse(courses, id.value)
    ensures r.Refused? <==>
      && id.Some? && (name != "" || HasCourse(courses, id.value))
      && gated && !StudentMayOpen(students, studentsCourses, userId, id.value)
    ensures r.Shown? ==> forall i :: 0 <= i < |r.items| ==> r.items[i] in table && courseOf(r.items[i]) == id.value
    ensures r.Shown? ==> forall i :: 0 <= i < |table| && courseOf(table[i]) == id.value ==> table[i] in r.items
  {
    if id.None? then ToCourses
    else if name == "" && CourseIndex(courses, id.value).None? then Missing
    else if gated && !StudentMayOpen(students, studentsCourses, userId, id.value) then Refused
    else Shown(Filter(table, (x: T) => courseOf(x) == id.value))
  }

  /** A row added to the table shows up last on its own course's page and
      leaves every other course's page as it was. */
  lemma AppendedRowListed<T>(courses: seq<Course>, students: seq<Student>, studentsCourses: seq<StudentsCourse>,
                             table: seq<T>, courseOf: T -> int, x: T,
                             id: int, name: string, gated: bool, userId: string)
    requires ContentIndex(courses, students, studentsCourses, table, courseOf, Some(id), name, gated, userId).Shown?
    ensures var before := ContentIndex(courses, students, studentsCourses, table, courseOf, Some(id), name, gated, userId);
            var after := ContentIndex(courses, students, studentsCourses, table + [x], courseOf, Some(id), name, gated, userId);
            && after.Shown?
            && after.items == before.items + (if courseOf(x) == id then [x] else [])
  {
    var p := (y: T) => courseOf(y) == id;
    FilterAppend(table, [x], p);
  }

  /** The page of a course the student has applied for stays closed until the
      application is approved; a request for completion closes it again. */
  lemma ClosedUnlessApprovedOrCompleted<T>(courses: seq<Course>, students: seq<Student>,
                                          studentsCourses: seq<StudentsCourse>, table: seq<T>, courseOf: T -> int,
                                          id: int, name: string, userId: string, k: nat)
    requires name != "" || HasCourse(courses, id)
    requires StudentOf(students, userId).Some?
    requires ApplicationIndex(studentsCourses, id, StudentOf(students, userId).value.id) == Some(k)
    ensures ContentIndex(courses, students, studentsCourses, table, courseOf, Some(id), name, true, userId).Shown?
            <==> studentsCourses[k].status in {Approved, Completed}
  {
  }
}
