/**
  CoursesController: the course list with its teacher filter and name
  search, course creation and editing, deletion with everything hanging off
  the course, and the spreadsheet import that links the imported courses
  to the importing teacher.
*/
module Courses {
  import opened Wrappers
  import opened Seqs
  import opened Text
  import opened Domain
  import opened Store
  import opened Workbook
  import opened CourseImport

  // ===== Index =====

  /** The course list and whether the "course not found" message is shown. */
  datatype CourseList = CourseList(courses: seq<Course>, notFound: bool)

  /** The query before the fallback: a teacher with a teacher record sees the
      courses linked to them, a teacher without one sees every course, anyone
      else sees the courses whose name contains the search text, or every
      course when there is none. A teacher's search text is ignored. */
  function Selected(courses: seq<Course>, teachers: seq<Teacher>, teachersCourses: seq<TeachersCourse>,
                    isTeacher: bool, userId: string, search: string): (r: seq<Course>)
    ensures forall i :: 0 <= i < |r| ==> r[i] in courses
    ensures isTeacher && TeacherOf(teachers, userId).Some? ==>
      forall c :: c in r <==> c in courses && IsLinked(teachersCourses, TeacherOf(teachers, userId).value.id, c.id)
    ensures isTeacher && TeacherOf(teachers, userId).None? ==> r == courses
    ensures !isTeacher && search != "" ==> forall c :: c in r <==> c in courses && Contains(c.name, search)
    ensures !isTeacher && search == "" ==> r == courses
  {
    if isTeacher then
      match TeacherOf(teachers, userId)
      case Some(t) => Filter(courses, (c: Course) => IsLinked(teachersCourses, t.id, c.id))
      case None => courses
    else if search != "" then
      Filter(courses, (c: Course) => Contains(c.name, search))
    else
      courses
  }

  /** Index(searchString): when a search text is given and the query finds
      nothing, every course is listed with the "not found" message. */
  function Index(courses: seq<Course>, teachers: seq<Teacher>, teachersCourses: seq<TeachersCourse>,
                 isTeacher: bool, userId: string, search: string): (r: CourseList)
    ensures r.notFound ==> search != "" && r.courses == courses
    ensures !r.notFound ==> r.courses == Selected(courses, teachers, teachersCourses, isTeacher, userId, search)
    ensures search != "" && r.courses == [] ==> courses == []
    ensures forall i :: 0 <= i < |r.courses| ==> r.courses[i] in courses
  {
    var selected := Selected(courses, teachers, teachersCourses, isTeacher, userId, search);
    if search != "" && selected == [] then CourseList(courses, true) else CourseList(selected, false)
  }

  /** Searching for the full name of an existing course lists that course
      without the "not found" message. */
  lemma SearchByNameFindsCourse(courses: seq<Course>, teachers: seq<Teacher>, teachersCourses: seq<TeachersCourse>,
                                userId: string, c: Course)
    requires c in courses && c.name != ""
    ensures var r := Index(courses, teachers, teachersCourses, false, userId, c.name);
            !r.notFound && c in r.courses
  {
    assert OccursAt(c.name, c.name, 0) by {
      assert c.name[0..|c.name|] == c.name;
    }
  }

  /** A teacher none of whose courses is linked gets the whole course list with
      the "not found" message as soon as they type a search text, whatever it is. */
  lemma UnlinkedTeacherSearchShowsAll(courses: seq<Course>, teachers: seq<Teacher>,
                                      teachersCourses: seq<TeachersCourse>, userId: string, search: string)
    requires TeacherOf(teachers, userId).Some? && search != "" && courses != []
    requires forall l :: l in teachersCourses ==> l.teacherId != TeacherOf(teachers, userId).value.id
    ensures Index(courses, teachers, teachersCourses, true, userId, search) == CourseList(courses, true)
  {
    var t := TeacherOf(teachers, userId).value;
    FilterNone(courses, (c: Course) => IsLinked(teachersCourses, t.id, c.id));
  }

  // ===== Create and Edit =====

  /** GET Edit: a teacher may open the edit form of a course linked to them. */
  function EditForm(courses: seq<Course>, teachers: seq<Teacher>, teachersCourses: seq<TeachersCourse>,
                    userId: string, id: Option<int>): (o: Outcome)
    ensures o == Done || o == Denied || o == NotFound
    ensures o == Done <==>
      && id.Some? && TeacherOf(teachers, userId).Some?
      && IsLinked(teachersCourses, TeacherOf(teachers, userId).value.id, id.value)
      && HasCourse(courses, id.value)
    ensures o == Denied <==>
      && id.Some? && TeacherOf(teachers, userId).Some?
      && !IsLinked(teachersCourses, TeacherOf(teachers, userId).value.id, id.value)
  {
    if id.None? then NotFound
    else match TeacherOf(teachers, userId)
      case None => NotFound
      case Some(t) =>
        if !IsLinked(teachersCourses, t.id, id.value) then Denied
        else if CourseIndex(courses, id.value).None? then NotFound
        else Done
  }

  /** POST Create: a name that is missing or only white space shows the form
      again; otherwise the course is stored under a fresh key and, when the
      user has a teacher record, linked to that teacher, who may then edit it. */
  method Create(db: LearningMvcContext, userId: string, name: string, info: Option<string>) returns (o: Outcome)
    requires db.Valid()
    modifies db`courses, db`teachersCourses, db`nextId
    ensures db.Valid()
    ensures IsBlank(name) ==>
      && o == FormError && db.courses == old(db.courses)
      && db.teachersCourses == old(db.teachersCourses) && db.nextId == old(db.nextId)
    ensures !IsBlank(name) ==>
      && o == Done
      && db.courses == old(db.courses) + [Course(old(db.nextId), name, info)]
      && match TeacherOf(db.teachers, userId)
         case None => db.teachersCourses == old(db.teachersCourses) && db.nextId == old(db.nextId) + 1
         case Some(t) =>
           && db.teachersCourses == old(db.teachersCourses) + [TeachersCourse(old(db.nextId) + 1, old(db.nextId), t.id)]
           && db.nextId == old(db.nextId) + 2
           && EditForm(db.courses, db.teachers, db.teachersCourses, userId, Some(old(db.nextId))) == Done
  {
    if IsBlank(name) {
      return FormError;
    }
    var id := db.AddCourse(name, info);
    var teacher := TeacherOf(db.teachers, userId);
    if teacher.Some? {
      var t := teacher.value;
      assert HasTeacher(db.teachers, t.id) by {
        var k := IndexOf(db.teachers, (x: Teacher) => x.identityId == userId).value;
        assert db.teachers[k] in db.teachers;
      }
      assert db.courses[|db.courses| - 1] in db.courses;
      var _ := db.AddTeacherLink(id, t.id);
      assert db.teachersCourses[|db.teachersCourses| - 1] in db.teachersCourses;
    }
    o := Done;
  }

  /** POST Edit: the posted course replaces the stored one with its key. A key
      that differs from the route's, or that no row has, gives 404, and a blank
      name shows the form again. Unlike GET Edit, it does not check that the
      course is linked to the teacher. */
  method EditPost(db: LearningMvcContext, id: int, course: Course) returns (o: Outcome)
    requires db.Valid()
    modifies db`courses
    ensures db.Valid()
    ensures id != course.id ==> o == NotFound && db.courses == old(db.courses)
    ensures id == course.id && IsBlank(course.name) ==> o == FormError && db.courses == old(db.courses)
    ensures id == course.id && !IsBlank(course.name) ==>
      match CourseIndex(old(db.courses), id)
      case None => o == NotFound && db.courses == old(db.courses)
      case Some(k) => o == Done && db.courses == old(db.courses)[k := course]
  {
    if id != course.id {
      return NotFound;
    }
    if IsBlank(course.name) {
      return FormError;
    }
    var found := CourseIndex(db.courses, id);
    if found.None? {
      // no row was updated: the concurrency check fails and the row is gone
      return NotFound;
    }
    db.UpdateCourse(found.value, course);
    o := Done;
  }

  // ===== DeleteConfirmed =====

  /** Some application in `enrollments` has the key `enrollmentId`. */
  predicate IssuedFor(enrollments: seq<StudentsCourse>, enrollmentId: int)
  {
    exists e :: e in enrollments && e.id == enrollmentId
  }

  /** The applications of a course, as the handler loads them with the course. */
  function EnrollmentsOf(studentsCourses: seq<StudentsCourse>, courseId: int): seq<StudentsCourse>
  {
    Filter(studentsCourses, (e: StudentsCourse) => e.courseId == courseId)
  }

  /** An application key is among the loaded applications of a course exactly
      when it belongs to an application of that course. */
  lemma IssuedForCourse(studentsCourses: seq<StudentsCourse>, courseId: int, enrollmentId: int)
    ensures IssuedFor(EnrollmentsOf(studentsCourses, courseId), enrollmentId)
            <==> EnrollmentOfCourse(studentsCourses, enrollmentId, courseId)
  {
    var loaded := EnrollmentsOf(studentsCourses, courseId);
    if EnrollmentOfCourse(studentsCourses, enrollmentId, courseId) {
      var e :| e in studentsCourses && e.id == enrollmentId && e.courseId == courseId;
      var j :| 0 <= j < |studentsCourses| && studentsCourses[j] == e;
      assert e in loaded;
    }
    if IssuedFor(loaded, enrollmentId) {
      var e :| e in loaded && e.id == enrollmentId;
      var j :| 0 <= j < |loaded| && loaded[j] == e;
    }
  }

  /** The certificates not issued for any of `enrollments`. */
  function Remaining(certificates: seq<Certificate>, enrollments: seq<StudentsCourse>): seq<Certificate>
  {
    Filter(certificates, (c: Certificate) => !IssuedFor(enrollments, c.studentCoursesId))
  }

  /** Removing the certificates of one more application. */
  lemma RemainingStep(certificates: seq<Certificate>, enrollments: seq<StudentsCourse>, i: nat, enrollmentId: int)
    requires i < |enrollments| && enrollmentId == enrollments[i].id
    ensures Filter(Remaining(certificates, enrollments[..i]), (c: Certificate) => c.studentCoursesId != enrollmentId)
            == Remaining(certificates, enrollments[..i + 1])
  {
    assert enrollments[..i + 1] == enrollments[..i] + [enrollments[i]];
    FilterTwice(certificates,
                (c: Certificate) => !IssuedFor(enrollments[..i], c.studentCoursesId),
                (c: Certificate) => c.studentCoursesId != enrollmentId,
                (c: Certificate) => !IssuedFor(enrollments[..i + 1], c.studentCoursesId));
  }

  /** The certificate loop of DeleteConfirmed: removes, application by
      application, the certificates issued for `enrollments`. */
  method RemoveCertificatesFor(db: LearningMvcContext, enrollments: seq<StudentsCourse>)
    requires db.Valid()
    modifies db`certificates
    ensures db.Valid()
    ensures db.certificates == Remaining(old(db.certificates), enrollments)
  {
    ghost var certificates := db.certificates;
    FilterKeepsAll(certificates, (c: Certificate) => !IssuedFor(enrollments[..0], c.studentCoursesId));
    var i := 0;
    while i < |enrollments|
      invariant 0 <= i <= |enrollments|
      invariant db.Valid()
      invariant db.certificates == Remaining(certificates, enrollments[..i])
    {
      var enrollmentId := enrollments[i].id;
      db.RemoveCertificatesOf(enrollmentId);
      RemainingStep(certificates, enrollments, i, enrollmentId);
      i := i + 1;
    }
    assert enrollments[..i] == enrollments;
  }

  /** POST Delete: removes the course, the certificates of its applications,
      its applications and its teacher links; the database removes its
      lessons, tests and reviews. A key that no course has changes nothing.
      Afterwards nothing refers to the course. */
  method DeleteConfirmed(db: LearningMvcContext, id: int) returns (o: Outcome)
    requires db.Valid()
    modifies db`courses, db`studentsCourses, db`teachersCourses, db`certificates, db`lessons, db`tests, db`reviews
    ensures db.Valid()
    ensures o == Done
    ensures !HasCourse(old(db.courses), id) ==>
      && db.courses == old(db.courses) && db.studentsCourses == old(db.studentsCourses)
      && db.teachersCourses == old(db.teachersCourses) && db.certificates == old(db.certificates)
      && db.lessons == old(db.lessons) && db.tests == old(db.tests) && db.reviews == old(db.reviews)
    ensures HasCourse(old(db.courses), id) ==>
      && db.certificates == Filter(old(db.certificates),
           (c: Certificate) => !EnrollmentOfCourse(old(db.studentsCourses), c.studentCoursesId, id))
      && db.courses == Filter(old(db.courses), (c: Course) => c.id != id)
      && db.studentsCourses == Filter(old(db.studentsCourses), (e: StudentsCourse) => e.courseId != id)
      && db.teachersCourses == Filter(old(db.teachersCourses), (l: TeachersCourse) => l.courseId != id)
      && db.lessons == Filter(old(db.lessons), (l: Lesson) => l.courseId != id)
      && db.tests == Filter(old(db.tests), (t: Test) => t.courseId != id)
      && db.reviews == Filter(old(db.reviews), (r: Review) => r.courseId != id)
    ensures !HasCourse(db.courses, id)
  {
    o := Done;
    if !HasCourse(db.courses, id) {
      return;
    }
    ghost var certificates := db.certificates;
    var enrollments := EnrollmentsOf(db.studentsCourses, id);
    RemoveCertificatesFor(db, enrollments);
    forall j | 0 <= j < |certificates|
      ensures !IssuedFor(enrollments, certificates[j].studentCoursesId)
              == !EnrollmentOfCourse(db.studentsCourses, certificates[j].studentCoursesId, id)
    {
      IssuedForCourse(db.studentsCourses, id, certificates[j].studentCoursesId);
    }
    var studentsCourses := db.studentsCourses;
    FilterSameOn(certificates,
                 (c: Certificate) => !IssuedFor(enrollments, c.studentCoursesId),
                 (c: Certificate) => !EnrollmentOfCourse(studentsCourses, c.studentCoursesId, id));
    forall c | c in db.certificates ensures !EnrollmentOfCourse(db.studentsCourses, c.studentCoursesId, id) {
      var j :| 0 <= j < |db.certificates| && db.certificates[j] == c;
    }
    db.RemoveCourse(id);
    assert !HasCourse(db.courses, id) by {
      forall c | c in db.courses ensures c.id != id {
        var j :| 0 <= j < |db.courses| && db.courses[j] == c;
      }
    }
  }

  // ===== ImportAsync =====

  /** The names the handler reads back from the file: the trimmed first cell
      of each data row, blank ones left out, in row order. */
  function SheetNames(entries: seq<Entry>): (r: seq<string>)
    ensures forall i :: 0 <= i < |r| ==> r[i] != ""
    ensures forall k :: 0 <= k < |entries| && entries[k].name != "" ==> entries[k].name in r
    ensures forall i :: 0 <= i < |r| ==> exists k :: 0 <= k < |entries| && entries[k].name == r[i]
    decreases |entries|
  {
    if entries == [] then []
    else
      var n := |entries| - 1;
      var before := SheetNames(entries[..n]);
      assert forall k :: 0 <= k < n ==> entries[..n][k] == entries[k];
      before + (if entries[n].name != "" then [entries[n].name] else [])
  }

  /** The loop that re-reads the file and collects the course names. */
  method CollectNames(sheet: Sheet) returns (names: seq<string>)
    ensures names == SheetNames(Entries(DataRows(sheet)))
  {
    var rows := DataRows(sheet);
    ghost var entries := Entries(rows);
    names := [];
    var i := 0;
    while i < |rows|
      invariant 0 <= i <= |rows|
      invariant names == SheetNames(entries[..i])
    {
      var name := Trim(Cell(rows[i], 1));
      assert entries[..i + 1][..i] == entries[..i];
      if name != "" {
        names := names + [name];
      }
      i := i + 1;
    }
    assert entries[..i] == entries;
  }

  /** The courses the file names (Courses.Where(importedNames.Contains(Name))). */
  function NamedCourses(courses: seq<Course>, names: seq<string>): seq<Course>
  {
    Filter(courses, (c: Course) => c.name in names)
  }

  /** The courses of `cs` not yet linked to the teacher in `links`. */
  function MissingLinks(links: seq<TeachersCourse>, teacherId: int, cs: seq<Course>): seq<Course>
  {
    Filter(cs, (c: Course) => !IsLinked(links, teacherId, c.id))
  }

  /** New link rows for `cs`, in order, with keys drawn from `next` on. */
  function LinkRows(cs: seq<Course>, teacherId: int, next: int): (r: seq<TeachersCourse>)
    ensures |r| == |cs|
  {
    seq(|cs|, j requires 0 <= j < |cs| => TeachersCourse(next + j, cs[j].id, teacherId))
  }

  /** The links after the linking loop over `cs`. */
  function LinkedAll(links: seq<TeachersCourse>, teacherId: int, cs: seq<Course>, next: int): seq<TeachersCourse>
  {
    links + LinkRows(MissingLinks(links, teacherId, cs), teacherId, next)
  }

  /** One more course for the linking loop. */
  lemma LinkedAllStep(links: seq<TeachersCourse>, teacherId: int, cs: seq<Course>, j: nat, next: int)
    requires j < |cs|
    ensures var missing := MissingLinks(links, teacherId, cs[..j]);
            && MissingLinks(links, teacherId, cs[..j + 1])
               == missing + (if IsLinked(links, teacherId, cs[j].id) then [] else [cs[j]])
            && (!IsLinked(links, teacherId, cs[j].id) ==>
                  LinkedAll(links, teacherId, cs[..j + 1], next)
                  == LinkedAll(links, teacherId, cs[..j], next) + [TeachersCourse(next + |missing|, cs[j].id, teacherId)])
            && (IsLinked(links, teacherId, cs[j].id) ==>
                  LinkedAll(links, teacherId, cs[..j + 1], next) == LinkedAll(links, teacherId, cs[..j], next))
  {
    assert cs[..j + 1][..j] == cs[..j];
    FilterSnoc(cs[..j + 1], (c: Course) => !IsLinked(links, teacherId, c.id));
  }

  /** The linking loop: every course of `cs` that the saved links do not tie
      to the teacher gets a new link. The check reads the saved links, which
      is what the database holds until the single save at the end. */
  method LinkCourses(db: LearningMvcContext, teacherId: int, cs: seq<Course>)
    requires db.Valid()
    requires HasTeacher(db.teachers, teacherId)
    requires forall i :: 0 <= i < |cs| ==> cs[i] in db.courses
    modifies db`teachersCourses, db`nextId
    ensures db.Valid()
    ensures db.teachersCourses == LinkedAll(old(db.teachersCourses), teacherId, cs, old(db.nextId))
    ensures db.nextId == old(db.nextId) + |MissingLinks(old(db.teachersCourses), teacherId, cs)|
  {
    var saved := db.teachersCourses;
    var next := db.nextId;
    assert cs[..0] == [];
    var j := 0;
    while j < |cs|
      invariant 0 <= j <= |cs|
      invariant db.Valid()
      invariant db.teachersCourses == LinkedAll(saved, teacherId, cs[..j], next)
      invariant db.nextId == next + |MissingLinks(saved, teacherId, cs[..j])|
    {
      var c := cs[j];
      LinkedAllStep(saved, teacherId, cs, j, next);
      if !IsLinked(saved, teacherId, c.id) {
        assert HasCourse(db.courses, c.id);
        var _ := db.AddTeacherLink(c.id, teacherId);
      }
      j := j + 1;
    }
    assert cs[..j] == cs;
  }

  /** After linking, every course of `cs` is linked to the teacher. */
  lemma {:induction false} LinkedAllLinksEvery(links: seq<TeachersCourse>, teacherId: int, cs: seq<Course>, next: int,
                                               c: Course)
    requires c in cs
    ensures IsLinked(LinkedAll(links, teacherId, cs, next), teacherId, c.id)
  {
    var after := LinkedAll(links, teacherId, cs, next);
    if IsLinked(links, teacherId, c.id) {
      var l :| l in links && l.teacherId == teacherId && l.courseId == c.id;
      assert l in after;
    } else {
      var missing := MissingLinks(links, teacherId, cs);
      var i :| 0 <= i < |cs| && cs[i] == c;
      assert c in missing;
      var j :| 0 <= j < |missing| && missing[j] == c;
      assert after[|links| + j] == TeachersCourse(next + j, c.id, teacherId);
    }
  }

  /** Linking twice adds nothing the second time. */
  lemma LinkingIdempotent(links: seq<TeachersCourse>, teacherId: int, cs: seq<Course>, next: int, next2: int)
    ensures var once := LinkedAll(links, teacherId, cs, next);
            LinkedAll(once, teacherId, cs, next2) == once
  {
    var once := LinkedAll(links, teacherId, cs, next);
    forall i | 0 <= i < |cs| ensures IsLinked(once, teacherId, cs[i].id) {
      LinkedAllLinksEvery(links, teacherId, cs, next, cs[i]);
    }
    FilterNone(cs, (c: Course) => !IsLinked(once, teacherId, c.id));
  }

  /** No teacher is linked twice to the same course. */
  ghost predicate NoDuplicateLinks(links: seq<TeachersCourse>)
  {
    forall i, j :: 0 <= i < j < |links| ==>
      links[i].teacherId != links[j].teacherId || links[i].courseId != links[j].courseId
  }

  /** Linking courses with distinct keys never links a teacher twice to a course. */
  lemma LinkingKeepsNoDuplicates(links: seq<TeachersCourse>, teacherId: int, cs: seq<Course>, next: int)
    requires NoDuplicateLinks(links)
    requires UniqueKeys(cs, (c: Course) => c.id) && KeysBelow(cs, (c: Course) => c.id, next)
    ensures NoDuplicateLinks(LinkedAll(links, teacherId, cs, next))
  {
    var missing := MissingLinks(links, teacherId, cs);
    FilterKeepsKeys(cs, (c: Course) => !IsLinked(links, teacherId, c.id), (c: Course) => c.id, next);
    var rows := LinkRows(missing, teacherId, next);
    var after := links + rows;
    forall i, j | 0 <= i < j < |after|
      ensures after[i].teacherId != after[j].teacherId || after[i].courseId != after[j].courseId
    {
      if j >= |links| {
        var m := j - |links|;
        assert after[j] == TeachersCourse(next + m, missing[m].id, teacherId);
        assert !IsLinked(links, teacherId, missing[m].id);
        if i < |links| {
          assert after[i] in links;
        } else {
          assert after[i] == TeachersCourse(next + (i - |links|), missing[i - |links|].id, teacherId);
        }
      }
    }
  }

  /** POST Import: without a file the form is shown again. Otherwise the file
      is imported; then, when the user has a teacher record, every course whose
      name the file carries is linked to that teacher, courses that existed
      before the import included. */
  method ImportAsync(db: LearningMvcContext, file: Option<Sheet>, userId: string) returns (o: Outcome)
    requires db.Valid()
    modifies db`courses, db`teachersCourses, db`nextId
    ensures db.Valid()
    ensures file.None? ==>
      && o == FormError && db.courses == old(db.courses)
      && db.teachersCourses == old(db.teachersCourses) && db.nextId == old(db.nextId)
    ensures file.Some? ==>
      && o == Done
      && db.courses == Imported(old(db.courses), old(db.nextId), Entries(DataRows(file.value)))
    ensures file.Some? ==>
      match TeacherOf(db.teachers, userId)
      case None => db.teachersCourses == old(db.teachersCourses)
      case Some(t) =>
        db.teachersCourses == LinkedAll(old(db.teachersCourses), t.id,
                                        NamedCourses(db.courses, SheetNames(Entries(DataRows(file.value)))),
                                        old(db.nextId) + (|db.courses| - |old(db.courses)|))
  {
    if file.None? {
      return FormError;
    }
    var sheet := file.value;
    var _ := CourseImport.ImportFromStream(db, true, sheet);
    o := Done;
    var teacher := TeacherOf(db.teachers, userId);
    if teacher.None? {
      return;
    }
    var t := teacher.value;
    assert HasTeacher(db.teachers, t.id) by {
      var k := IndexOf(db.teachers, (x: Teacher) => x.identityId == userId).value;
      assert db.teachers[k] in db.teachers;
    }
    LinkNamedCourses(db, t.id, sheet);
  }

  /** Steps 3 and 4 of the import: re-read the names from the file and link
      every course carrying one of them to the teacher. */
  method LinkNamedCourses(db: LearningMvcContext, teacherId: int, sheet: Sheet)
    requires db.Valid()
    requires HasTeacher(db.teachers, teacherId)
    modifies db`teachersCourses, db`nextId
    ensures db.Valid()
    ensures db.teachersCourses == LinkedAll(old(db.teachersCourses), teacherId,
                                            NamedCourses(db.courses, SheetNames(Entries(DataRows(sheet)))),
                                            old(db.nextId))
  {
    var names := CollectNames(sheet);
    var imported := NamedCourses(db.courses, names);
    LinkCourses(db, teacherId, imported);
  }

  /** After an import by a teacher, every name the file carries is the name of
      a course linked to that teacher (`entries` are the file's data rows). */
  lemma ImportLinksEveryName(saved: seq<Course>, next: int, entries: seq<Entry>, links: seq<TeachersCourse>,
                             teacherId: int, next2: int, name: string)
    requires name in SheetNames(entries)
    ensures var courses := Imported(saved, next, entries);
            exists c :: c in courses && c.name == name
              && IsLinked(LinkedAll(links, teacherId, NamedCourses(courses, SheetNames(entries)), next2), teacherId, c.id)
  {
    var courses := Imported(saved, next, entries);
    var names := SheetNames(entries);
    var j :| 0 <= j < |names| && names[j] == name;
    var k :| 0 <= k < |entries| && entries[k].name == name;
    ImportedHasEveryName(saved, next, entries, k);
    var i :| 0 <= i < |courses| && courses[i].name == name;
    var c := courses[i];
    assert c in NamedCourses(courses, names);
    LinkedAllLinksEvery(links, teacherId, NamedCourses(courses, names), next2, c);
  }
}
