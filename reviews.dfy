/**
  ReviewsController: anyone signed in lists a course's reviews, students
  with an approved application write them, teachers edit and delete them.
*/
module Reviews {
  import opened Wrappers
  import opened Seqs
  import opened Text
  import opened Domain
  import opened Store
  import opened Access
  import opened CourseContent

  /** Position of the review with key `id` (FindAsync / FirstOrDefault by Id). */
  function ReviewIndex(reviews: seq<Review>, id: int): (r: Option<nat>)
    ensures r.Some? ==> r.value < |reviews| && reviews[r.value].id == id
    ensures r.None? <==> !HasKey(reviews, (v: Review) => v.id, id)
  {
    IndexOf(reviews, (v: Review) => v.id == id)
  }

  /** Index: the reviews of one course. Unlike lessons and tests, the list is
      not behind the enrollment gate. */
  function Index(courses: seq<Course>, reviews: seq<Review>, id: Option<int>, name: string): (r: Page<Review>)
    ensures r.ToCourses? <==> id.None?
    ensures r.Missing? <==> id.Some? && name == "" && !HasCourse(courses, id.value)
    ensures !r.Refused?
    ensures r.Shown? ==> forall i :: 0 <= i < |r.items| ==> r.items[i] in reviews && r.items[i].courseId == id.value
    ensures r.Shown? ==> forall i :: 0 <= i < |reviews| && reviews[i].courseId == id.value ==> reviews[i] in r.items
  {
    ContentIndex(courses, [], [], reviews, (v: Review) => v.courseId, id, name, false, "")
  }

  /** GET Create: the review form. A user with a student record needs an
      approved or completed application for the course. */
  function CreateForm(students: seq<Student>, studentsCourses: seq<StudentsCourse>, userId: string, courseId: int)
    : (o: Outcome)
    ensures o == Done || o == Denied
    ensures o == Denied <==>
      match StudentOf(students, userId)
      case None => false
      case Some(st) =>
        ApplicationIndex(studentsCourses, courseId, st.id).None?
        || !GrantsAccess(studentsCourses[ApplicationIndex(studentsCourses, courseId, st.id).value].status)
  {
    if ReviewFormOpen(students, studentsCourses, userId, courseId) then Done else Denied
  }

  /** POST Create: a user with a student record needs an application for the
      course that is exactly approved; the review is then stored under the
      course of the route with a fresh key. The database rejects a course key
      that does not exist, and a blank name, which the form binds as null for
      a NOT NULL column. */
  method Create(db: LearningMvcContext, userId: string, courseId: int, review: Review) returns (o: Outcome)
    requires db.Valid()
    modifies db`reviews, db`nextId
    ensures db.Valid()
    ensures !ReviewSubmissionOpen(db.students, db.studentsCourses, userId, courseId) ==>
      o == Denied && db.reviews == old(db.reviews) && db.nextId == old(db.nextId)
    ensures ReviewSubmissionOpen(db.students, db.studentsCourses, userId, courseId) && (IsBlank(review.name) || !HasCourse(db.courses, courseId)) ==>
      o == Failed && db.reviews == old(db.reviews) && db.nextId == old(db.nextId)
    ensures ReviewSubmissionOpen(db.students, db.studentsCourses, userId, courseId) && !IsBlank(review.name) && HasCourse(db.courses, courseId) ==>
      && o == Done
      && db.reviews == old(db.reviews) + [review.(id := old(db.nextId), courseId := courseId)]
      && db.nextId == old(db.nextId) + 1
  {
    if !ReviewSubmissionOpen(db.students, db.studentsCourses, userId, courseId) {
      return Denied;
    }
    if IsBlank(review.name) || !HasCourse(db.courses, courseId) {
      return Failed;
    }
    var _ := db.AddReview(review.(courseId := courseId));
    o := Done;
  }

  /** A student whose application is completed sees the review form but
      cannot submit it. */
  lemma CompletedStudentCannotSubmit(db: LearningMvcContext, userId: string, courseId: int, k: nat)
    requires StudentOf(db.students, userId).Some?
    requires ApplicationIndex(db.studentsCourses, courseId, StudentOf(db.students, userId).value.id) == Some(k)
    requires db.studentsCourses[k].status == Completed
    ensures CreateForm(db.students, db.studentsCourses, userId, courseId) == Done
    ensures !ReviewSubmissionOpen(db.students, db.studentsCourses, userId, courseId)
  {
  }

  /** POST Edit: the posted review replaces the stored one with its key. A key
      that differs from the route's, or that no row has, gives 404; a course
      key that does not exist or a blank name makes the update fail. */
  method Edit(db: LearningMvcContext, id: int, review: Review) returns (o: Outcome)
    requires db.Valid()
    modifies db`reviews
    ensures db.Valid()
    ensures id != review.id ==> o == NotFound && db.reviews == old(db.reviews)
    ensures id == review.id ==>
      match ReviewIndex(old(db.reviews), id)
      case None => o == NotFound && db.reviews == old(db.reviews)
      case Some(k) =>
        if IsBlank(review.name) || !HasCourse(db.courses, review.courseId) then o == Failed && db.reviews == old(db.reviews)
        else o == Done && db.reviews == old(db.reviews)[k := review]
  {
    if id != review.id {
      return NotFound;
    }
    var found := ReviewIndex(db.reviews, id);
    if found.None? {
      // no row was updated: the concurrency check fails and the row is gone
      return NotFound;
    }
    if IsBlank(review.name) || !HasCourse(db.courses, review.courseId) {
      return Failed;
    }
    db.UpdateReview(found.value, review);
    o := Done;
  }

  /** POST Delete: removes the review with that key, which is at most one row;
      a missing key only redirects. */
  method DeleteConfirmed(db: LearningMvcContext, id: int) returns (o: Outcome)
    requires db.Valid()
    modifies db`reviews
    ensures db.Valid()
    ensures o == Done
    ensures db.reviews == Filter(old(db.reviews), (v: Review) => v.id != id)
    ensures |db.reviews| == if HasKey(old(db.reviews), (v: Review) => v.id, id) then |old(db.reviews)| - 1 else |old(db.reviews)|
  {
    RemoveByKeyCount(db.reviews, (v: Review) => v.id, id, (v: Review) => v.id != id);
    db.RemoveReview(id);
    o := Done;
  }
}
