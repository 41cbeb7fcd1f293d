/**
 * `StudentService`: the lesson gate on passed quizzes, the paged student listing, enrolment
 * and unenrolment, deleting a student, and the student views with their enrolments.
 */
module StudentService {
  import opened Wrappers
  import opened Tables
  import opened Entities
  import opened Dto
  import opened Data
  import opened Paging
  import opened QuizRepository
  import opened QuizService

  // ---------------------------------------------------------------------------------------
  // The lesson gate
  // ---------------------------------------------------------------------------------------

  /** The student passed every quiz of the lesson, each judged by the first attempt found for it. */
  predicate Unlocked(quizzes: Table<Quiz>, attempts: Table<StudentQuiz>, studentId: Guid, lessonId: Guid) {
    forall i :: 0 <= i < |quizzes| && quizzes[i].val.lessonId == lessonId ==>
      DidStudentPassQuiz(attempts, studentId, quizzes[i].id)
  }

  /** The attempt decides a quiz for a student who had no attempt at it yet. */
  predicate PassedWith(attempts: Table<StudentQuiz>, attempt: Row<StudentQuiz>, studentId: Guid, quizId: Guid) {
    if HasStudentTakenQuiz(attempts, studentId, quizId) then DidStudentPassQuiz(attempts, studentId, quizId)
    else attempt.val.studentId == studentId && attempt.val.quizId == quizId && attempt.val.passed
  }

  /**
   * After one more attempt is stored, a quiz of the lesson counts as passed exactly when its
   * first attempt passed, or, for a quiz the student had not taken, when the new attempt is a
   * pass at it. So a later attempt never relocks a lesson, and never unlocks a quiz already failed.
   */
  lemma UnlockedAfterAttempt(quizzes: Table<Quiz>, attempts: Table<StudentQuiz>, attempt: Row<StudentQuiz>,
                             studentId: Guid, lessonId: Guid)
    ensures Unlocked(quizzes, attempts + [attempt], studentId, lessonId) <==>
      forall i :: 0 <= i < |quizzes| && quizzes[i].val.lessonId == lessonId ==>
        PassedWith(attempts, attempt, studentId, quizzes[i].id)
    ensures Unlocked(quizzes, attempts, studentId, lessonId) ==> Unlocked(quizzes, attempts + [attempt], studentId, lessonId)
  {
    forall i | 0 <= i < |quizzes|
      ensures DidStudentPassQuiz(attempts + [attempt], studentId, quizzes[i].id) ==
        PassedWith(attempts, attempt, studentId, quizzes[i].id)
    {
      FirstOrDefaultAppend(attempts, attempt, AttemptOf(studentId, quizzes[i].id));
    }
  }

  // ---------------------------------------------------------------------------------------
  // Student views
  // ---------------------------------------------------------------------------------------

  /** The users listed as students: those holding the role named "Student". */
  predicate IsStudent(user: Row<User>) {
    "Student" in user.val.roles
  }

  /** `user.Enrollments`: the enrolments whose `StudentId` is the user's key. */
  function EnrollmentOf(studentId: Guid): StudentCourse -> bool {
    (e: StudentCourse) => e.studentId == studentId
  }

  function EnrollmentsOf(studentCourses: seq<StudentCourse>, studentId: Guid): seq<StudentCourse> {
    Filter(studentCourses, EnrollmentOf(studentId))
  }

  /** The listing's course name: the course's name, or "N/A" when the enrolment names no stored course. */
  function CourseNameOrNA(courses: Table<Course>, courseId: Guid): (name: string)
    ensures HasKey(courses, courseId) ==> exists i :: 0 <= i < |courses| && courses[i].id == courseId && name == courses[i].val.name
    ensures !HasKey(courses, courseId) ==> name == "N/A"
  {
    match Find(courses, courseId)
    case Some(course) => course.val.name
    case None => "N/A"
  }

  /** A student as `GetAllStudentsAsync` lists one: key, names and every enrolment with its course name. */
  function StudentView(user: Row<User>, studentCourses: seq<StudentCourse>, courses: Table<Course>): StudentDto {
    var es := EnrollmentsOf(studentCourses, user.id);
    StudentDto(user.id, user.val.userName, user.val.email,
      seq(|es|, i requires 0 <= i < |es| => EnrollmentDto(es[i].courseId, CourseNameOrNA(courses, es[i].courseId))))
  }

  /** The users with the student role, in table order, each in its listed form. */
  function Students(users: Table<User>, studentCourses: seq<StudentCourse>, courses: Table<Course>): (r: seq<StudentDto>)
    ensures |r| == |Filter(users, IsStudent)| <= |users|
    ensures forall i :: 0 <= i < |r| ==>
      exists j :: 0 <= j < |users| && IsStudent(users[j]) && r[i] == StudentView(users[j], studentCourses, courses)
    ensures forall j :: 0 <= j < |users| && IsStudent(users[j]) ==> StudentView(users[j], studentCourses, courses) in r
  {
    var s := Filter(users, IsStudent);
    var r := seq(|s|, i requires 0 <= i < |s| => StudentView(s[i], studentCourses, courses));
    forall j | 0 <= j < |users| && IsStudent(users[j])
      ensures StudentView(users[j], studentCourses, courses) in r
    {
      var k :| 0 <= k < |s| && s[k] == users[j];
      assert r[k] == StudentView(users[j], studentCourses, courses);
    }
    r
  }

  /**
   * `GetStudentByIdAsync`: null for a missing user; otherwise the user with every enrolment and
   * its course's name. An enrolment whose course is not stored dereferences a null `Course`.
   */
  function GetStudentById(users: Table<User>, studentCourses: seq<StudentCourse>, courses: Table<Course>,
                          studentId: Guid): (r: Result<Option<StudentDto>>)
    ensures r == Ok(None) <==> !HasKey(users, studentId)
    ensures r.Err? <==> (HasKey(users, studentId) &&
      exists k :: 0 <= k < |studentCourses| && studentCourses[k].studentId == studentId && !HasKey(courses, studentCourses[k].courseId))
    ensures r.Err? ==> r.error == NullReference
    ensures r.Ok? && r.value.Some? ==>
      var dto := r.value.value;
      var es := EnrollmentsOf(studentCourses, studentId);
      && dto.id == studentId
      && (exists j :: 0 <= j < |users| && users[j].id == studentId && dto.userName == users[j].val.userName && dto.email == users[j].val.email)
      && |dto.enrollments| == |es|
      && forall k :: 0 <= k < |es| ==> (dto.enrollments[k].courseId == es[k].courseId &&
           exists c :: 0 <= c < |courses| && courses[c].id == es[k].courseId && dto.enrollments[k].courseName == courses[c].val.name)
  {
    match Find(users, studentId)
    case None => Ok(None)
    case Some(user) =>
      var es := EnrollmentsOf(studentCourses, studentId);
      if forall k :: 0 <= k < |es| ==> HasKey(courses, es[k].courseId) then
        Ok(Some(StudentView(user, studentCourses, courses)))
      else
        Err(NullReference)
  }

  /** Where every enrolled course is stored, the student found by key is the one the listing shows. */
  lemma ByIdAgreesWithListing(users: Table<User>, studentCourses: seq<StudentCourse>, courses: Table<Course>, studentId: Guid)
    requires HasKey(users, studentId) && IsStudent(Find(users, studentId).value)
    requires forall k :: 0 <= k < |studentCourses| ==> HasKey(courses, studentCourses[k].courseId)
    ensures GetStudentById(users, studentCourses, courses, studentId).Ok?
    ensures GetStudentById(users, studentCourses, courses, studentId).value.Some?
    ensures GetStudentById(users, studentCourses, courses, studentId).value.value in Students(users, studentCourses, courses)
  {
    var user := Find(users, studentId).value;
    var es := EnrollmentsOf(studentCourses, studentId);
    forall k | 0 <= k < |es| ensures HasKey(courses, es[k].courseId) {
      assert es[k] in studentCourses;
    }
    var j :| 0 <= j < |users| && users[j] == user;
  }

  /** `GetCoursesByStudentAsync`'s entry for an enrolment: the course's key, name and description. */
  function CourseOfEnrollment(courses: Table<Course>, e: StudentCourse): CourseDto
    requires HasKey(courses, e.courseId)
  {
    var course := Find(courses, e.courseId).value;
    CourseDto(e.courseId, course.val.name, course.val.description, EmptyGuid, None, None)
  }

  /** `GetCoursesByStudentAsync`: null for a missing user; otherwise one course per enrolment, in order. */
  function GetCoursesByStudent(users: Table<User>, studentCourses: seq<StudentCourse>, courses: Table<Course>,
                               studentId: Guid): (r: Result<Option<seq<CourseDto>>>)
    ensures r == Ok(None) <==> !HasKey(users, studentId)
    ensures r.Err? <==> (HasKey(users, studentId) &&
      exists k :: 0 <= k < |studentCourses| && studentCourses[k].studentId == studentId && !HasKey(courses, studentCourses[k].courseId))
    ensures r.Err? ==> r.error == NullReference
    ensures r.Ok? && r.value.Some? ==>
      var es := EnrollmentsOf(studentCourses, studentId);
      && |r.value.value| == |es|
      && forall k :: 0 <= k < |es| ==> (r.value.value[k].id == es[k].courseId &&
           exists c :: (0 <= c < |courses| && courses[c].id == es[k].courseId &&
             r.value.value[k].name == courses[c].val.name && r.value.value[k].description == courses[c].val.description))
  {
    match Find(users, studentId)
    case None => Ok(None)
    case Some(user) =>
      var es := EnrollmentsOf(studentCourses, studentId);
      if forall k :: 0 <= k < |es| ==> HasKey(courses, es[k].courseId) then
        Ok(Some(seq(|es|, k requires 0 <= k < |es| => CourseOfEnrollment(courses, es[k]))))
      else
        Err(NullReference)
  }

  /** The two views of a student list the same courses, in the same order, with the same names. */
  lemma CoursesAgreeWithEnrollments(users: Table<User>, studentCourses: seq<StudentCourse>, courses: Table<Course>, studentId: Guid)
    ensures GetCoursesByStudent(users, studentCourses, courses, studentId).Ok? <==>
      GetStudentById(users, studentCourses, courses, studentId).Ok?
    ensures GetCoursesByStudent(users, studentCourses, courses, studentId).Ok? ==>
      var cs := GetCoursesByStudent(users, studentCourses, courses, studentId).value;
      var dto := GetStudentById(users, studentCourses, courses, studentId).value;
      && (cs.Some? <==> dto.Some?)
      && (cs.Some? ==> (|cs.value| == |dto.value.enrollments| &&
            forall k :: 0 <= k < |cs.value| ==>
              cs.value[k].id == dto.value.enrollments[k].courseId && cs.value[k].name == dto.value.enrollments[k].courseName))
  {
  }

  // ---------------------------------------------------------------------------------------
  // Enrolment
  // ---------------------------------------------------------------------------------------

  /** The student has an enrolment in the course. */
  predicate Enrolled(studentCourses: seq<StudentCourse>, studentId: Guid, courseId: Guid) {
    exists i :: 0 <= i < |studentCourses| && studentCourses[i] == StudentCourse(studentId, courseId)
  }

  /** No (student, course) pair is enrolled twice. */
  predicate UniqueEnrollments(studentCourses: seq<StudentCourse>) {
    forall i, j :: 0 <= i < j < |studentCourses| ==> studentCourses[i] != studentCourses[j]
  }

  /** Adding a pair keeps enrolments unique exactly when the pair was not enrolled already. */
  lemma EnrollKeepsUnique(studentCourses: seq<StudentCourse>, e: StudentCourse)
    requires UniqueEnrollments(studentCourses)
    ensures UniqueEnrollments(studentCourses + [e]) <==> !Enrolled(studentCourses, e.studentId, e.courseId)
  {
    if Enrolled(studentCourses, e.studentId, e.courseId) {
      var i :| 0 <= i < |studentCourses| && studentCourses[i] == e;
      assert (studentCourses + [e])[i] == (studentCourses + [e])[|studentCourses|];
    }
  }

  /** The filter `c => c.Name == courseName`. */
  function CourseNamed(name: string): Row<Course> -> bool {
    (c: Row<Course>) => c.val.name == name
  }

  /** The filter `sc => sc.StudentId == userId && sc.CourseId == courseId`. */
  function IsEnrollment(studentId: Guid, courseId: Guid): StudentCourse -> bool {
    (e: StudentCourse) => e.studentId == studentId && e.courseId == courseId
  }

  /** Removing the element at `k` takes one copy of it out of the multiset of elements. */
  lemma RemoveAtMultiset(s: seq<StudentCourse>, k: nat)
    requires k < |s|
    ensures multiset(s[..k] + s[k + 1..]) == multiset(s) - multiset{s[k]}
  {
    assert s == s[..k] + [s[k]] + s[k + 1..];
  }

  /** Removing the element at `k` from unique enrolments leaves them unique and without that pair. */
  lemma RemoveAtUnique(s: seq<StudentCourse>, k: nat)
    requires k < |s| && UniqueEnrollments(s)
    ensures UniqueEnrollments(s[..k] + s[k + 1..])
    ensures !Enrolled(s[..k] + s[k + 1..], s[k].studentId, s[k].courseId)
  {
    var r := s[..k] + s[k + 1..];
    forall i | 0 <= i < |r| ensures r[i] == s[if i < k then i else i + 1] && r[i] != s[k] {
    }
  }

  /** Removing the first enrolment of the student in the course, as `Remove(enrollment)` does for the one found. */
  function Unenrolled(studentCourses: seq<StudentCourse>, studentId: Guid, courseId: Guid): (r: seq<StudentCourse>)
    ensures Enrolled(studentCourses, studentId, courseId) ==>
      multiset(r) == multiset(studentCourses) - multiset{StudentCourse(studentId, courseId)}
    ensures !Enrolled(studentCourses, studentId, courseId) ==> r == studentCourses
    ensures UniqueEnrollments(studentCourses) ==> UniqueEnrollments(r) && !Enrolled(r, studentId, courseId)
  {
    var k := FirstIndex(studentCourses, IsEnrollment(studentId, courseId));
    if k < |studentCourses| then
      RemoveAtMultiset(studentCourses, k);
      if UniqueEnrollments(studentCourses) then
        RemoveAtUnique(studentCourses, k);
        studentCourses[..k] + studentCourses[k + 1..]
      else
        studentCourses[..k] + studentCourses[k + 1..]
    else
      studentCourses
  }

  /** Unenrolling undoes an enrolment: the enrolments are as before it. */
  lemma UnenrollUndoesEnroll(studentCourses: seq<StudentCourse>, studentId: Guid, courseId: Guid)
    requires !Enrolled(studentCourses, studentId, courseId)
    ensures Unenrolled(studentCourses + [StudentCourse(studentId, courseId)], studentId, courseId) == studentCourses
  {
    var s := studentCourses + [StudentCourse(studentId, courseId)];
    FirstIndexIsLeast(s, IsEnrollment(studentId, courseId), |studentCourses|);
    assert s[..|studentCourses|] == studentCourses;
  }

  // ---------------------------------------------------------------------------------------
  // The service
  // ---------------------------------------------------------------------------------------

  class StudentService {
    const context: ApplicationDbContext

    constructor (context: ApplicationDbContext)
      ensures this.context == context
    {
      this.context := context;
    }

    /**
     * `GetLessonAsync`: a missing lesson throws `NotFoundException`; a quiz of the lesson that
     * the student has not passed throws `UnauthorizedAccessException`; otherwise the lesson's
     * name, description and course. A lesson without quizzes is always returned.
     */
    method GetLesson(studentId: Guid, lessonId: Guid) returns (r: Result<LessonDto>)
      ensures r.Err? <==> !HasKey(context.lessons, lessonId) || !Unlocked(context.quizzes, context.studentQuizzes, studentId, lessonId)
      ensures r.Err? ==> r.error == if HasKey(context.lessons, lessonId) then Unauthorized else NotFound
      ensures r.Ok? ==> exists i :: (0 <= i < |context.lessons| && context.lessons[i].id == lessonId &&
        r.value == LessonDto(context.lessons[i].val.name, context.lessons[i].val.description, context.lessons[i].val.courseId))
      ensures HasKey(context.lessons, lessonId) && (forall i :: 0 <= i < |context.quizzes| ==> context.quizzes[i].val.lessonId != lessonId)
        ==> r.Ok?
    {
      var lesson := Find(context.lessons, lessonId);
      if lesson.None? {
        return Err(NotFound);
      }
      var quizzes := Filter(context.quizzes, OfLesson(lessonId));
      for i := 0 to |quizzes|
        invariant forall j :: 0 <= j < i ==> DidStudentPassQuiz(context.studentQuizzes, studentId, quizzes[j].id)
      {
        var quizResult := GetStudentQuiz(context.studentQuizzes, studentId, quizzes[i].id);
        if quizResult.None? || !quizResult.value.val.passed {
          assert quizzes[i] in context.quizzes;
          return Err(Unauthorized);
        }
      }
      forall i | 0 <= i < |context.quizzes| && context.quizzes[i].val.lessonId == lessonId
        ensures DidStudentPassQuiz(context.studentQuizzes, studentId, context.quizzes[i].id)
      {
        assert context.quizzes[i] in quizzes;
      }
      r := Ok(LessonDto(lesson.value.val.name, lesson.value.val.description, lesson.value.val.courseId));
    }

    /**
     * `GetAllStudentsAsync`: a page number below 1 becomes 1, a page size below 1 becomes 10,
     * and a page number past the last page becomes the last page. The result is a run of the
     * student listing of at most the page size, non-empty whenever there are students.
     */
    method GetAllStudents(pageNumber: Int32, pageSize: Int32) returns (r: seq<StudentDto>)
      requires |context.users| <= MaxInt32
      ensures ClampedPage(Students(context.users, context.studentCourses, context.courses), pageNumber,
        if pageSize < 1 then 10 else pageSize, r)
    {
      var number: Int32 := pageNumber;
      var size: Int32 := pageSize;
      if number < 1 {
        number := 1;
      }
      if size < 1 {
        size := 10;
      }
      var students := Students(context.users, context.studentCourses, context.courses);
      var totalPages := CeilDiv(|students|, size);
      CeilDivBound(|students|, size);
      if number > totalPages {
        number := totalPages;
      }
      r := Page(students, SkipCount(number, size), size);
      ClampedWindow(students, pageNumber, number, size);
    }

    /**
     * `EnrollCourseAsync`: a missing course, then a missing user, throw `ArgumentException`;
     * an existing enrolment throws `InvalidOperationException`; each changes nothing.
     * Otherwise exactly the one enrolment is added.
     */
    method EnrollCourse(courseId: Guid, userId: Guid) returns (r: Result<()>)
      requires context.Valid()
      modifies context`studentCourses
      ensures context.Valid()
      ensures r.Err? <==> (!HasKey(context.courses, courseId) || !HasKey(context.users, userId) ||
        old(Enrolled(context.studentCourses, userId, courseId)))
      ensures r.Err? ==> context.State() == old(context.State())
      ensures r.Err? ==> r.error == if HasKey(context.courses, courseId) && HasKey(context.users, userId) then InvalidOperation else ArgumentError
      ensures r.Ok? ==> context.State() == old(context.State()).(studentCourses := old(context.studentCourses) + [StudentCourse(userId, courseId)])
      ensures UniqueEnrollments(old(context.studentCourses)) ==> UniqueEnrollments(context.studentCourses)
    {
      var course := Find(context.courses, courseId);
      var student := Find(context.users, userId);
      if course.None? {
        return Err(ArgumentError);
      }
      if student.None? {
        return Err(ArgumentError);
      }
      var existing := exists i :: 0 <= i < |context.studentCourses| && IsEnrollment(userId, courseId)(context.studentCourses[i]);
      if existing {
        return Err(InvalidOperation);
      }
      if UniqueEnrollments(context.studentCourses) {
        EnrollKeepsUnique(context.studentCourses, StudentCourse(userId, courseId));
      }
      ghost var s := context.State();
      ValidWithEnrollments(s, s.studentCourses + [StudentCourse(userId, courseId)]);
      context.studentCourses := context.studentCourses + [StudentCourse(userId, courseId)];
      assert context.State() == s.(studentCourses := context.studentCourses);
      r := Ok(());
    }

    /**
     * `UnenrollCourseAsync`: the first course with the name; no such course, or no enrolment
     * of the user in it, is reported with no change; otherwise that enrolment is removed.
     */
    method UnenrollCourse(userId: Guid, courseName: string) returns (message: string)
      requires context.Valid()
      modifies context`studentCourses
      ensures context.Valid()
      ensures var course := FirstOrDefault(context.courses, CourseNamed(courseName));
        && (course.None? ==> message == "Course not found." && context.State() == old(context.State()))
        && (course.Some? && !old(Enrolled(context.studentCourses, userId, course.value.id)) ==>
              message == "User is not enrolled in this course." && context.State() == old(context.State()))
        && (course.Some? && old(Enrolled(context.studentCourses, userId, course.value.id)) ==>
              && message == "Successfully unenrolled from the course."
              && context.State() == old(context.State()).(
                   studentCourses := Unenrolled(old(context.studentCourses), userId, course.value.id)))
    {
      var course := FirstOrDefault(context.courses, CourseNamed(courseName));
      if course.None? {
        return "Course not found.";
      }
      var enrollment := FirstOrDefault(context.studentCourses, IsEnrollment(userId, course.value.id));
      if enrollment.None? {
        return "User is not enrolled in this course.";
      }
      ghost var s := context.State();
      ValidWithEnrollments(s, Unenrolled(s.studentCourses, userId, course.value.id));
      context.studentCourses := Unenrolled(context.studentCourses, userId, course.value.id);
      assert context.State() == s.(studentCourses := context.studentCourses);
      message := "Successfully unenrolled from the course.";
    }

    /** `DeleteStudentAsync`: a missing user is reported with no change; otherwise that user is removed. */
    method DeleteStudent(studentId: Guid) returns (message: string)
      requires context.Valid()
      modifies context`users
      ensures context.Valid()
      ensures !old(HasKey(context.users, studentId)) ==> message == "Student not found." && context.State() == old(context.State())
      ensures old(HasKey(context.users, studentId)) ==>
        && message == "Student deleted successfully."
        && context.State() == old(context.State()).(users := RemoveKey(old(context.users), studentId))
        && |context.users| == |old(context.users)| - 1
        && !HasKey(context.users, studentId)
    {
      var student := Find(context.users, studentId);
      if student.None? {
        return "Student not found.";
      }
      ghost var s := context.State();
      RemoveKeyed(s.users, s.nextId, studentId, studentId + 1);
      RemoveKeyCount(s.users, s.nextId, studentId);
      ValidWithUsers(s, RemoveKey(s.users, studentId));
      context.users := RemoveKey(context.users, studentId);
      assert context.State() == s.(users := context.users);
      message := "Student deleted successfully.";
    }
  }
}
