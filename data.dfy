/**
 * The application's database context: one table per entity set, and the key generator
 * that stands for `Guid.NewGuid()` and for the keys EF Core generates on insert.
 */
module Data {
  import opened Tables
  import opened Entities

  /** The contents of every table at one moment, so that "nothing else changed" is one equation. */
  datatype DbState = DbState(
    quizzes: Table<Quiz>,
    studentQuizzes: Table<StudentQuiz>,
    studentAnswers: Table<StudentAnswer>,
    lessons: Table<Lesson>,
    courses: Table<Course>,
    studentCourses: seq<StudentCourse>,
    users: Table<User>,
    topics: Table<Topic>,
    subCategories: Table<SubCategory>,
    categories: Table<Category>,
    nextId: Guid)

  /** Primary keys are distinct in every table and were all issued by a generator now at `s.nextId`. */
  ghost predicate ValidState(s: DbState) {
    && 0 < s.nextId
    && Keyed(s.quizzes, s.nextId)
    && (forall i :: 0 <= i < |s.quizzes| ==> KeysBelow(s.quizzes[i].val, s.nextId))
    && Keyed(s.studentQuizzes, s.nextId)
    && Keyed(s.studentAnswers, s.nextId)
    && Keyed(s.lessons, s.nextId)
    && Keyed(s.courses, s.nextId)
    && Keyed(s.users, s.nextId)
    && Keyed(s.topics, s.nextId)
    && Keyed(s.subCategories, s.nextId)
    && Keyed(s.categories, s.nextId)
  }

  /** Drawing keys keeps the invariant: every key in use stays below the generator. */
  lemma RaiseNext(s: DbState, next: Guid)
    requires ValidState(s) && s.nextId <= next
    ensures ValidState(s.(nextId := next))
  {
    KeyedRaise(s.quizzes, s.nextId, next);
    KeyedRaise(s.studentQuizzes, s.nextId, next);
    KeyedRaise(s.studentAnswers, s.nextId, next);
    KeyedRaise(s.lessons, s.nextId, next);
    KeyedRaise(s.courses, s.nextId, next);
    KeyedRaise(s.users, s.nextId, next);
    KeyedRaise(s.topics, s.nextId, next);
    KeyedRaise(s.subCategories, s.nextId, next);
    KeyedRaise(s.categories, s.nextId, next);
  }

  /** Replacing the users by a keyed table keeps the invariant. */
  lemma ValidWithUsers(s: DbState, users: Table<User>)
    requires ValidState(s) && Keyed(users, s.nextId)
    ensures ValidState(s.(users := users))
  {
  }

  /** The enrolments carry no keys, so replacing them keeps the invariant. */
  lemma ValidWithEnrollments(s: DbState, studentCourses: seq<StudentCourse>)
    requires ValidState(s)
    ensures ValidState(s.(studentCourses := studentCourses))
  {
  }

  /** Replacing the quizzes by a keyed table whose nested keys are all issued keeps the invariant. */
  lemma ValidWithQuizzes(s: DbState, quizzes: Table<Quiz>)
    requires ValidState(s) && Keyed(quizzes, s.nextId)
    requires forall i :: 0 <= i < |quizzes| ==> KeysBelow(quizzes[i].val, s.nextId)
    ensures ValidState(s.(quizzes := quizzes))
  {
  }

  /** Replacing the attempts by a keyed table keeps the invariant. */
  lemma ValidWithAttempts(s: DbState, studentQuizzes: Table<StudentQuiz>)
    requires ValidState(s) && Keyed(studentQuizzes, s.nextId)
    ensures ValidState(s.(studentQuizzes := studentQuizzes))
  {
  }

  /** Replacing the recorded answers by a keyed table keeps the invariant. */
  lemma ValidWithAnswers(s: DbState, studentAnswers: Table<StudentAnswer>)
    requires ValidState(s) && Keyed(studentAnswers, s.nextId)
    ensures ValidState(s.(studentAnswers := studentAnswers))
  {
  }

  /** Replacing the lessons by a keyed table keeps the invariant. */
  lemma ValidWithLessons(s: DbState, lessons: Table<Lesson>)
    requires ValidState(s) && Keyed(lessons, s.nextId)
    ensures ValidState(s.(lessons := lessons))
  {
  }

  /** Replacing the courses by a keyed table keeps the invariant. */
  lemma ValidWithCourses(s: DbState, courses: Table<Course>)
    requires ValidState(s) && Keyed(courses, s.nextId)
    ensures ValidState(s.(courses := courses))
  {
  }

  /** Replacing the topics by a keyed table keeps the invariant. */
  lemma ValidWithTopics(s: DbState, topics: Table<Topic>)
    requires ValidState(s) && Keyed(topics, s.nextId)
    ensures ValidState(s.(topics := topics))
  {
  }

  /** Replacing the subcategories by a keyed table keeps the invariant. */
  lemma ValidWithSubCategories(s: DbState, subCategories: Table<SubCategory>)
    requires ValidState(s) && Keyed(subCategories, s.nextId)
    ensures ValidState(s.(subCategories := subCategories))
  {
  }

  class ApplicationDbContext {
    var quizzes: Table<Quiz>
    var studentQuizzes: Table<StudentQuiz>
    var studentAnswers: Table<StudentAnswer>
    var lessons: Table<Lesson>
    var courses: Table<Course>
    var studentCourses: seq<StudentCourse>
    var users: Table<User>
    var topics: Table<Topic>
    var subCategories: Table<SubCategory>
    var categories: Table<Category>
    /** The next key the generator hands out; every key in use is below it. */
    var nextId: Guid

    ghost function State(): DbState
      reads this
    {
      DbState(quizzes, studentQuizzes, studentAnswers, lessons, courses, studentCourses,
              users, topics, subCategories, categories, nextId)
    }

    ghost predicate Valid()
      reads this
    {
      ValidState(State())
    }

    /** An empty database. */
    constructor ()
      ensures Valid()
      ensures State() == DbState([], [], [], [], [], [], [], [], [], [], 1)
    {
      quizzes, studentQuizzes, studentAnswers := [], [], [];
      lessons, courses, studentCourses := [], [], [];
      users, topics, subCategories, categories := [], [], [], [];
      nextId := 1;
    }

    /** A key never used before: non-empty and distinct from every key in every table. */
    method NewGuid() returns (id: Guid)
      requires Valid()
      modifies this`nextId
      ensures Valid()
      ensures id == old(nextId) && nextId == id + 1
    {
      RaiseNext(State(), nextId + 1);
      id := nextId;
      nextId := nextId + 1;
    }
  }
}
