/**
 * The persisted records. Each table row is a `Row` whose `id` is the record's primary key,
 * so the records below hold every other column. Questions and answers are owned by their
 * quiz and carry their own keys and foreign keys.
 */
module Entities {
  import opened Tables

  datatype Answer = Answer(id: Guid, text: string, isCorrect: bool, questionId: Guid)

  datatype Question = Question(id: Guid, text: string, quizId: Guid, answers: seq<Answer>, correctAnswerId: Guid)

  datatype Quiz = Quiz(title: string, description: string, lessonId: Guid, questions: seq<Question>)

  /** One attempt of a student at a quiz. */
  datatype StudentQuiz = StudentQuiz(studentId: Guid, quizId: Guid, dateTaken: int, score: int, passed: bool)

  /** One answer recorded for an attempt. */
  datatype StudentAnswer = StudentAnswer(studentQuizId: Guid, questionId: Guid, answerId: Guid)

  datatype Lesson = Lesson(name: string, description: string, courseId: Guid)

  datatype Course = Course(name: string, description: string, instructorId: Guid, topicId: Guid)

  /** An enrollment; the table has no surrogate key. */
  datatype StudentCourse = StudentCourse(studentId: Guid, courseId: Guid)

  /** A user together with the names of the roles the user holds. */
  datatype User = User(userName: string, email: string, roles: set<string>)

  datatype Topic = Topic(name: string, subCategoryId: Guid)

  datatype SubCategory = SubCategory(name: string, categoryId: Guid)

  datatype Category = Category(name: string)

  /** `lesson.Quizzes`: the quizzes whose `LessonId` is the lesson's key. */
  function OfLesson(lessonId: Guid): Row<Quiz> -> bool {
    (q: Row<Quiz>) => q.val.lessonId == lessonId
  }

  /** `course.Lessons`: the lessons whose `CourseId` is the course's key. */
  function InCourse(courseId: Guid): Row<Lesson> -> bool {
    (l: Row<Lesson>) => l.val.courseId == courseId
  }

  /** The filter `c => c.InstructorId == instructorId && c.Id == courseId`. */
  function OwnedBy(instructorId: Guid, courseId: Guid): Row<Course> -> bool {
    (c: Row<Course>) => c.val.instructorId == instructorId && c.id == courseId
  }

  /** The course exists and belongs to the instructor. */
  predicate Owns(courses: Table<Course>, instructorId: Guid, courseId: Guid) {
    exists i :: 0 <= i < |courses| && courses[i].id == courseId && courses[i].val.instructorId == instructorId
  }

  /** With unique keys, the course's row `Find` returns decides ownership. */
  lemma OwnsFind(courses: Table<Course>, next: Guid, instructorId: Guid, courseId: Guid)
    requires Keyed(courses, next)
    ensures Owns(courses, instructorId, courseId) <==>
      (HasKey(courses, courseId) && Find(courses, courseId).value.val.instructorId == instructorId)
  {
    if Owns(courses, instructorId, courseId) {
      var i :| 0 <= i < |courses| && courses[i].id == courseId && courses[i].val.instructorId == instructorId;
      KeyedFind(courses, next, courses[i]);
    }
  }

  function AnswerKeys(answers: seq<Answer>): (r: seq<Guid>)
    ensures |r| == |answers|
    ensures forall j :: 0 <= j < |r| ==> r[j] == answers[j].id
  {
    seq(|answers|, j requires 0 <= j < |answers| => answers[j].id)
  }

  /** The keys of a quiz's questions and answers: each question's key followed by its answers' keys. */
  function QuestionKeys(questions: seq<Question>): seq<Guid> {
    if |questions| == 0 then []
    else [questions[0].id] + AnswerKeys(questions[0].answers) + QuestionKeys(questions[1..])
  }

  /** Every question and answer key of the quiz was issued by a generator now at `next`. */
  ghost predicate KeysBelow(quiz: Quiz, next: Guid) {
    forall k :: k in QuestionKeys(quiz.questions) ==> 0 < k < next
  }
}
