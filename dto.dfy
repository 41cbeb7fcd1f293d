/** The request and response shapes the services accept and return. */
module Dto {
  import opened Wrappers
  import opened Tables

  // Quiz authoring and submission requests.
  datatype AnswerRequest = AnswerRequest(text: string, isCorrect: bool)
  datatype QuestionRequest = QuestionRequest(text: string, answers: seq<AnswerRequest>)
  datatype CreateQuizRequest = CreateQuizRequest(title: string, description: string, lessonId: Guid, questions: seq<QuestionRequest>)
  datatype SubmittedAnswer = SubmittedAnswer(questionId: Guid, answerId: Guid)

  // The student's view of a quiz: keys and texts only.
  datatype AnswerDto = AnswerDto(id: Guid, text: string)
  datatype QuestionDto = QuestionDto(id: Guid, text: string, answers: seq<AnswerDto>)
  datatype QuizDto = QuizDto(id: Guid, title: string, description: string, questions: seq<QuestionDto>)

  /** The fields `GetQuizResultAsync` fills in; the others keep their defaults. */
  datatype QuizResultDto = QuizResultDto(score: int, passed: bool, dateTaken: int)

  datatype LessonDto = LessonDto(name: string, description: string, courseId: Guid)

  datatype EnrollmentDto = EnrollmentDto(courseId: Guid, courseName: string)
  datatype StudentDto = StudentDto(id: Guid, userName: string, email: string, enrollments: seq<EnrollmentDto>)

  /**
   * A course as listed. `instructorName` and `topic` come from navigation properties; `None`
   * stands for a null name (the service did not set it, or the referenced row is missing).
   */
  datatype CourseDto = CourseDto(
    id: Guid, name: string, description: string, instructorId: Guid,
    instructorName: Option<string>, topic: Option<string>)

  datatype CourseModel = CourseModel(name: string, description: string, topicId: Guid)

  // The anonymous shape `GetAllLessonsAsync` projects each lesson to.
  datatype QuizSummary = QuizSummary(id: Guid, description: string)
  datatype LessonListing = LessonListing(
    id: Guid, name: string, description: string, courseId: Guid, courseName: string, quizzes: seq<QuizSummary>)
}
