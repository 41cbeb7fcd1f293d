# UdemyClone service layer in Dafny

This project models the service layer of UdemyClone, an ASP.NET Core / EF Core course
platform, and proves properties of the model. The model covers:

- **The quiz engine** (`QuizService` with `QuizRepository`).
  - Authoring checks that every question has exactly one correct answer.
  - A quiz is written in two phases. The quiz graph is stored first, with EF-generated keys.
    Then each question's `CorrectAnswerId` is back-filled.
  - Submission scores the answers, skips pairs naming unknown questions and applies the 70 % pass rule.
  - Result lookup.
- **Access and enrolment rules** (`StudentService`, `CourseService`, `InstructorService`):
  - lessons are gated on passed quizzes;
  - enrolments are never duplicated;
  - instructor ownership is checked on course and lesson operations;
  - `GetCourseByIdAsync` decides access by role;
  - paging works in C# `int` arithmetic, including page-number clamping.
- **The catalogue tables** (`TopicService`, `SubCategoryService`): validated create, update and
  delete, paging, and case-insensitive substring search.

## How the database is represented

- **Tables.** The database is the class `Data.ApplicationDbContext`. It has one field per entity
  set, each a `Table<T> = seq<Row<T>>`, where a row is a key and a record. Table order stands for
  the order in which the database enumerates rows. `FirstOrDefault`, `Skip` and `Take` depend on that order.
- **Keys.** `Guid.NewGuid()` and the keys EF Core assigns on insert come from a key generator,
  `nextId`. `Guid.Empty` is 0.
  - `Valid()` says the keys of each table are distinct and that every key in use, nested question
    and answer keys included, is positive and below the generator. So every key drawn from
    the generator is proved fresh, not assumed. Distinctness of nested keys from each other is
    not part of `Valid()`; the answer keys of one stored question are proved distinct by `KeyQuestions`.
- **Results.** An operation that can throw returns a `Result`, whose error names the exception class.
- **State-changing operations.** Each is a method with a `modifies` frame. Its contract is:
  - an error changes nothing (`context.State() == old(context.State())`);
  - success is exactly one table change, stated as a whole new state;
  - the invariants it keeps (`Valid()`, unique enrolments, unique lesson names per course).
- **Queries.** Non-mutating queries and projections are functions. The lemmas beside them
  connect them: round trips, the query after a write, and completeness of paging.

Modules follow the source files:

- `QuizService`, `QuizRepository`, `StudentService`, `CourseService`, `InstructorService`,
  `TopicService` and `SubCategoryService` model the services.
- `Entities`, `Dto` and `Data` hold the entity records, the DTOs and the context.
- `Tables`, `Paging`, `Text` and `Wrappers` model LINQ, C# `int` paging arithmetic,
  `string` predicates and `Result`/`Option`.

The inputs that come from outside are parameters:

- `DateTime.UtcNow` in `SubmitQuizAsync` is the parameter `now`;
- a null `LessonDto` is `Option.None`;
- a caller's role is a `string`.

## Model

| member | source | states |
|---|---|---|
| QuizService.DraftAnswers | UdemyClone/Services/QuizService.cs:81-86 | one unkeyed answer per requested answer, same text and flag, in order |
| QuizService.CorrectCountRule | UdemyClone/Services/QuizService.cs:88-93 | the authoring check "exactly one answer marked correct" (`Where(IsCorrect).Count == 1`) holds iff there is one index with `IsCorrect` and no other |
| QuizService.QuizService.CreateQuizAsync | UdemyClone/Services/QuizService.cs:73-129 | a question without exactly one correct answer gives ArgumentException and changes nothing; otherwise exactly one quiz is appended under the next key, and no other table changes. It matches the request: title, description, lesson, question and answer order, texts and flags; every answer points to its question, and each question's CorrectAnswerId is the key of its only correct answer |
| QuizService.DraftQuestions | UdemyClone/Services/QuizService.cs:76-104 | the first loop: fails with ArgumentException iff some question lacks exactly one correct answer; otherwise one draft question per request question, in order |
| QuizService.BackfillQuestions | UdemyClone/Services/QuizService.cs:117-125 | the second loop: each stored question gets the key of its first correct answer as CorrectAnswerId and is otherwise unchanged |
| QuizService.QuizService.BackfillStored | UdemyClone/Services/QuizService.cs:116-128 | the back-fill and `UpdateAsync`: the stored quiz alone is replaced by its back-filled version, with keys unchanged |
| QuizService.BackfillAuthored | UdemyClone/Services/QuizService.cs:88-125 | for a question that passed the check, the stored and back-filled question has the request's text and answers, and an answer is flagged correct iff its key is the CorrectAnswerId |
| QuizService.BackfillQuiz | UdemyClone/Services/QuizService.cs:106-128 | the stored and back-filled quiz is `Authored` from the request |
| QuizService.BackfillKeys | UdemyClone/Services/QuizService.cs:117-125 | back-filling changes no question or answer key, so the update keeps every key issued |
| QuizService.FindQuestion | UdemyClone/Services/QuizService.cs:154 | `quiz.Questions.FirstOrDefault(q => q.Id == id)`: null iff no question has the key, otherwise a question of the quiz with that key |
| QuizService.Passes | UdemyClone/Services/QuizService.cs:175 | the pass rule: passed iff the score reaches ceil(7·n/10), that is 10·score ≥ 7·n; a quiz without questions is always passed |
| QuizService.QuizService.SubmitQuizAsync | UdemyClone/Services/QuizService.cs:132-180 | an unknown quiz gives NotFound with no attempt and no answers. Otherwise it adds exactly one attempt: for this student and quiz, at `now`, with the score and the pass rule. It adds one recorded answer per submitted pair naming a question of the quiz, in order and under fresh keys. It returns the fixed message and changes nothing else |
| QuizService.QuizService.StartAttempt | UdemyClone/Services/QuizService.cs:138-148 | the attempt is stored under a fresh key with score 0 and not passed; nothing else changes |
| QuizService.QuizService.RecordAnswers | UdemyClone/Services/QuizService.cs:150-172 | the scoring loop returns `Score(questions, answers)` and appends exactly `Accepted(questions, answers)` as recorded answers, in order and under consecutive fresh keys |
| QuizService.QuizService.RecordAnswer | UdemyClone/Services/QuizService.cs:160-168 | one recorded answer for the attempt is appended under a fresh key |
| QuizService.QuizService.FinishAttempt | UdemyClone/Services/QuizService.cs:174-177 | the new attempt alone gets its score and pass flag |
| QuizService.ScoreAppend | UdemyClone/Services/QuizService.cs:150-172 | score and accepted pairs are additive over concatenated submissions |
| QuizService.ScoreBounds | UdemyClone/Services/QuizService.cs:150-172 | 0 ≤ score ≤ number of accepted pairs ≤ number of submitted pairs |
| QuizService.ScoreOfAccepted | UdemyClone/Services/QuizService.cs:152-157 | skipped pairs never score: scoring only the accepted pairs gives the same score, and every accepted pair names a question of the quiz |
| QuizService.DuplicateCountsTwice | UdemyClone/Services/QuizService.cs:152-172 | a pair submitted twice is counted twice |
| QuizService.ScoreCanExceedQuestionCount | UdemyClone/Services/QuizService.cs:152-172 | a one-question quiz given the same correct pair twice scores 2, more than its question count |
| QuizService.AcceptedIds | UdemyClone/Services/QuizService.cs:152-157 | the accepted pairs name only questions that are both in the quiz and in the submission |
| QuizService.AcceptedDistinct | UdemyClone/Services/QuizService.cs:152-157 | a submission naming each question at most once stays so after unknown pairs are skipped |
| QuizService.DistinctIdsCount | UdemyClone/Services/QuizService.cs:152-172 | a submission naming distinct questions names as many questions as it has pairs |
| QuizService.QuestionIdsBound | UdemyClone/Services/QuizService.cs:154 | a quiz has at most as many question keys as questions |
| QuizService.DistinctScoreBound | UdemyClone/Services/QuizService.cs:150-174 | when no question is answered twice, the score is at most the question count |
| QuizService.PrefixSnoc | UdemyClone/Services/QuizService.cs:152-172 | one loop step: the next pair is accepted iff its question is known, and scores iff it matches the CorrectAnswerId |
| QuizService.RecordedSnoc | UdemyClone/Services/QuizService.cs:160-168 | one more recorded answer extends the record of the accepted pairs by that pair |
| QuizService.ProgressSnoc | UdemyClone/Services/QuizService.cs:152-172 | the loop's invariant, "answers recorded so far, nothing else changed", survives one more recorded answer |
| QuizService.HasStudentTakenQuiz | UdemyClone/Services/QuizService.cs:22-26 | `HasStudentTakenQuizAsync` is true iff some stored attempt is by this student at this quiz |
| QuizService.TakenIffFound | UdemyClone/Services/QuizService.cs:22-26 | `HasStudentTakenQuizAsync` is true iff the repository's `GetStudentQuizAsync` finds an attempt |
| QuizService.DidStudentPassQuiz | UdemyClone/Services/QuizService.cs:28-34 | false when the student has no attempt at the quiz; true only when an attempt by the student at the quiz is passed |
| QuizService.GetQuizIdByLessonId | UdemyClone/Services/QuizService.cs:36-47 | throws iff no quiz belongs to the lesson; otherwise the key of the first quiz of the lesson |
| QuizService.GetQuizById | UdemyClone/Services/QuizService.cs:49-71 | throws ArgumentNullException iff the quiz is missing; otherwise a view with the quiz's key, title, description, questions in order with key and text, and answers in order with key and text |
| QuizService.ViewHidesAnswerKey | UdemyClone/Services/QuizService.cs:55-70 | two quizzes that differ only in correct-answer flags and CorrectAnswerIds have the same view, so the view reveals neither |
| QuizService.GetQuizResult | UdemyClone/Services/QuizService.cs:183-195 | throws ArgumentNullException iff the student has no attempt at the quiz; otherwise the score, pass flag and date of an attempt by that student at that quiz |
| QuizService.PassedAgreesWithResult | UdemyClone/Services/QuizService.cs:28-34 | `DidStudentPassQuizAsync` is true iff `GetQuizResultAsync` succeeds with a pass |
| QuizService.ResultAfterAttempt | UdemyClone/Services/QuizService.cs:183-195 | after an attempt is appended, the result is the earlier attempt's if there was one (first match wins), otherwise the new attempt's |
| QuizService.QuizService.DeleteQuizAsync | UdemyClone/Services/QuizService.cs:197-200 | delegates to the repository: a missing quiz gives KeyNotFound with no change, otherwise exactly that quiz is removed |
| QuizService.QuizService.constructor | UdemyClone/Services/QuizService.cs:16-20 | the service holds the given context and repository |
| QuizRepository.Range | UdemyClone/Services/QuizRepository.cs:17-22 | the consecutive keys handed out for an added graph |
| QuizRepository.KeyAnswers | UdemyClone/Services/QuizRepository.cs:17-22 | stored answers keep order and contents, get consecutive fresh keys and point to their question |
| QuizRepository.KeyQuestions | UdemyClone/Services/QuizRepository.cs:17-22 | every stored question keeps its text, flags and answers, points to the quiz, has distinct answer keys, and the keys of the graph are one consecutive range |
| QuizRepository.QuizRepository.AddAsync | UdemyClone/Services/QuizRepository.cs:17-22 | the quiz graph is appended under fresh keys, the generator moves past all of them, nothing else changes, and `GetByIdAsync` then returns exactly the stored quiz |
| QuizRepository.QuizRepository.UpdateAsync | UdemyClone/Services/QuizRepository.cs:24-29 | an existing quiz is replaced and no other quiz changes; a missing key is a concurrency failure with no change |
| QuizRepository.GetById | UdemyClone/Services/QuizRepository.cs:31-38 | null iff no quiz has the key; otherwise a stored quiz with that key |
| QuizRepository.QuizRepository.AddStudentQuizAsync | UdemyClone/Services/QuizRepository.cs:40-45 | exactly one attempt is appended and nothing else changes; a key already in use fails with no change |
| QuizRepository.QuizRepository.AddStudentAnswerAsync | UdemyClone/Services/QuizRepository.cs:47-52 | exactly one recorded answer is appended and nothing else changes; a key already in use fails with no change |
| QuizRepository.QuizRepository.UpdateStudentQuizAsync | UdemyClone/Services/QuizRepository.cs:54-59 | the attempt with the same key is replaced and no other attempt changes; a missing key is a concurrency failure with no change |
| QuizRepository.GetStudentQuiz | UdemyClone/Services/QuizRepository.cs:61-66 | null iff no attempt matches both student and quiz; otherwise a stored attempt matching both |
| QuizRepository.QuizRepository.DeleteQuizAsync | UdemyClone/Services/QuizRepository.cs:68-78 | a missing key gives KeyNotFound with no change; otherwise exactly that quiz is removed, the table shrinks by one, and every other key is found as before |
| QuizRepository.QuizRepository.constructor | UdemyClone/Services/QuizRepository.cs:17-78 | the repository works on the given context |
| QuizRepository.StoredKeysBelow | UdemyClone/Services/QuizRepository.cs:17-22 | every key of a stored graph is below the advanced generator |
| QuizRepository.AddQuizValid | UdemyClone/Services/QuizRepository.cs:17-22 | appending a freshly keyed quiz keeps every key distinct and issued, and the quiz is then found |
| QuizRepository.ReplaceQuizValid | UdemyClone/Services/QuizRepository.cs:24-29 | replacing a quiz by one with issued keys keeps the key invariant |
| QuizRepository.RemoveQuizValid | UdemyClone/Services/QuizRepository.cs:68-78 | removing a quiz keeps the key invariant |
| StudentService.UnlockedAfterAttempt | UdemyClone/Services/StudentService.cs:33-47 | after one more attempt, each quiz of the lesson counts as passed by its first attempt (or by the new one if it is the first); an unlocked lesson stays unlocked |
| StudentService.StudentService.GetLesson | UdemyClone/Services/StudentService.cs:21-55 | a missing lesson gives NotFound. Some quiz of the lesson not passed by its first attempt, or not taken at all, gives Unauthorized. Otherwise the lesson's name, description and course are returned, and a lesson without quizzes is always returned |
| StudentService.CourseNameOrNA | UdemyClone/Services/StudentService.cs:88 | the enrolled course's name, or "N/A" when the course is missing |
| StudentService.Students | UdemyClone/Services/StudentService.cs:63-92 | the student listing: exactly one entry per user with the Student role (as many entries as `Where(IsStudent)` keeps), every entry is such a user, and every such user is listed |
| StudentService.StudentService.GetAllStudents | UdemyClone/Services/StudentService.cs:58-96 | page number below 1 becomes 1, size below 1 becomes 10, a page past the last page becomes the last page. The result is a run of the listing of at most the page size, non-empty when there are students. A page in range gets exactly its run from (page−1)·size |
| StudentService.StudentService.EnrollCourse | UdemyClone/Services/StudentService.cs:99-131 | missing course, then missing user, each give ArgumentException with no change; an existing enrolment gives InvalidOperationException with no change. Otherwise exactly the one enrolment is appended, and no duplicate pair can arise |
| StudentService.EnrollKeepsUnique | UdemyClone/Services/StudentService.cs:115-129 | appending an enrolment keeps enrolments duplicate-free iff the pair was not enrolled |
| StudentService.Unenrolled | UdemyClone/Services/StudentService.cs:141-148 | removing the first matching enrolment: one copy of the pair fewer and no other change, nothing when not enrolled, and duplicate-free tables stay so without the pair |
| StudentService.UnenrollUndoesEnroll | UdemyClone/Services/StudentService.cs:99-151 | unenrolling right after an enrolment gives back the enrolments as they were |
| StudentService.StudentService.UnenrollCourse | UdemyClone/Services/StudentService.cs:133-151 | an unknown course name and a missing enrolment return their messages with no change; otherwise exactly that enrolment goes and the success message is returned |
| StudentService.GetStudentById | UdemyClone/Services/StudentService.cs:153-174 | null iff the user is missing; a NullReferenceException iff an enrolment of the user names a missing course; otherwise the user's key, name and email and one entry per enrolment, in order, with the course's key and name |
| StudentService.ByIdAgreesWithListing | UdemyClone/Services/StudentService.cs:58-174 | for a student whose enrolled courses exist, the single lookup returns the entry the listing shows |
| StudentService.GetCoursesByStudent | UdemyClone/Services/StudentService.cs:189-205 | null iff the user is missing; a NullReferenceException iff an enrolment names a missing course; otherwise one course per enrolment, in order, with its key, name and description |
| StudentService.CoursesAgreeWithEnrollments | UdemyClone/Services/StudentService.cs:153-205 | the two lookups fail, return null and succeed together; on success each course matches the enrolment entry at the same position |
| StudentService.StudentService.DeleteStudent | UdemyClone/Services/StudentService.cs:176-187 | a missing user returns "Student not found." with no change; otherwise exactly that user is removed and the table shrinks by one |
| StudentService.StudentService.constructor | UdemyClone/Services/StudentService.cs:15-19 | the service works on the given context |
| CourseService.AddLessonKeepsUnique | UdemyClone/Services/CourseService.cs:36-50 | appending a lesson keeps lesson names unique per course iff its course has no lesson of that name |
| CourseService.CourseService.UploadLesson | UdemyClone/Services/CourseService.cs:18-54 | in order: a null model gives ArgumentNullException; an empty or unknown course gives ArgumentException; another instructor's course gives UnauthorizedAccessException; an existing lesson name gives InvalidOperationException. Each failure adds nothing. Otherwise exactly one lesson with the model's name, description and course is appended under a fresh key, and names stay unique per course |
| CourseService.CourseService.StoreLesson | UdemyClone/Services/CourseService.cs:43-51 | the lesson is appended under a fresh key and nothing else changes |
| CourseService.CourseService.constructor | UdemyClone/Services/CourseService.cs:18-115 | the service works on the given context |
| CourseService.Summaries | UdemyClone/Services/CourseService.cs:88-92 | one (key, description) pair per quiz, in order |
| CourseService.Listings | UdemyClone/Services/CourseService.cs:86-93 | one projected entry per lesson, in order, which keeps ordering by name |
| CourseService.CourseLessons | UdemyClone/Services/CourseService.cs:79-83 | the course's lessons ordered by name: sorted, and a permutation of the lessons with that course |
| CourseService.PermutedFilterSound | UdemyClone/Services/CourseService.cs:79-83 | a reordering of the course's lessons holds only lessons of the course |
| CourseService.PermutedFilterComplete | UdemyClone/Services/CourseService.cs:79-83 | a reordering of the course's lessons holds every lesson of the course |
| CourseService.PageSorted | UdemyClone/Services/CourseService.cs:83-85 | a page of a name-ordered list is name-ordered |
| CourseService.GetAllLessons | UdemyClone/Services/CourseService.cs:55-100 | an empty instructor or course gives ArgumentNullException, then a page number or size ≤ 0 gives ArgumentOutOfRangeException, then a course not owned by the instructor gives InvalidOperationException. Otherwise at most page-size entries, each a lesson of that course with its course name and quizzes, ordered by name. Without overflow the page is exactly the lessons of the name-ordered course listing from position (page−1)·size: min(size, remaining) of them, or none past the end |
| CourseService.ListingsPage | UdemyClone/Services/CourseService.cs:84-93 | projecting `Skip(skip).Take(size)` of the ordered lessons lists exactly the lessons from position `skip`, size of them or fewer at the end |
| CourseService.LessonsPage | UdemyClone/Services/CourseService.cs:79-93 | any page of a course's ordered listing holds at most page-size entries, each a lesson of that course, in name order |
| CourseService.LessonsPageWindow | UdemyClone/Services/CourseService.cs:79-93 | when (page−1)·size fits in an `int`, the page is exactly the window of the ordered listing from that position |
| CourseService.PermutedFilter | UdemyClone/Services/CourseService.cs:79-83 | a reordering of a filtered sequence is no longer than the sequence and holds only its elements that pass the filter |
| CourseService.EveryLessonListed | UdemyClone/Services/CourseService.cs:79-99 | paging loses no lesson: each lesson of an owned course is on some page |
| CourseService.GetLessonById | UdemyClone/Services/CourseService.cs:101-115 | a missing lesson gives ArgumentNullException; a lesson whose course is missing gives NullReferenceException; another instructor's course gives UnauthorizedAccessException; otherwise the stored lesson with that key |
| CourseService.UploadedLessonReadable | UdemyClone/Services/CourseService.cs:43-115 | right after an upload, the uploading instructor reads back exactly the stored lesson |
| InstructorService.TopicName | UdemyClone/Services/InstructorService.cs:99 | `c.Topic.Name` in a projection: the topic's name, or null when the topic is missing |
| InstructorService.InstructorName | UdemyClone/Services/InstructorService.cs:119 | `c.Instructor.UserName` in a projection: the user's name, or null when the user is missing |
| InstructorService.InstructorService.CreateCourse | UdemyClone/Services/InstructorService.cs:19-43 | an empty instructor gives ArgumentException, then an unknown topic KeyNotFoundException, each with no change; otherwise exactly the course is appended under a fresh key |
| InstructorService.InstructorService.StoreCourse | UdemyClone/Services/InstructorService.cs:32-36 | the course is appended under a fresh key and nothing else changes |
| InstructorService.InstructorService.UpdateCourse | UdemyClone/Services/InstructorService.cs:45-62 | a course not matching both key and instructor gives ArgumentNullException with no change; otherwise that course gets the new name, description and topic, keeps its instructor, and no other course changes |
| InstructorService.TopicViews | UdemyClone/Services/InstructorService.cs:93-100 | one projected entry per course, in order |
| InstructorService.GetCoursesByInstructor | UdemyClone/Services/InstructorService.cs:89-102 | exactly the instructor's courses: every entry is one of them with its topic name, and each of them is listed |
| InstructorService.CoursesByInstructorCount | UdemyClone/Services/InstructorService.cs:89-102 | one entry per course of the instructor |
| InstructorService.CourseViews | UdemyClone/Services/InstructorService.cs:112-120 | one projected entry per course, in order, with instructor and topic names |
| InstructorService.GetAllCourses | UdemyClone/Services/InstructorService.cs:104-124 | total pages is the least count of pages that holds every course; the page is a run of at most page-size entries. Without overflow it is the run from (page−1)·size, of length min(size, remaining) when that position is inside the table, and non-empty iff the page number is at most the page count. A page number below 1 (unguarded in the source) skips a negative count and so returns the first page |
| InstructorService.EveryCourseListed | UdemyClone/Services/InstructorService.cs:104-124 | paging loses no course: each is on some page |
| InstructorService.InstructorService.DeleteCourse | UdemyClone/Services/InstructorService.cs:126-138 | false with no change iff the course is missing or not the instructor's; otherwise true, and exactly that course is removed |
| InstructorService.EnrollInCourse | UdemyClone/Services/InstructorService.cs:140-149 | false for a missing course; otherwise true iff the course has another instructor |
| InstructorService.EnrollInOthersCourse | UdemyClone/Services/InstructorService.cs:140-149 | true iff the course exists and is not owned by the instructor |
| InstructorService.RolesDisjoint | UdemyClone/Services/InstructorService.cs:168-183 | no role is both "Instructor" and "Admin" ignoring case, so the branches never overlap |
| InstructorService.GetCourseById | UdemyClone/Services/InstructorService.cs:151-194 | a null or empty role gives ArgumentNullException, then a missing course KeyNotFoundException. The role is then checked, ignoring case: "Instructor" must own the course, "Admin" always passes, and any other role gives UnauthorizedAccessException. A missing instructor or topic then gives NullReferenceException. Otherwise the course's view with both names |
| InstructorService.InstructorSeesOnlyOwnCourses | UdemyClone/Services/InstructorService.cs:168-175 | a successful lookup under the Instructor role means the caller owns the course |
| InstructorService.InstructorService.constructor | UdemyClone/Services/InstructorService.cs:19-194 | the service works on the given context |
| TopicService.TopicService.CreateTopic | UdemyClone/Services/TopicService.cs:17-36 | a blank name, then an unknown subcategory, give ArgumentException with no change; otherwise exactly one topic with a fresh key, the name and the subcategory is appended |
| TopicService.TopicService.StoreTopic | UdemyClone/Services/TopicService.cs:25-33 | the topic is appended under a fresh key and nothing else changes |
| TopicService.GetTopicById | UdemyClone/Services/TopicService.cs:38-44 | an empty key gives ArgumentException; otherwise null iff no topic has the key, else the stored topic with the key |
| TopicService.GetAllTopics | UdemyClone/Services/TopicService.cs:46-55 | a page number or size below 1 gives ArgumentException; otherwise a run of at most page-size topics, from (page−1)·size when that does not overflow, and empty past the end |
| TopicService.EveryTopicListed | UdemyClone/Services/TopicService.cs:46-55 | paging loses no topic: each is on some page |
| TopicService.TopicService.UpdateTopic | UdemyClone/Services/TopicService.cs:57-74 | an empty key gives ArgumentException, a missing topic KeyNotFoundException, a blank name ArgumentException, in that order, each with no change; otherwise only that topic's name changes |
| TopicService.TopicService.ReplaceTopic | UdemyClone/Services/TopicService.cs:69-71 | the topic's row alone is replaced |
| TopicService.TopicService.DeleteTopic | UdemyClone/Services/TopicService.cs:76-89 | an empty key gives ArgumentException and a missing topic KeyNotFoundException, each with no change; otherwise exactly that topic is removed and true is returned |
| TopicService.TopicService.RemoveTopic | UdemyClone/Services/TopicService.cs:85-86 | the topic's row alone is removed and the table shrinks by one |
| TopicService.SearchTopics | UdemyClone/Services/TopicService.cs:91-99 | a blank term gives ArgumentException; otherwise the topics whose name contains the term ignoring case, each exactly as often as it occurs in the table, and no other row |
| TopicService.TopicExists | UdemyClone/Services/TopicService.cs:101-104 | true iff some topic has the key |
| TopicService.ExistsAgreesWithGet | UdemyClone/Services/TopicService.cs:38-104 | for a non-empty key, existence and lookup agree |
| TopicService.CreateThenDelete | UdemyClone/Services/TopicService.cs:17-109 | a topic stored under a fresh key is found, exists and raises the count by one, and deleting it restores the table |
| TopicService.TopicService.constructor | UdemyClone/Services/TopicService.cs:17-109 | the service works on the given context |
| SubCategoryService.SubCategoryService.CreateSubCategory | UdemyClone/Services/SubCategoryService.cs:17-36 | a blank name, then an unknown category, give ArgumentException with no change; otherwise exactly one subcategory with a fresh key, the name and the category is appended |
| SubCategoryService.SubCategoryService.StoreSubCategory | UdemyClone/Services/SubCategoryService.cs:25-33 | the subcategory is appended under a fresh key and nothing else changes |
| SubCategoryService.GetSubCategoryById | UdemyClone/Services/SubCategoryService.cs:38-44 | an empty key gives ArgumentException; otherwise null iff no subcategory has the key, else the stored one |
| SubCategoryService.GetAllSubCategories | UdemyClone/Services/SubCategoryService.cs:46-55 | a page number or size below 1 gives ArgumentException; otherwise a run of at most page-size subcategories, from (page−1)·size when that does not overflow, and empty past the end |
| SubCategoryService.EverySubCategoryListed | UdemyClone/Services/SubCategoryService.cs:46-55 | paging loses no subcategory: each is on some page |
| SubCategoryService.SubCategoryService.UpdateSubCategory | UdemyClone/Services/SubCategoryService.cs:57-74 | an empty key gives ArgumentException, a missing subcategory KeyNotFoundException, a blank name ArgumentException, in that order, each with no change; otherwise only its name changes |
| SubCategoryService.SubCategoryService.ReplaceSubCategory | UdemyClone/Services/SubCategoryService.cs:69-71 | the subcategory's row alone is replaced |
| SubCategoryService.SubCategoryService.DeleteSubCategory | UdemyClone/Services/SubCategoryService.cs:76-89 | an empty key gives ArgumentException and a missing subcategory KeyNotFoundException, each with no change; otherwise exactly it is removed and true is returned |
| SubCategoryService.SubCategoryService.RemoveSubCategory | UdemyClone/Services/SubCategoryService.cs:85-86 | the subcategory's row alone is removed and the table shrinks by one |
| SubCategoryService.SearchSubCategories | UdemyClone/Services/SubCategoryService.cs:91-99 | a blank term gives ArgumentException; otherwise the subcategories whose name contains the term ignoring case, each exactly as often as it occurs in the table, and no other row |
| SubCategoryService.SubCategoryExists | UdemyClone/Services/SubCategoryService.cs:101-104 | true iff some subcategory has the key |
| SubCategoryService.ExistsAgreesWithGet | UdemyClone/Services/SubCategoryService.cs:38-104 | for a non-empty key, existence and lookup agree |
| SubCategoryService.CreateThenDelete | UdemyClone/Services/SubCategoryService.cs:17-109 | a subcategory stored under a fresh key is found, exists and raises the count by one, and deleting it restores the table |
| SubCategoryService.SubCategoryService.constructor | UdemyClone/Services/SubCategoryService.cs:17-109 | the service works on the given context |
| Tables.FirstOrDefault | UdemyClone/Services/QuizService.cs:38-39 | LINQ `FirstOrDefault(p)`: null iff no element satisfies `p`; otherwise the first element that does |
| Tables.Filter | UdemyClone/Services/InstructorService.cs:91-92 | LINQ `Where(p)`: keeps exactly the elements satisfying `p`, no more elements than the input |
| Tables.FilterCount | UdemyClone/Services/TopicService.cs:96-98 | `Where(p)` keeps every passing element exactly as many times as it occurs and drops every other element |
| Tables.Any | UdemyClone/Services/QuizService.cs:24-25 | LINQ `Any(p)` is true iff some element satisfies `p` |
| Tables.FilterSingle | UdemyClone/Services/QuizService.cs:89-90 | `Where(p).Count == 1` iff exactly one position satisfies `p` |
| Tables.Find | UdemyClone/Services/TopicService.cs:43 | `FindAsync(id)`: null iff no row has the key; otherwise a row of the table with the key |
| Tables.RemoveKey | UdemyClone/Services/TopicService.cs:85-86 | `Remove` and save: the key is gone and every other row stays |
| Tables.Replace | UdemyClone/Services/TopicService.cs:69-71 | `Update` and save: the row with the key is replaced, every other row stays, positions unchanged |
| Tables.RemoveKeyCount | UdemyClone/Services/TopicService.cs:85-86 | with distinct keys, removing a present key shrinks the table by exactly one |
| Tables.FindAfterAdd | UdemyClone/Services/TopicService.cs:32-33 | after a row is added under a fresh key, lookups find it and every other key as before |
| Paging.Wrap32 | UdemyClone/Services/TopicService.cs:52 | the C# unchecked `int` result of an arithmetic value: congruent modulo 2^32, and the value itself when in range |
| Paging.Page | UdemyClone/Services/TopicService.cs:52-53 | `.Skip(skip).Take(take)`: the run of at most `take` elements from position `skip` (0 when negative) |
| Paging.SkipCountNegative | UdemyClone/Services/InstructorService.cs:110 | a page number below 1 whose product does not overflow asks LINQ to skip a negative count |
| Paging.PageOf | UdemyClone/Services/TopicService.cs:51-54 | without overflow a page starts at (page−1)·size, and for a positive size it is empty iff that is past the end |
| Paging.CeilDiv | UdemyClone/Services/InstructorService.cs:107 | the page count: enough pages of the size to hold every element, and one fewer is not |
| Paging.CeilDivIsLeast | UdemyClone/Services/StudentService.cs:71 | the page count is the least number of pages that holds every element |
| Paging.ClampedWindow | UdemyClone/Services/StudentService.cs:60-72 | clamping the page number as `GetAllStudentsAsync` does and then paging yields a `ClampedPage` |
| Text.Contains | UdemyClone/Services/TopicService.cs:97 | `string.Contains`: true iff the term occurs at some position |
| Text.OrderBy | UdemyClone/Services/CourseService.cs:83 | LINQ `OrderBy(key)`: sorted by key and a permutation of the input |
| Entities.OwnsFind | UdemyClone/Services/InstructorService.cs:47-49 | with distinct keys, "some course has this key and this instructor" is the same as "the course found by key has this instructor" |
| Data.ApplicationDbContext.NewGuid | UdemyClone/Services/TopicService.cs:27 | `Guid.NewGuid()`: a key never used in any table; the generator moves past it |

## Left out

- The controllers, HTTP status mapping, model validation and token parsing are not part of this model. They are transport plumbing.
- The quiz retake operations are declared by the service interface, but no implementation of them exists in the service. The model invents none.
- Delete cascades are not modelled. Deleting a quiz, course, student, topic or subcategory removes only that row, because the database configuration that would define cascades is not part of this model.
- EF Core change tracking, `Include`/`ThenInclude` and `SaveChangesAsync` are not modelled. Each write is one atomic table change, and a navigation property read is a lookup by foreign key.
  - A missing row read in memory is a NullReferenceException; in a SQL projection it is null (`None`).
- Database failures on save are not modelled (foreign-key violations, a `DbUpdateException` turned into `Exception` by `CreateCourseAsync`). The exception is a repository add under a key already taken, which fails with no change.
- InstructorService.InstructorService.CreateCourse: the course's key always comes from the key generator. A caller-set `Id` on the incoming `Course` is not modelled.
- `GetInstructorCoursesEnrollmentsAsync` (InstructorService.cs:65-86) is not modelled. It is a read-only projection outside the access rules.
- Null strings are not modelled. Strings are `seq<char>`, and `string.IsNullOrWhiteSpace` / `IsNullOrEmpty` treat null as empty.
- Case-insensitive comparison folds ASCII letters only. Culture-specific and non-ASCII case folding of `OrdinalIgnoreCase` is left out.
- CourseService.CourseLessons: the SQL `OrderBy(l => l.Name)` is modelled as ordinal order on characters. A database collation that orders differently is not modelled.
- A negative skip follows LINQ-to-objects semantics (it skips nothing). SQL `OFFSET` would reject it. It arises after `int` overflow, with no students in `GetAllStudentsAsync` (the page number is clamped to 0), and in `GetAllCoursesAsync` for any page number below 1, which that method does not guard. InstructorService.GetAllCourses states that such a page is the first page.
- InstructorService.GetAllCourses requires `pageSize > 0`. The source does not guard the page size, which the controller passes through unchecked. For zero, the division in the page count gives a floating-point infinity, which the model does not represent. For a negative size, the page count is a well-defined ceiling of zero or below, and `Take` of a negative count returns nothing; the model leaves this case out along with zero, so neither is stated.
- StudentService.StudentService.GetAllStudents requires fewer users than an `int` counts, so that the C# page arithmetic stays exact.
- QuizService.Passes: the source compares against `Count * 0.7` in `double`. The model states it as 10·score ≥ 7·n.
  - The two agree for every count an `int` holds: the double 0.7 is below 0.7 by less than 10^-16, and 7·n/10 is never within 0.1 of an integer it differs from.
  - This argument is not proved in Dafny.
- `(int)Math.Ceiling((double)n / size)` is the integer ceiling division `CeilDiv`, exact for all `int` inputs.
- The student's score is held as an unbounded natural. The source's `int` counter cannot overflow for any submission a list can hold.
- `QuizResultDto` fields that `GetQuizResultAsync` does not fill are not modelled.
- The repository field of `StudentService` is unused by the modelled operations and is left out.
- `GetAllStudentsAsync` joins users with their roles. The model gives each user its set of role names and keeps those holding "Student".
- TopicService.SearchTopics and SubCategoryService.SearchSubCategories: the filter `Name.Contains(searchTerm, StringComparison.OrdinalIgnoreCase)` sits inside an `IQueryable.Where`. A relational EF Core provider cannot translate that overload, and the database provider is not part of this model. The filter is modelled as if evaluated in memory, with the ASCII case folding described above.
- TopicService.SearchTopics and SubCategoryService.SearchSubCategories: the contracts state which rows are returned and how often, not that they keep table order.
- CourseService.GetLessonById: `Include(l => l.Course.Name)` names a property that is not a navigation, which EF Core refuses when the query runs. The model takes the evident intent: the lesson with its course loaded.
- TopicService.GetTopicCount and SubCategoryService.GetSubCategoryCount have no contract of their own, since the count is the table length. `CreateThenDelete` states how the count moves.
- Concurrency between the asynchronous calls is not modelled. Each operation runs alone.
