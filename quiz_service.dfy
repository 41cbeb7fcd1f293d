/**
 * `QuizService`: quiz authoring with its one-correct-answer rule and the two-phase write
 * that back-fills `CorrectAnswerId`, submission scoring with the 70 % pass rule, and the
 * read-only queries over attempts.
 */
module QuizService {
  import opened Wrappers
  import opened Tables
  import opened Entities
  import opened Dto
  import opened Data
  import opened Paging
  import opened QuizRepository

  // ---------------------------------------------------------------------------------------
  // Authoring
  // ---------------------------------------------------------------------------------------

  predicate IsCorrect(a: Answer) {
    a.isCorrect
  }

  /** The request's answers as new `Answer` entities: text and flag, no keys yet. */
  function DraftAnswers(requests: seq<AnswerRequest>): (r: seq<Answer>)
    ensures |r| == |requests|
    ensures forall j :: 0 <= j < |r| ==> r[j] == Answer(EmptyGuid, requests[j].text, requests[j].isCorrect, EmptyGuid)
  {
    seq(|requests|, j requires 0 <= j < |requests| => Answer(EmptyGuid, requests[j].text, requests[j].isCorrect, EmptyGuid))
  }

  /** The question `CreateQuizAsync` builds from a request, before it is stored. */
  function Draft(request: QuestionRequest): Question {
    Question(EmptyGuid, request.text, EmptyGuid, DraftAnswers(request.answers), EmptyGuid)
  }

  /** The authoring rule: exactly one of the question's answers is marked correct. */
  predicate HasOneCorrectAnswer(request: QuestionRequest) {
    exists j :: 0 <= j < |request.answers| && request.answers[j].isCorrect &&
      forall k :: 0 <= k < |request.answers| && request.answers[k].isCorrect ==> k == j
  }

  /** The validation `CreateQuizAsync` performs per question agrees with the authoring rule. */
  lemma CorrectCountRule(request: QuestionRequest)
    ensures |Filter(DraftAnswers(request.answers), IsCorrect)| == 1 <==> HasOneCorrectAnswer(request)
  {
    var answers := DraftAnswers(request.answers);
    FilterSingle(answers, IsCorrect);
    if exists j :: Unique(answers, IsCorrect, j) {
      var j :| Unique(answers, IsCorrect, j);
      assert request.answers[j].isCorrect;
    }
    if HasOneCorrectAnswer(request) {
      var j :| 0 <= j < |request.answers| && request.answers[j].isCorrect &&
        forall k :: 0 <= k < |request.answers| && request.answers[k].isCorrect ==> k == j;
      assert Unique(answers, IsCorrect, j);
    }
  }

  /** The second phase: the question's `CorrectAnswerId` is set to the first answer marked correct, if any. */
  function Backfill(q: Question): Question {
    match FirstOrDefault(q.answers, IsCorrect)
    case Some(a) => q.(correctAnswerId := a.id)
    case None => q
  }

  /**
   * `q`, stored under the quiz `quizId`, realises the request: same text, the same answers in
   * the same order with the same texts and flags, each pointing at `q`, and a
   * `CorrectAnswerId` naming exactly the answers marked correct.
   */
  predicate AuthoredQuestion(q: Question, request: QuestionRequest, quizId: Guid) {
    && q.text == request.text
    && q.quizId == quizId
    && |q.answers| == |request.answers|
    && (forall j :: 0 <= j < |q.answers| ==>
          q.answers[j].text == request.answers[j].text
          && q.answers[j].isCorrect == request.answers[j].isCorrect
          && q.answers[j].questionId == q.id)
    && (forall j :: 0 <= j < |q.answers| ==> (q.answers[j].isCorrect <==> q.answers[j].id == q.correctAnswerId))
  }

  /** The stored quiz realises the whole request, question by question. */
  predicate Authored(quiz: Row<Quiz>, request: CreateQuizRequest) {
    && quiz.val.title == request.title
    && quiz.val.description == request.description
    && quiz.val.lessonId == request.lessonId
    && |quiz.val.questions| == |request.questions|
    && forall i :: 0 <= i < |request.questions| ==> AuthoredQuestion(quiz.val.questions[i], request.questions[i], quiz.id)
  }

  /** Back-filling a stored, validated question makes `CorrectAnswerId` name its unique correct answer. */
  lemma BackfillAuthored(request: QuestionRequest, stored: Question, quizId: Guid)
    requires HasOneCorrectAnswer(request)
    requires StoredFrom(stored, Draft(request), quizId) && DistinctAnswerKeys(stored)
    ensures AuthoredQuestion(Backfill(stored), request, quizId)
  {
    var j :| 0 <= j < |request.answers| && request.answers[j].isCorrect &&
      forall k :: 0 <= k < |request.answers| && request.answers[k].isCorrect ==> k == j;
    assert stored.answers[j].isCorrect;
    var k := FirstIndex(stored.answers, IsCorrect);
    assert k == j;
  }

  /** Storing the drafts of a validated request and back-filling every question realises the request. */
  lemma BackfillQuiz(request: CreateQuizRequest, drafts: seq<Question>, stored: Row<Quiz>, updated: Row<Quiz>)
    requires |drafts| == |request.questions|
    requires forall k :: 0 <= k < |drafts| ==> drafts[k] == Draft(request.questions[k])
    requires forall k :: 0 <= k < |request.questions| ==> HasOneCorrectAnswer(request.questions[k])
    requires stored == Stored(Quiz(request.title, request.description, request.lessonId, drafts), stored.id)
    requires updated.id == stored.id && updated.val == stored.val.(questions := updated.val.questions)
    requires |updated.val.questions| == |stored.val.questions|
    requires forall k :: 0 <= k < |stored.val.questions| ==> updated.val.questions[k] == Backfill(stored.val.questions[k])
    ensures Authored(updated, request)
  {
    forall i | 0 <= i < |request.questions|
      ensures AuthoredQuestion(updated.val.questions[i], request.questions[i], updated.id)
    {
      BackfillAuthored(request.questions[i], stored.val.questions[i], stored.id);
    }
  }

  /** Back-filling changes no key, so the keys of the quiz graph are those stored. */
  lemma {:induction false} BackfillKeys(stored: seq<Question>, filled: seq<Question>)
    requires |filled| == |stored|
    requires forall k :: 0 <= k < |stored| ==> filled[k] == Backfill(stored[k])
    ensures QuestionKeys(filled) == QuestionKeys(stored)
  {
    if |stored| > 0 {
      BackfillKeys(stored[1..], filled[1..]);
    }
  }

  /**
   * The first loop of `CreateQuizAsync`: builds each question from the request and throws
   * `ArgumentException` at the first question without exactly one correct answer.
   */
  method DraftQuestions(request: CreateQuizRequest) returns (r: Result<seq<Question>>)
    ensures r.Err? <==> exists i :: 0 <= i < |request.questions| && !HasOneCorrectAnswer(request.questions[i])
    ensures r.Err? ==> r.error == ArgumentError
    ensures r.Ok? ==> |r.value| == |request.questions|
    ensures r.Ok? ==> forall k :: 0 <= k < |r.value| ==> r.value[k] == Draft(request.questions[k])
    ensures r.Ok? ==> forall k :: 0 <= k < |request.questions| ==> HasOneCorrectAnswer(request.questions[k])
  {
    var questions: seq<Question> := [];
    for i := 0 to |request.questions|
      invariant |questions| == i
      invariant forall k :: 0 <= k < i ==> questions[k] == Draft(request.questions[k])
      invariant forall k :: 0 <= k < i ==> HasOneCorrectAnswer(request.questions[k])
    {
      var q := request.questions[i];
      var answers := DraftAnswers(q.answers);
      var correctAnswers := Filter(answers, IsCorrect);
      CorrectCountRule(q);
      if |correctAnswers| != 1 {
        return Err(ArgumentError);
      }
      questions := questions + [Question(EmptyGuid, q.text, EmptyGuid, answers, EmptyGuid)];
    }
    r := Ok(questions);
  }

  /** The second loop of `CreateQuizAsync`: every stored question gets its `CorrectAnswerId` back-filled. */
  method BackfillQuestions(stored: seq<Question>) returns (filled: seq<Question>)
    ensures |filled| == |stored|
    ensures forall k :: 0 <= k < |stored| ==> filled[k] == Backfill(stored[k])
  {
    filled := stored;
    for j := 0 to |filled|
      invariant |filled| == |stored|
      invariant forall k :: 0 <= k < j ==> filled[k] == Backfill(stored[k])
      invariant forall k :: j <= k < |filled| ==> filled[k] == stored[k]
    {
      var correctAnswer := FirstOrDefault(filled[j].answers, IsCorrect);
      if correctAnswer.Some? {
        filled := filled[j := filled[j].(correctAnswerId := correctAnswer.value.id)];
      }
    }
  }

  // ---------------------------------------------------------------------------------------
  // Scoring
  // ---------------------------------------------------------------------------------------

  function HasQuestionId(id: Guid): Question -> bool {
    (q: Question) => q.id == id
  }

  /** `quiz.Questions.FirstOrDefault(q => q.Id == questionId)`. */
  function FindQuestion(questions: seq<Question>, id: Guid): (r: Option<Question>)
    ensures r.None? <==> forall i :: 0 <= i < |questions| ==> questions[i].id != id
    ensures r.Some? ==> r.value in questions && r.value.id == id
  {
    FirstOrDefault(questions, HasQuestionId(id))
  }

  /** A submitted pair is recorded when its question belongs to the quiz. */
  predicate Known(questions: seq<Question>, answer: SubmittedAnswer) {
    FindQuestion(questions, answer.questionId).Some?
  }

  /** A pair scores when its question's `CorrectAnswerId` is the submitted answer. */
  predicate Scores(questions: seq<Question>, answer: SubmittedAnswer) {
    match FindQuestion(questions, answer.questionId)
    case Some(q) => q.correctAnswerId == answer.answerId
    case None => false
  }

  /** The submitted pairs that are recorded, in submission order. */
  function Accepted(questions: seq<Question>, answers: seq<SubmittedAnswer>): seq<SubmittedAnswer>
    decreases |answers|
  {
    if |answers| == 0 then []
    else
      var last := answers[|answers| - 1];
      Accepted(questions, answers[..|answers| - 1]) + (if Known(questions, last) then [last] else [])
  }

  /** The score: the number of submitted pairs that score, duplicates included. */
  function Score(questions: seq<Question>, answers: seq<SubmittedAnswer>): nat
    decreases |answers|
  {
    if |answers| == 0 then 0
    else
      var last := answers[|answers| - 1];
      Score(questions, answers[..|answers| - 1]) + (if Scores(questions, last) then 1 else 0)
  }

  /**
   * The pass rule `score >= questionCount * 0.7` in exact arithmetic: at least seven tenths,
   * that is at least the ceiling of 7/10 of the questions. A quiz with no questions is always passed.
   */
  function Passes(score: nat, questionCount: nat): (b: bool)
    ensures b <==> score >= CeilDiv(7 * questionCount, 10)
    ensures questionCount == 0 ==> b
  {
    10 * score >= 7 * questionCount
  }

  /** A submission splits: the score of the whole is the sum of the scores of its parts. */
  lemma {:induction false} ScoreAppend(questions: seq<Question>, a: seq<SubmittedAnswer>, b: seq<SubmittedAnswer>)
    ensures Score(questions, a + b) == Score(questions, a) + Score(questions, b)
    ensures Accepted(questions, a + b) == Accepted(questions, a) + Accepted(questions, b)
    decreases |b|
  {
    if |b| == 0 {
      assert a + b == a;
    } else {
      var b' := b[..|b| - 1];
      assert (a + b)[..|a + b| - 1] == a + b';
      assert (a + b)[|a + b| - 1] == b[|b| - 1];
      ScoreAppend(questions, a, b');
    }
  }

  /** Only pairs of the stored questions count, each at most once: 0 <= score <= recorded <= submitted. */
  lemma {:induction false} ScoreBounds(questions: seq<Question>, answers: seq<SubmittedAnswer>)
    ensures Score(questions, answers) <= |Accepted(questions, answers)| <= |answers|
    decreases |answers|
  {
    if |answers| > 0 {
      ScoreBounds(questions, answers[..|answers| - 1]);
    }
  }

  /** Pairs naming a question the quiz does not have change nothing: the score is that of the recorded pairs. */
  lemma {:induction false} ScoreOfAccepted(questions: seq<Question>, answers: seq<SubmittedAnswer>)
    ensures Score(questions, Accepted(questions, answers)) == Score(questions, answers)
    ensures forall i :: 0 <= i < |Accepted(questions, answers)| ==> Known(questions, Accepted(questions, answers)[i])
    decreases |answers|
  {
    if |answers| > 0 {
      var init := answers[..|answers| - 1];
      var last := answers[|answers| - 1];
      ScoreOfAccepted(questions, init);
      assert init == answers[..|answers| - 1];
      if Known(questions, last) {
        var acc := Accepted(questions, init) + [last];
        assert Accepted(questions, answers) == acc;
        ScoreAppend(questions, Accepted(questions, init), [last]);
        assert [last][..0] == [];
        assert Score(questions, [last]) == if Scores(questions, last) then 1 else 0;
        assert forall i :: 0 <= i < |acc| - 1 ==> acc[i] == Accepted(questions, init)[i];
      } else {
        assert Accepted(questions, answers) == Accepted(questions, init) + [];
        assert Accepted(questions, init) + [] == Accepted(questions, init);
        assert !Scores(questions, last);
      }
    }
  }

  /** Submitting the same pair twice counts it twice. */
  lemma DuplicateCountsTwice(questions: seq<Question>, answers: seq<SubmittedAnswer>, pair: SubmittedAnswer)
    ensures Score(questions, answers + [pair, pair]) == Score(questions, answers) + 2 * Score(questions, [pair])
  {
    ScoreAppend(questions, answers, [pair, pair]);
    ScoreAppend(questions, [pair], [pair]);
    assert [pair] + [pair] == [pair, pair];
  }

  /** So the score can exceed the number of questions: one question answered correctly twice scores 2. */
  lemma ScoreCanExceedQuestionCount()
    ensures var questions := [Question(1, "q", 10, [Answer(2, "a", true, 1)], 2)];
      Score(questions, [SubmittedAnswer(1, 2), SubmittedAnswer(1, 2)]) == 2 > |questions|
  {
    var questions := [Question(1, "q", 10, [Answer(2, "a", true, 1)], 2)];
    var pair := SubmittedAnswer(1, 2);
    assert FindQuestion(questions, 1) == Some(questions[0]);
    DuplicateCountsTwice(questions, [], pair);
    assert [pair][..0] == [];
    assert [] + [pair, pair] == [pair, pair];
  }

  function QuestionIds(questions: seq<Question>): set<Guid> {
    set i | 0 <= i < |questions| :: questions[i].id
  }

  function SubmittedQuestionIds(answers: seq<SubmittedAnswer>): set<Guid> {
    set i | 0 <= i < |answers| :: answers[i].questionId
  }

  predicate DistinctQuestions(answers: seq<SubmittedAnswer>) {
    forall i, j :: 0 <= i < j < |answers| ==> answers[i].questionId != answers[j].questionId
  }

  /** Appending a pair adds its question to the set of submitted questions. */
  lemma IdsSnoc(answers: seq<SubmittedAnswer>, x: SubmittedAnswer)
    ensures SubmittedQuestionIds(answers + [x]) == SubmittedQuestionIds(answers) + {x.questionId}
  {
    var s := answers + [x];
    assert forall i :: 0 <= i < |answers| ==> s[i] == answers[i];
    assert s[|answers|] == x;
  }

  /** Recorded pairs name questions of the quiz that were submitted. */
  lemma {:induction false} AcceptedIds(questions: seq<Question>, answers: seq<SubmittedAnswer>)
    ensures SubmittedQuestionIds(Accepted(questions, answers)) <= QuestionIds(questions) * SubmittedQuestionIds(answers)
    decreases |answers|
  {
    if |answers| > 0 {
      var init := answers[..|answers| - 1];
      var last := answers[|answers| - 1];
      assert answers == init + [last];
      AcceptedIds(questions, init);
      IdsSnoc(init, last);
      var acc0 := Accepted(questions, init);
      if Known(questions, last) {
        IdsSnoc(acc0, last);
        var q := FindQuestion(questions, last.questionId).value;
        var k :| 0 <= k < |questions| && questions[k] == q;
        assert last.questionId in QuestionIds(questions);
      } else {
        assert acc0 + [] == acc0;
      }
    }
  }

  /** Keeping only the recorded pairs keeps the submitted questions distinct. */
  lemma {:induction false} AcceptedDistinct(questions: seq<Question>, answers: seq<SubmittedAnswer>)
    requires DistinctQuestions(answers)
    ensures DistinctQuestions(Accepted(questions, answers))
    decreases |answers|
  {
    if |answers| > 0 {
      var init := answers[..|answers| - 1];
      var last := answers[|answers| - 1];
      assert DistinctQuestions(init);
      AcceptedDistinct(questions, init);
      var acc0 := Accepted(questions, init);
      if Known(questions, last) {
        AcceptedIds(questions, init);
        assert last.questionId !in SubmittedQuestionIds(init);
        var acc := acc0 + [last];
        forall i | 0 <= i < |acc0| ensures acc[i].questionId != last.questionId {
          assert acc0[i].questionId in SubmittedQuestionIds(acc0);
        }
      } else {
        assert acc0 + [] == acc0;
      }
    }
  }

  /** Pairs with distinct questions name as many questions as there are pairs. */
  lemma {:induction false} DistinctIdsCount(answers: seq<SubmittedAnswer>)
    requires DistinctQuestions(answers)
    ensures |SubmittedQuestionIds(answers)| == |answers|
    decreases |answers|
  {
    if |answers| > 0 {
      var init := answers[..|answers| - 1];
      var last := answers[|answers| - 1];
      assert answers == init + [last];
      DistinctIdsCount(init);
      IdsSnoc(init, last);
      assert last.questionId !in SubmittedQuestionIds(init);
    }
  }

  /** A set of keys drawn from a sequence has at most as many elements as the sequence. */
  lemma {:induction false} QuestionIdsBound(questions: seq<Question>)
    ensures |QuestionIds(questions)| <= |questions|
    decreases |questions|
  {
    if |questions| > 0 {
      var init := questions[..|questions| - 1];
      QuestionIdsBound(init);
      assert QuestionIds(questions) == QuestionIds(init) + {questions[|questions| - 1].id} by {
        assert forall i :: 0 <= i < |init| ==> init[i] == questions[i];
      }
    }
  }

  /** Without repeated questions in the submission, the score is at most the number of questions. */
  lemma DistinctScoreBound(questions: seq<Question>, answers: seq<SubmittedAnswer>)
    requires DistinctQuestions(answers)
    ensures Score(questions, answers) <= |questions|
  {
    var acc := Accepted(questions, answers);
    ScoreBounds(questions, answers);
    AcceptedDistinct(questions, answers);
    DistinctIdsCount(acc);
    AcceptedIds(questions, answers);
    SubsetCard(SubmittedQuestionIds(acc), QuestionIds(questions));
    QuestionIdsBound(questions);
  }

  lemma SubsetCard(a: set<Guid>, b: set<Guid>)
    requires a <= b
    ensures |a| <= |b|
  {
    assert b == a + (b - a);
  }

  /**
   * `after` is `before` followed by one answer record per pair of `recorded`, in order, keyed
   * from `firstKey` on and filed against the attempt `attemptId`.
   */
  predicate RecordedFrom(before: Table<StudentAnswer>, after: Table<StudentAnswer>, firstKey: Guid, attemptId: Guid,
                         recorded: seq<SubmittedAnswer>) {
    && |after| == |before| + |recorded|
    && after[..|before|] == before
    && forall k :: 0 <= k < |recorded| ==>
         after[|before| + k] == Row(firstKey + k, StudentAnswer(attemptId, recorded[k].questionId, recorded[k].answerId))
  }

  /** One more submitted pair extends the recorded pairs and the score by that pair alone. */
  lemma PrefixSnoc(questions: seq<Question>, answers: seq<SubmittedAnswer>, i: nat)
    requires i < |answers|
    ensures Accepted(questions, answers[..i + 1]) ==
      Accepted(questions, answers[..i]) + if Known(questions, answers[i]) then [answers[i]] else []
    ensures Score(questions, answers[..i + 1]) ==
      Score(questions, answers[..i]) + if Scores(questions, answers[i]) then 1 else 0
  {
    assert answers[..i + 1][..i] == answers[..i];
  }

  /** Recording one more pair extends the recorded answers by one row under the next key. */
  lemma RecordedSnoc(before: Table<StudentAnswer>, after: Table<StudentAnswer>, firstKey: Guid, attemptId: Guid,
                     recorded: seq<SubmittedAnswer>, x: SubmittedAnswer)
    requires RecordedFrom(before, after, firstKey, attemptId, recorded)
    ensures RecordedFrom(before, after + [Row(firstKey + |recorded|, StudentAnswer(attemptId, x.questionId, x.answerId))],
                         firstKey, attemptId, recorded + [x])
  {
    var after' := after + [Row(firstKey + |recorded|, StudentAnswer(attemptId, x.questionId, x.answerId))];
    assert after'[..|before|] == after[..|before|];
  }

  /**
   * The database `s` is `s0` after recording the pairs `recorded` against the attempt, under
   * the keys drawn from `s0.nextId` on, with nothing else changed.
   */
  ghost predicate Progress(s0: DbState, s: DbState, attemptId: Guid, recorded: seq<SubmittedAnswer>) {
    && RecordedFrom(s0.studentAnswers, s.studentAnswers, s0.nextId, attemptId, recorded)
    && s == s0.(studentAnswers := s.studentAnswers, nextId := s0.nextId + |recorded|)
  }

  /** Recording one more pair under the next key extends the progress by that pair. */
  lemma ProgressSnoc(s0: DbState, s: DbState, attemptId: Guid, recorded: seq<SubmittedAnswer>, x: SubmittedAnswer)
    requires Progress(s0, s, attemptId, recorded)
    ensures Progress(s0, s.(studentAnswers := s.studentAnswers + [Row(s.nextId, StudentAnswer(attemptId, x.questionId, x.answerId))],
                            nextId := s.nextId + 1), attemptId, recorded + [x])
  {
    RecordedSnoc(s0.studentAnswers, s.studentAnswers, s0.nextId, attemptId, recorded, x);
  }

  // ---------------------------------------------------------------------------------------
  // Queries
  // ---------------------------------------------------------------------------------------

  /** `HasStudentTakenQuizAsync`: some attempt of this student at this quiz exists. */
  function HasStudentTakenQuiz(attempts: Table<StudentQuiz>, studentId: Guid, quizId: Guid): (b: bool)
    ensures b <==> exists i :: 0 <= i < |attempts| && attempts[i].val.studentId == studentId && attempts[i].val.quizId == quizId
  {
    Any(attempts, AttemptOf(studentId, quizId))
  }

  /** `HasStudentTakenQuizAsync` (`Any`) holds exactly when `GetStudentQuizAsync` (`FirstOrDefault`) finds an attempt. */
  lemma TakenIffFound(attempts: Table<StudentQuiz>, studentId: Guid, quizId: Guid)
    ensures HasStudentTakenQuiz(attempts, studentId, quizId) <==> GetStudentQuiz(attempts, studentId, quizId).Some?
  {
  }

  /** `DidStudentPassQuizAsync`: the `Passed` flag of the first attempt found, false when there is none. */
  function DidStudentPassQuiz(attempts: Table<StudentQuiz>, studentId: Guid, quizId: Guid): (b: bool)
    ensures !HasStudentTakenQuiz(attempts, studentId, quizId) ==> !b
    ensures b ==> exists i :: (0 <= i < |attempts| && attempts[i].val.studentId == studentId
      && attempts[i].val.quizId == quizId && attempts[i].val.passed)
  {
    match GetStudentQuiz(attempts, studentId, quizId)
    case Some(attempt) => attempt.val.passed
    case None => false
  }

  /** `GetQuizIdByLessonIdAsync`: the key of the first quiz of the lesson; a lesson without one throws. */
  function GetQuizIdByLessonId(quizzes: Table<Quiz>, lessonId: Guid): (r: Result<Guid>)
    ensures r.Err? <==> forall i :: 0 <= i < |quizzes| ==> quizzes[i].val.lessonId != lessonId
    ensures r.Err? ==> r.error == GeneralError
    ensures r.Ok? ==> exists i :: (0 <= i < |quizzes| && quizzes[i].id == r.value && quizzes[i].val.lessonId == lessonId
      && forall j :: 0 <= j < i ==> quizzes[j].val.lessonId != lessonId)
  {
    match FirstOrDefault(quizzes, (q: Row<Quiz>) => q.val.lessonId == lessonId)
    case Some(q) => Ok(q.id)
    case None => Err(GeneralError)
  }

  /** The student's view of a quiz: keys and texts, never the correct flags or `CorrectAnswerId`. */
  function QuizView(quiz: Row<Quiz>): QuizDto {
    QuizDto(quiz.id, quiz.val.title, quiz.val.description,
      seq(|quiz.val.questions|, i requires 0 <= i < |quiz.val.questions| =>
        var q := quiz.val.questions[i];
        QuestionDto(q.id, q.text, seq(|q.answers|, j requires 0 <= j < |q.answers| => AnswerDto(q.answers[j].id, q.answers[j].text)))))
  }

  /** `GetQuizByIdAsync`: the view of the stored quiz; a missing quiz throws `ArgumentNullException`. */
  function GetQuizById(quizzes: Table<Quiz>, quizId: Guid): (r: Result<QuizDto>)
    ensures r.Err? <==> !HasKey(quizzes, quizId)
    ensures r.Err? ==> r.error == ArgumentNull
    ensures r.Ok? ==> exists i :: 0 <= i < |quizzes| && quizzes[i].id == quizId && SameTexts(r.value, quizzes[i])
  {
    match GetById(quizzes, quizId)
    case Some(quiz) => Ok(QuizView(quiz))
    case None => Err(ArgumentNull)
  }

  /** The view shows the quiz's key, title and description and every question and answer with its key and text, in order. */
  predicate SameTexts(view: QuizDto, quiz: Row<Quiz>) {
    && view.id == quiz.id && view.title == quiz.val.title && view.description == quiz.val.description
    && |view.questions| == |quiz.val.questions|
    && forall i :: 0 <= i < |view.questions| ==>
         var v := view.questions[i];
         var q := quiz.val.questions[i];
         && v.id == q.id && v.text == q.text && |v.answers| == |q.answers|
         && forall j :: 0 <= j < |v.answers| ==> v.answers[j] == AnswerDto(q.answers[j].id, q.answers[j].text)
  }

  /** Two quizzes that differ only in which answers are correct look the same to a student. */
  lemma ViewHidesAnswerKey(a: Row<Quiz>, b: Row<Quiz>)
    requires a.id == b.id && a.val.title == b.val.title && a.val.description == b.val.description
    requires |a.val.questions| == |b.val.questions|
    requires forall i :: 0 <= i < |a.val.questions| ==>
      var p := a.val.questions[i];
      var q := b.val.questions[i];
      p.id == q.id && p.text == q.text && |p.answers| == |q.answers| &&
      forall j :: 0 <= j < |p.answers| ==> p.answers[j].id == q.answers[j].id && p.answers[j].text == q.answers[j].text
    ensures QuizView(a) == QuizView(b)
  {
    var va := QuizView(a).questions;
    var vb := QuizView(b).questions;
    forall i | 0 <= i < |va| ensures va[i] == vb[i] {
      assert va[i].answers == vb[i].answers;
    }
  }

  /** `GetQuizResultAsync`: score, pass flag and date of the first attempt found; no attempt throws `ArgumentNullException`. */
  function GetQuizResult(attempts: Table<StudentQuiz>, quizId: Guid, studentId: Guid): (r: Result<QuizResultDto>)
    ensures r.Err? <==> !HasStudentTakenQuiz(attempts, studentId, quizId)
    ensures r.Err? ==> r.error == ArgumentNull
    ensures r.Ok? ==> exists i :: (0 <= i < |attempts| && attempts[i].val.studentId == studentId && attempts[i].val.quizId == quizId
      && r.value == QuizResultDto(attempts[i].val.score, attempts[i].val.passed, attempts[i].val.dateTaken))
  {
    match GetStudentQuiz(attempts, studentId, quizId)
    case Some(attempt) => Ok(QuizResultDto(attempt.val.score, attempt.val.passed, attempt.val.dateTaken))
    case None => Err(ArgumentNull)
  }

  /** The pass check and the result lookup read the same attempt. */
  lemma PassedAgreesWithResult(attempts: Table<StudentQuiz>, studentId: Guid, quizId: Guid)
    ensures DidStudentPassQuiz(attempts, studentId, quizId) <==>
      GetQuizResult(attempts, quizId, studentId).Ok? && GetQuizResult(attempts, quizId, studentId).value.passed
  {
  }

  /** A new attempt is what the result lookup reports only when the student had none before; otherwise the first one still wins. */
  lemma ResultAfterAttempt(attempts: Table<StudentQuiz>, attempt: Row<StudentQuiz>)
    ensures var s := attempt.val.studentId;
      var q := attempt.val.quizId;
      GetQuizResult(attempts + [attempt], q, s) ==
        if HasStudentTakenQuiz(attempts, s, q) then GetQuizResult(attempts, q, s)
        else Ok(QuizResultDto(attempt.val.score, attempt.val.passed, attempt.val.dateTaken))
  {
    var s := attempt.val.studentId;
    var q := attempt.val.quizId;
    FirstOrDefaultAppend(attempts, attempt, AttemptOf(s, q));
  }

  // ---------------------------------------------------------------------------------------
  // The service
  // ---------------------------------------------------------------------------------------

  class QuizService {
    const context: ApplicationDbContext
    const repository: QuizRepository

    /** The service and its repository share one context, which is valid. */
    ghost predicate Valid()
      reads context
    {
      repository.context == context && context.Valid()
    }

    constructor (context: ApplicationDbContext, repository: QuizRepository)
      ensures this.context == context && this.repository == repository
    {
      this.context := context;
      this.repository := repository;
    }

    /**
     * `CreateQuizAsync`: a question without exactly one correct answer throws before anything
     * is stored; otherwise one quiz is added that realises the request, under fresh keys.
     */
    method CreateQuizAsync(request: CreateQuizRequest) returns (r: Result<()>)
      requires Valid()
      modifies context
      ensures Valid()
      ensures r.Err? <==> exists i :: 0 <= i < |request.questions| && !HasOneCorrectAnswer(request.questions[i])
      ensures r.Err? ==> r.error == ArgumentError && context.State() == old(context.State())
      ensures r.Ok? ==>
        && |context.quizzes| == |old(context.quizzes)| + 1
        && context.quizzes[..|old(context.quizzes)|] == old(context.quizzes)
        && context.quizzes[|old(context.quizzes)|].id == old(context.nextId)
        && Authored(context.quizzes[|old(context.quizzes)|], request)
        && context.State() == old(context.State()).(quizzes := context.quizzes, nextId := context.nextId)
    {
      var questions := DraftQuestions(request);
      if questions.Err? {
        return Err(questions.error);
      }
      var quiz := Quiz(request.title, request.description, request.lessonId, questions.value);
      ghost var before := context.quizzes;
      var stored := repository.AddAsync(quiz);
      KeyedAdd(before, stored.id, stored);
      var updated := BackfillStored(before, stored);
      BackfillQuiz(request, questions.value, stored, updated);
      r := Ok(());
    }

    /**
     * The second phase of `CreateQuizAsync`: the quiz just stored gets every question's
     * `CorrectAnswerId` back-filled and is written again under the same key.
     */
    method BackfillStored(ghost before: Table<Quiz>, stored: Row<Quiz>) returns (updated: Row<Quiz>)
      requires Valid()
      requires context.quizzes == before + [stored] && !HasKey(before, stored.id)
      requires KeysBelow(stored.val, context.nextId)
      modifies context
      ensures Valid()
      ensures updated.id == stored.id && updated.val == stored.val.(questions := updated.val.questions)
      ensures |updated.val.questions| == |stored.val.questions|
      ensures forall k :: 0 <= k < |stored.val.questions| ==> updated.val.questions[k] == Backfill(stored.val.questions[k])
      ensures context.State() == old(context.State()).(quizzes := before + [updated])
    {
      var filled := BackfillQuestions(stored.val.questions);
      updated := Row(stored.id, stored.val.(questions := filled));
      BackfillKeys(stored.val.questions, filled);
      assert HasKey(context.quizzes, stored.id) by {
        assert context.quizzes[|before|] == stored;
      }
      var _ := repository.UpdateAsync(updated);
      ReplaceLast(before, stored, updated);
    }

    /**
     * `SubmitQuizAsync`: an unknown quiz throws `NotFoundException` with no change; otherwise
     * one attempt is added with the score and pass flag of the submission, and one answer
     * record per submitted pair whose question belongs to the quiz.
     */
    method SubmitQuizAsync(quizId: Guid, answers: seq<SubmittedAnswer>, studentId: Guid, now: int) returns (r: Result<string>)
      requires Valid()
      modifies context
      ensures Valid()
      ensures r.Err? <==> old(GetById(context.quizzes, quizId)).None?
      ensures r.Err? ==> r.error == NotFound && context.State() == old(context.State())
      ensures r.Ok? ==>
        var questions := old(GetById(context.quizzes, quizId)).value.val.questions;
        var attemptId := old(context.nextId);
        var score := Score(questions, answers);
        && r.value == "Quiz Submitted Successfully\nCheck Your Results!"
        && context.studentQuizzes == old(context.studentQuizzes) +
             [Row(attemptId, StudentQuiz(studentId, quizId, now, score, Passes(score, |questions|)))]
        && RecordedFrom(old(context.studentAnswers), context.studentAnswers, attemptId + 1, attemptId, Accepted(questions, answers))
        && context.State() == old(context.State()).(
             studentQuizzes := context.studentQuizzes, studentAnswers := context.studentAnswers,
             nextId := attemptId + 1 + |Accepted(questions, answers)|)
    {
      var quiz := GetById(context.quizzes, quizId);
      if quiz.None? {
        return Err(NotFound);
      }
      var questions := quiz.value.val.questions;
      ghost var attempts := context.studentQuizzes;
      var attemptId := StartAttempt(studentId, quizId, now);
      var correctAnswers := RecordAnswers(attemptId, questions, answers);
      var attempt := Row(attemptId, StudentQuiz(studentId, quizId, now, 0, false));
      FinishAttempt(attempts, attempt, correctAnswers, Passes(correctAnswers, |questions|));
      r := Ok("Quiz Submitted Successfully\nCheck Your Results!");
    }

    /** The attempt `SubmitQuizAsync` stores first: score 0, not passed, under a fresh key. */
    method StartAttempt(studentId: Guid, quizId: Guid, now: int) returns (attemptId: Guid)
      requires Valid()
      modifies context
      ensures Valid()
      ensures attemptId == old(context.nextId) && !HasKey(old(context.studentQuizzes), attemptId)
      ensures context.State() == old(context.State()).(
        studentQuizzes := old(context.studentQuizzes) + [Row(attemptId, StudentQuiz(studentId, quizId, now, 0, false))],
        nextId := attemptId + 1)
    {
      attemptId := context.NewGuid();
      assert !HasKey(context.studentQuizzes, attemptId);
      var _ := repository.AddStudentQuizAsync(Row(attemptId, StudentQuiz(studentId, quizId, now, 0, false)));
    }

    /** The final write of `SubmitQuizAsync`: the attempt just stored gets its score and pass flag. */
    method FinishAttempt(ghost attempts: Table<StudentQuiz>, attempt: Row<StudentQuiz>, score: nat, passed: bool)
      requires Valid()
      requires context.studentQuizzes == attempts + [attempt] && !HasKey(attempts, attempt.id)
      modifies context
      ensures Valid()
      ensures context.State() == old(context.State()).(
        studentQuizzes := attempts + [Row(attempt.id, attempt.val.(score := score, passed := passed))])
    {
      var scored := Row(attempt.id, attempt.val.(score := score, passed := passed));
      assert HasKey(context.studentQuizzes, attempt.id) by {
        assert context.studentQuizzes[|attempts|] == attempt;
      }
      var _ := repository.UpdateStudentQuizAsync(scored);
      ReplaceLast(attempts, attempt, scored);
    }

    /**
     * The answer loop of `SubmitQuizAsync`: each pair whose question belongs to the quiz is
     * recorded under a fresh key against the attempt, and the pairs that score are counted.
     */
    method RecordAnswers(attemptId: Guid, questions: seq<Question>, answers: seq<SubmittedAnswer>) returns (correctAnswers: nat)
      requires Valid()
      modifies context
      ensures Valid()
      ensures correctAnswers == Score(questions, answers)
      ensures context.nextId == old(context.nextId) + |Accepted(questions, answers)|
      ensures RecordedFrom(old(context.studentAnswers), context.studentAnswers, old(context.nextId), attemptId, Accepted(questions, answers))
      ensures context.State() == old(context.State()).(studentAnswers := context.studentAnswers, nextId := context.nextId)
    {
      correctAnswers := 0;
      ghost var recorded: seq<SubmittedAnswer> := [];
      ghost var s0 := context.State();
      for i := 0 to |answers|
        invariant Valid()
        invariant recorded == Accepted(questions, answers[..i])
        invariant correctAnswers == Score(questions, answers[..i])
        invariant Progress(s0, context.State(), attemptId, recorded)
      {
        var answer := answers[i];
        PrefixSnoc(questions, answers, i);
        var question := FindQuestion(questions, answer.questionId);
        if question.Some? {
          var isCorrect := question.value.correctAnswerId == answer.answerId;
          ProgressSnoc(s0, context.State(), attemptId, recorded, answer);
          RecordAnswer(attemptId, answer);
          recorded := recorded + [answer];
          if isCorrect {
            correctAnswers := correctAnswers + 1;
          }
        }
      }
      assert answers[..|answers|] == answers;
    }

    /** One recorded pair: a `StudentAnswer` under a fresh key, filed against the attempt. */
    method RecordAnswer(attemptId: Guid, answer: SubmittedAnswer)
      requires Valid()
      modifies context
      ensures Valid()
      ensures context.State() == old(context.State()).(
        studentAnswers := old(context.studentAnswers) +
          [Row(old(context.nextId), StudentAnswer(attemptId, answer.questionId, answer.answerId))],
        nextId := old(context.nextId) + 1)
    {
      var id := context.NewGuid();
      assert !HasKey(context.studentAnswers, id);
      var _ := repository.AddStudentAnswerAsync(Row(id, StudentAnswer(attemptId, answer.questionId, answer.answerId)));
    }

    /** `DeleteQuizAsync`: the repository's delete. */
    method DeleteQuizAsync(quizId: Guid) returns (r: Result<()>)
      requires Valid()
      modifies context
      ensures Valid()
      ensures r.Ok? <==> old(HasKey(context.quizzes, quizId))
      ensures r.Err? ==> r.error == KeyNotFound && context.State() == old(context.State())
      ensures r.Ok? ==> context.State() == old(context.State()).(quizzes := RemoveKey(old(context.quizzes), quizId))
    {
      r := repository.DeleteQuizAsync(quizId);
    }
  }
}
