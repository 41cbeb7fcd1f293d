/**
 * `QuizRepository`: the quiz store over the context's Quizzes, StudentQuizzes and
 * StudentAnswers tables. Each write method is one `SaveChangesAsync` unit: it either applies
 * its one change or, when EF Core would throw, changes nothing and reports the failure.
 */
module QuizRepository {
  import opened Wrappers
  import opened Tables
  import opened Entities
  import opened Data

  // ---------------------------------------------------------------------------------------
  // Keys of an added quiz graph
  // ---------------------------------------------------------------------------------------

  /** The keys `lo`, `lo + 1`, ..., `hi - 1`. */
  function Range(lo: nat, hi: nat): (r: seq<Guid>)
    requires lo <= hi
    ensures |r| == hi - lo
    ensures forall i :: 0 <= i < |r| ==> r[i] == lo + i
  {
    seq(hi - lo, i requires 0 <= i < hi - lo => lo + i)
  }

  /** Answers as stored: keys drawn from `next` on, each pointing at its question. */
  function KeyAnswers(answers: seq<Answer>, questionId: Guid, next: Guid): (r: seq<Answer>)
    ensures |r| == |answers|
    ensures forall j :: 0 <= j < |r| ==> r[j] == answers[j].(id := next + j, questionId := questionId)
    ensures AnswerKeys(r) == Range(next, next + |answers|)
  {
    seq(|answers|, j requires 0 <= j < |answers| => answers[j].(id := next + j, questionId := questionId))
  }

  /** The number of keys a question graph draws: one per question and one per answer. */
  function KeyCount(questions: seq<Question>): nat {
    if |questions| == 0 then 0 else 1 + |questions[0].answers| + KeyCount(questions[1..])
  }

  /** `q` is `source` as stored under the quiz `quizId`: same text, answers and flags, fresh keys, fixed-up foreign keys. */
  predicate StoredFrom(q: Question, source: Question, quizId: Guid) {
    && q.text == source.text
    && q.quizId == quizId
    && q.correctAnswerId == source.correctAnswerId
    && |q.answers| == |source.answers|
    && forall j :: 0 <= j < |q.answers| ==>
         q.answers[j] == source.answers[j].(id := q.answers[j].id, questionId := q.id)
  }

  /** No two answers of the question share a key. */
  predicate DistinctAnswerKeys(q: Question) {
    forall j, k :: 0 <= j < k < |q.answers| ==> q.answers[j].id != q.answers[k].id
  }

  /**
   * The questions of a quiz added under the key `quizId`, as EF Core stores them: every
   * question and answer gets a key, in order from `next`, and its foreign key is fixed up.
   */
  function KeyQuestions(questions: seq<Question>, quizId: Guid, next: Guid): (r: seq<Question>)
    ensures |r| == |questions|
    ensures forall i :: 0 <= i < |r| ==> StoredFrom(r[i], questions[i], quizId) && DistinctAnswerKeys(r[i])
    ensures QuestionKeys(r) == Range(next, next + KeyCount(questions))
    decreases |questions|
  {
    if |questions| == 0 then []
    else
      var q := questions[0];
      var first := q.(id := next, quizId := quizId, answers := KeyAnswers(q.answers, next, next + 1));
      var rest := KeyQuestions(questions[1..], quizId, next + 1 + |q.answers|);
      var r := [first] + rest;
      assert r[0] == first && r[1..] == rest;
      assert QuestionKeys(r) == [next] + Range(next + 1, next + 1 + |q.answers|) + QuestionKeys(rest);
      r
  }

  /** A quiz added to a database whose generator is at `next`: the quiz key is `next`, the rest follow it. */
  function Stored(quiz: Quiz, next: Guid): Row<Quiz> {
    Row(next, quiz.(questions := KeyQuestions(quiz.questions, next, next + 1)))
  }

  // ---------------------------------------------------------------------------------------
  // Queries
  // ---------------------------------------------------------------------------------------

  /** `GetByIdAsync`: the quiz with that key, with its questions and answers, or null. */
  function GetById(quizzes: Table<Quiz>, id: Guid): (r: Option<Row<Quiz>>)
    ensures r.None? <==> forall i :: 0 <= i < |quizzes| ==> quizzes[i].id != id
    ensures r.Some? ==> r.value.id == id && r.value in quizzes
  {
    Find(quizzes, id)
  }

  /** The filter `sq => sq.StudentId == studentId && sq.QuizId == quizId`. */
  function AttemptOf(studentId: Guid, quizId: Guid): Row<StudentQuiz> -> bool {
    (a: Row<StudentQuiz>) => a.val.studentId == studentId && a.val.quizId == quizId
  }

  /** `GetStudentQuizAsync`: the first attempt of this student at this quiz, or null. */
  function GetStudentQuiz(attempts: Table<StudentQuiz>, studentId: Guid, quizId: Guid): (r: Option<Row<StudentQuiz>>)
    ensures r.None? <==> forall i :: 0 <= i < |attempts| ==>
      !(attempts[i].val.studentId == studentId && attempts[i].val.quizId == quizId)
    ensures r.Some? ==> r.value in attempts && r.value.val.studentId == studentId && r.value.val.quizId == quizId
  {
    FirstOrDefault(attempts, AttemptOf(studentId, quizId))
  }

  // ---------------------------------------------------------------------------------------
  // The repository
  // ---------------------------------------------------------------------------------------

  class QuizRepository {
    const context: ApplicationDbContext

    constructor (context: ApplicationDbContext)
      ensures this.context == context
    {
      this.context := context;
    }

    /** `AddAsync`: stores the quiz graph under fresh keys; after it, `GetByIdAsync` finds it. */
    method AddAsync(quiz: Quiz) returns (stored: Row<Quiz>)
      requires context.Valid()
      modifies context`quizzes, context`nextId
      ensures context.Valid()
      ensures stored == Stored(quiz, old(context.nextId))
      ensures GetById(context.quizzes, stored.id) == Some(stored)
      ensures context.State() == old(context.State()).(
        quizzes := old(context.quizzes) + [stored],
        nextId := old(context.nextId) + 1 + KeyCount(quiz.questions))
    {
      var next := context.nextId;
      stored := Stored(quiz, next);
      var after := next + 1 + KeyCount(quiz.questions);
      StoredKeysBelow(quiz, next);
      ghost var s := context.State();
      AddQuizValid(s, stored, after);
      context.quizzes := context.quizzes + [stored];
      context.nextId := after;
      assert context.State() == s.(quizzes := s.quizzes + [stored], nextId := after);
    }

    /** `UpdateAsync`: replaces the stored quiz graph with the same key; a key not in the table fails. */
    method UpdateAsync(quiz: Row<Quiz>) returns (r: Result<()>)
      requires context.Valid()
      requires KeysBelow(quiz.val, context.nextId)
      modifies context`quizzes
      ensures context.Valid()
      ensures r.Ok? <==> old(HasKey(context.quizzes, quiz.id))
      ensures r.Err? ==> r.error == Concurrency && context.State() == old(context.State())
      ensures r.Ok? ==> context.State() == old(context.State()).(quizzes := Replace(old(context.quizzes), quiz))
      ensures r.Ok? ==> forall id :: (GetById(context.quizzes, id) ==
        if id == quiz.id then Some(quiz) else old(GetById(context.quizzes, id)))
    {
      if !HasKey(context.quizzes, quiz.id) {
        return Err(Concurrency);
      }
      ghost var old_quizzes := context.quizzes;
      forall id ensures Find(Replace(old_quizzes, quiz), id) == if id == quiz.id then Some(quiz) else Find(old_quizzes, id) {
        ReplaceKeyed(old_quizzes, context.nextId, quiz, id);
      }
      ReplaceKeyed(old_quizzes, context.nextId, quiz, quiz.id);
      ghost var s := context.State();
      ReplaceQuizValid(s, quiz);
      context.quizzes := Replace(context.quizzes, quiz);
      assert context.State() == s.(quizzes := context.quizzes);
      r := Ok(());
    }

    /** `AddStudentQuizAsync`: appends the attempt, whose key the caller drew; a key already in use fails. */
    method AddStudentQuizAsync(attempt: Row<StudentQuiz>) returns (r: Result<()>)
      requires context.Valid()
      requires 0 < attempt.id < context.nextId
      modifies context`studentQuizzes
      ensures context.Valid()
      ensures r.Ok? <==> !old(HasKey(context.studentQuizzes, attempt.id))
      ensures r.Err? ==> r.error == GeneralError && context.State() == old(context.State())
      ensures r.Ok? ==> context.State() == old(context.State()).(studentQuizzes := old(context.studentQuizzes) + [attempt])
    {
      if HasKey(context.studentQuizzes, attempt.id) {
        return Err(GeneralError);
      }
      ghost var s := context.State();
      AddFresh(s.studentQuizzes, s.nextId, attempt);
      ValidWithAttempts(s, s.studentQuizzes + [attempt]);
      context.studentQuizzes := context.studentQuizzes + [attempt];
      assert context.State() == s.(studentQuizzes := context.studentQuizzes);
      r := Ok(());
    }

    /** `AddStudentAnswerAsync`: appends the answer, whose key the caller drew; a key already in use fails. */
    method AddStudentAnswerAsync(answer: Row<StudentAnswer>) returns (r: Result<()>)
      requires context.Valid()
      requires 0 < answer.id < context.nextId
      modifies context`studentAnswers
      ensures context.Valid()
      ensures r.Ok? <==> !old(HasKey(context.studentAnswers, answer.id))
      ensures r.Err? ==> r.error == GeneralError && context.State() == old(context.State())
      ensures r.Ok? ==> context.State() == old(context.State()).(studentAnswers := old(context.studentAnswers) + [answer])
    {
      if HasKey(context.studentAnswers, answer.id) {
        return Err(GeneralError);
      }
      ghost var s := context.State();
      AddFresh(s.studentAnswers, s.nextId, answer);
      ValidWithAnswers(s, s.studentAnswers + [answer]);
      context.studentAnswers := context.studentAnswers + [answer];
      assert context.State() == s.(studentAnswers := context.studentAnswers);
      r := Ok(());
    }

    /** `UpdateStudentQuizAsync`: replaces the attempt with the same key and no other; a key not in the table fails. */
    method UpdateStudentQuizAsync(attempt: Row<StudentQuiz>) returns (r: Result<()>)
      requires context.Valid()
      modifies context`studentQuizzes
      ensures context.Valid()
      ensures r.Ok? <==> old(HasKey(context.studentQuizzes, attempt.id))
      ensures r.Err? ==> r.error == Concurrency && context.State() == old(context.State())
      ensures r.Ok? ==> context.State() == old(context.State()).(studentQuizzes := Replace(old(context.studentQuizzes), attempt))
      ensures r.Ok? ==> forall id :: (Find(context.studentQuizzes, id) ==
        if id == attempt.id then Some(attempt) else old(Find(context.studentQuizzes, id)))
    {
      if !HasKey(context.studentQuizzes, attempt.id) {
        return Err(Concurrency);
      }
      ghost var t := context.studentQuizzes;
      forall id ensures Find(Replace(t, attempt), id) == if id == attempt.id then Some(attempt) else Find(t, id) {
        ReplaceKeyed(t, context.nextId, attempt, id);
      }
      ReplaceKeyed(t, context.nextId, attempt, attempt.id);
      ghost var s := context.State();
      ValidWithAttempts(s, Replace(t, attempt));
      context.studentQuizzes := Replace(context.studentQuizzes, attempt);
      assert context.State() == s.(studentQuizzes := context.studentQuizzes);
      r := Ok(());
    }

    /** `DeleteQuizAsync`: a missing key throws `KeyNotFoundException`; otherwise that quiz and no other is removed. */
    method DeleteQuizAsync(quizId: Guid) returns (r: Result<()>)
      requires context.Valid()
      modifies context`quizzes
      ensures context.Valid()
      ensures r.Ok? <==> old(HasKey(context.quizzes, quizId))
      ensures r.Err? ==> r.error == KeyNotFound && context.State() == old(context.State())
      ensures r.Ok? ==> context.State() == old(context.State()).(quizzes := RemoveKey(old(context.quizzes), quizId))
      ensures r.Ok? ==> |context.quizzes| == |old(context.quizzes)| - 1 && GetById(context.quizzes, quizId).None?
      ensures r.Ok? ==> forall id :: id != quizId ==> GetById(context.quizzes, id) == old(GetById(context.quizzes, id))
    {
      var quiz := Find(context.quizzes, quizId);
      if quiz.None? {
        return Err(KeyNotFound);
      }
      ghost var t := context.quizzes;
      forall id | id != quizId ensures Find(RemoveKey(t, quizId), id) == Find(t, id) {
        RemoveKeyed(t, context.nextId, quizId, id);
      }
      FilterKeyed(t, context.nextId, (row: Row<Quiz>) => row.id != quizId);
      RemoveKeyCount(t, context.nextId, quizId);
      ghost var s := context.State();
      RemoveQuizValid(s, quizId);
      context.quizzes := RemoveKey(context.quizzes, quizId);
      assert context.State() == s.(quizzes := context.quizzes);
      r := Ok(());
    }
  }

  /** The keys of a stored quiz graph all lie between the generator before and after the add. */
  lemma StoredKeysBelow(quiz: Quiz, next: Guid)
    requires 0 < next
    ensures KeysBelow(Stored(quiz, next).val, next + 1 + KeyCount(quiz.questions))
  {
    var keys := QuestionKeys(Stored(quiz, next).val.questions);
    forall k | k in keys ensures 0 < k < next + 1 + KeyCount(quiz.questions) {
      var i :| 0 <= i < |keys| && keys[i] == k;
    }
  }

  /** Adding a quiz graph whose keys were all just drawn keeps the database invariant, and the quiz is found under its key. */
  lemma AddQuizValid(s: DbState, stored: Row<Quiz>, after: Guid)
    requires ValidState(s)
    requires stored.id == s.nextId < after && KeysBelow(stored.val, after)
    ensures ValidState(s.(quizzes := s.quizzes + [stored], nextId := after))
    ensures GetById(s.quizzes + [stored], stored.id) == Some(stored)
  {
    KeyedAdd(s.quizzes, s.nextId, stored);
    KeyedRaise(s.quizzes + [stored], s.nextId + 1, after);
    RaiseNext(s, after);
    FindAfterAdd(s.quizzes, stored, stored.id);
    var t := s.(quizzes := s.quizzes + [stored], nextId := after);
    forall i | 0 <= i < |t.quizzes| ensures KeysBelow(t.quizzes[i].val, after) {
      if i < |s.quizzes| {
        assert KeysBelow(s.quizzes[i].val, s.nextId);
      }
    }
  }

  /** Replacing a stored quiz by a graph whose keys were all issued keeps the database invariant. */
  lemma ReplaceQuizValid(s: DbState, quiz: Row<Quiz>)
    requires ValidState(s) && HasKey(s.quizzes, quiz.id) && KeysBelow(quiz.val, s.nextId)
    ensures ValidState(s.(quizzes := Replace(s.quizzes, quiz)))
  {
    ReplaceKeyed(s.quizzes, s.nextId, quiz, quiz.id);
    var t := Replace(s.quizzes, quiz);
    forall i | 0 <= i < |t| ensures KeysBelow(t[i].val, s.nextId) {
      if t[i] != quiz {
        assert t[i] == s.quizzes[i];
      }
    }
    ValidWithQuizzes(s, t);
  }

  /** Removing a quiz keeps the database invariant. */
  lemma RemoveQuizValid(s: DbState, quizId: Guid)
    requires ValidState(s)
    ensures ValidState(s.(quizzes := RemoveKey(s.quizzes, quizId)))
  {
    FilterKeyed(s.quizzes, s.nextId, (row: Row<Quiz>) => row.id != quizId);
    var t := RemoveKey(s.quizzes, quizId);
    forall i | 0 <= i < |t| ensures KeysBelow(t[i].val, s.nextId) {
      var j :| 0 <= j < |s.quizzes| && s.quizzes[j] == t[i];
    }
    ValidWithQuizzes(s, t);
  }

  /** Appending a row under an unused key below the generator keeps the table keyed. */
  lemma AddFresh<T>(t: Table<T>, next: Guid, row: Row<T>)
    requires Keyed(t, next) && 0 < row.id < next && !HasKey(t, row.id)
    ensures Keyed(t + [row], next)
  {
  }
}
