/**
 * `CourseService`: an instructor uploads lessons to a course, lists a course's lessons page by
 * page in name order, and reads one lesson.
 */
module CourseService {
  import opened Wrappers
  import opened Tables
  import opened Entities
  import opened Dto
  import opened Data
  import opened Paging
  import opened Text

  // ---------------------------------------------------------------------------------------
  // Lesson names within a course
  // ---------------------------------------------------------------------------------------

  /** Some lesson of the course already carries the name. */
  predicate HasLessonNamed(lessons: Table<Lesson>, name: string, courseId: Guid) {
    exists i :: 0 <= i < |lessons| && lessons[i].val.name == name && lessons[i].val.courseId == courseId
  }

  /** No two lessons of one course share a name: what the duplicate check of an upload keeps. */
  ghost predicate UniqueLessonNames(lessons: Table<Lesson>) {
    forall i, j :: 0 <= i < j < |lessons| && lessons[i].val.courseId == lessons[j].val.courseId ==>
      lessons[i].val.name != lessons[j].val.name
  }

  /** Appending a lesson keeps the names of every course unique exactly when its course lacks that name. */
  lemma AddLessonKeepsUnique(lessons: Table<Lesson>, row: Row<Lesson>)
    requires UniqueLessonNames(lessons)
    ensures UniqueLessonNames(lessons + [row]) <==> !HasLessonNamed(lessons, row.val.name, row.val.courseId)
  {
    var t := lessons + [row];
    if HasLessonNamed(lessons, row.val.name, row.val.courseId) {
      var i :| 0 <= i < |lessons| && lessons[i].val.name == row.val.name && lessons[i].val.courseId == row.val.courseId;
      assert t[i] == lessons[i] && t[|lessons|] == row;
    }
  }

  // ---------------------------------------------------------------------------------------
  // The lesson listing
  // ---------------------------------------------------------------------------------------

  /** The ordering key `l => l.Name`. */
  function LessonName(l: Row<Lesson>): string {
    l.val.name
  }

  /** `l.Quizzes.Select(q => new { q.Id, q.Description })`. */
  function Summaries(quizzes: Table<Quiz>): (r: seq<QuizSummary>)
    ensures |r| == |quizzes|
    ensures forall k :: 0 <= k < |r| ==> r[k] == QuizSummary(quizzes[k].id, quizzes[k].val.description)
  {
    seq(|quizzes|, k requires 0 <= k < |quizzes| => QuizSummary(quizzes[k].id, quizzes[k].val.description))
  }

  /** The projection of one lesson: its columns, its course's name and a summary of each of its quizzes. */
  function Listing(l: Row<Lesson>, courseName: string, quizzes: Table<Quiz>): LessonListing {
    LessonListing(l.id, l.val.name, l.val.description, l.val.courseId, courseName,
                  Summaries(Filter(quizzes, OfLesson(l.id))))
  }

  function Listings(ls: Table<Lesson>, courseName: string, quizzes: Table<Quiz>): (r: seq<LessonListing>)
    ensures |r| == |ls|
    ensures forall k :: 0 <= k < |r| ==> r[k] == Listing(ls[k], courseName, quizzes)
    ensures SortedBy(ls, LessonName) ==> forall i, j :: 0 <= i < j < |r| ==> OrdinalLe(r[i].name, r[j].name)
  {
    seq(|ls|, k requires 0 <= k < |ls| => Listing(ls[k], courseName, quizzes))
  }

  /** A permutation of a filtered sequence holds only elements of the sequence that pass the filter. */
  lemma PermutedFilter<T>(s: seq<T>, p: T -> bool, r: seq<T>)
    requires multiset(r) == multiset(Filter(s, p))
    ensures |r| <= |s|
    ensures forall k :: 0 <= k < |r| ==> r[k] in s && p(r[k])
  {
    var f := Filter(s, p);
    assert |multiset(r)| == |multiset(f)|;
    forall k | 0 <= k < |r| ensures r[k] in s && p(r[k]) {
      assert r[k] in multiset(r);
      var i :| 0 <= i < |f| && f[i] == r[k];
    }
  }

  /** A permutation of the course's lessons holds only lessons of the course, no more than the table has. */
  lemma PermutedFilterSound(lessons: Table<Lesson>, courseId: Guid, r: Table<Lesson>)
    requires multiset(r) == multiset(Filter(lessons, InCourse(courseId)))
    ensures |r| <= |lessons|
    ensures forall k :: 0 <= k < |r| ==> r[k] in lessons && r[k].val.courseId == courseId
  {
    PermutedFilter(lessons, InCourse(courseId), r);
    forall k | 0 <= k < |r| ensures r[k] in lessons && r[k].val.courseId == courseId {
      assert InCourse(courseId)(r[k]);
    }
  }

  /** A permutation of the course's lessons holds every lesson of the course. */
  lemma PermutedFilterComplete(lessons: Table<Lesson>, courseId: Guid, r: Table<Lesson>)
    requires multiset(r) == multiset(Filter(lessons, InCourse(courseId)))
    ensures forall j :: 0 <= j < |lessons| && lessons[j].val.courseId == courseId ==> lessons[j] in r
  {
    var f := Filter(lessons, InCourse(courseId));
    forall j | 0 <= j < |lessons| && lessons[j].val.courseId == courseId ensures lessons[j] in r {
      assert lessons[j] in f;
      assert lessons[j] in multiset(r);
    }
  }

  /** The lessons of the course in ordinal name order, each lesson once. */
  function CourseLessons(lessons: Table<Lesson>, courseId: Guid): (r: Table<Lesson>)
    ensures SortedBy(r, LessonName)
    ensures multiset(r) == multiset(Filter(lessons, InCourse(courseId))) && |r| <= |lessons|
    ensures forall k :: 0 <= k < |r| ==> r[k] in lessons && r[k].val.courseId == courseId
    ensures forall j :: 0 <= j < |lessons| && lessons[j].val.courseId == courseId ==> lessons[j] in r
  {
    var r := OrderBy(Filter(lessons, InCourse(courseId)), LessonName);
    PermutedFilterSound(lessons, courseId, r);
    PermutedFilterComplete(lessons, courseId, r);
    r
  }

  /** A page of a sorted sequence is sorted. */
  lemma PageSorted(s: Table<Lesson>, skip: int, take: int)
    requires SortedBy(s, LessonName)
    ensures SortedBy(Page(s, skip, take), LessonName)
  {
    var r := Page(s, skip, take);
    forall i, j | 0 <= i < j < |r| ensures OrdinalLe(LessonName(r[i]), LessonName(r[j])) {
      assert r[i] == s[Max0(skip) + i] && r[j] == s[Max0(skip) + j];
    }
  }

  /**
   * `r` is the page of the listing of `s` that skips `skip` lessons: the next `pageSize`
   * lessons (fewer at the end), each with the course name and its quizzes, or nothing past the end.
   */
  predicate ListsPage(r: seq<LessonListing>, s: Table<Lesson>, skip: int, pageSize: int, courseName: string, quizzes: Table<Quiz>) {
    && 0 <= skip
    && (skip < |s| ==> (|r| == Min(pageSize, |s| - skip) &&
          forall i :: 0 <= i < |r| ==> r[i] == Listing(s[skip + i], courseName, quizzes)))
    && (|s| <= skip ==> |r| == 0)
  }

  /** Listing the page that `Skip(skip).Take(pageSize)` cuts from `s` lists exactly that page. */
  lemma ListingsPage(s: Table<Lesson>, skip: int, pageSize: int, courseName: string, quizzes: Table<Quiz>)
    requires 0 <= skip && 0 < pageSize
    ensures ListsPage(Listings(Page(s, skip, pageSize), courseName, quizzes), s, skip, pageSize, courseName, quizzes)
  {
  }

  /** A page of a course's listing holds at most `pageSize` lessons of that course, in name order. */
  lemma LessonsPage(lessons: Table<Lesson>, quizzes: Table<Quiz>, courseId: Guid, courseName: string,
                    pageNumber: Int32, pageSize: Int32)
    requires 0 < pageNumber && 0 < pageSize
    ensures var r := Listings(Page(CourseLessons(lessons, courseId), SkipCount(pageNumber, pageSize), pageSize), courseName, quizzes);
      && |r| <= pageSize
      && (forall i :: 0 <= i < |r| ==> exists j :: (0 <= j < |lessons| &&
            lessons[j].val.courseId == courseId && r[i] == Listing(lessons[j], courseName, quizzes)))
      && (forall i, j :: 0 <= i < j < |r| ==> OrdinalLe(r[i].name, r[j].name))
  {
    var sorted := CourseLessons(lessons, courseId);
    var page := Page(sorted, SkipCount(pageNumber, pageSize), pageSize);
    var r := Listings(page, courseName, quizzes);
    PageSorted(sorted, SkipCount(pageNumber, pageSize), pageSize);
    forall i | 0 <= i < |r| ensures exists j :: (0 <= j < |lessons| &&
        lessons[j].val.courseId == courseId && r[i] == Listing(lessons[j], courseName, quizzes)) {
      assert page[i] in sorted;
      var j :| 0 <= j < |lessons| && lessons[j] == page[i];
      assert r[i] == Listing(lessons[j], courseName, quizzes);
    }
  }

  /**
   * When `(pageNumber - 1) * pageSize` fits in an `int`, a page of a course's listing is exactly
   * the window that `Skip` of that many lessons leaves.
   */
  lemma LessonsPageWindow(lessons: Table<Lesson>, quizzes: Table<Quiz>, courseId: Guid, courseName: string,
                          pageNumber: Int32, pageSize: Int32)
    requires 0 < pageNumber && 0 < pageSize && (pageNumber - 1) * pageSize <= MaxInt32
    ensures ListsPage(Listings(Page(CourseLessons(lessons, courseId), SkipCount(pageNumber, pageSize), pageSize), courseName, quizzes),
                      CourseLessons(lessons, courseId), (pageNumber - 1) * pageSize, pageSize, courseName, quizzes)
  {
    var sorted := CourseLessons(lessons, courseId);
    PageOf(sorted, pageNumber, pageSize);
    ListingsPage(sorted, (pageNumber - 1) * pageSize, pageSize, courseName, quizzes);
  }

  /**
   * `GetAllLessonsAsync`: an empty instructor or course key throws `ArgumentNullException`, a
   * page number or size of zero or less `ArgumentOutOfRangeException`, and a course that does
   * not exist or belongs to someone else `InvalidOperationException`. Otherwise one page of the
   * course's lessons in name order, each projected with its course's name and its quizzes.
   */
  function GetAllLessons(courses: Table<Course>, lessons: Table<Lesson>, quizzes: Table<Quiz>,
                         instructorId: Guid, courseId: Guid, pageNumber: Int32, pageSize: Int32)
    : (r: Result<seq<LessonListing>>)
    ensures r.Ok? <==> (instructorId != EmptyGuid && courseId != EmptyGuid && 0 < pageNumber && 0 < pageSize &&
      Owns(courses, instructorId, courseId))
    ensures r.Err? ==> (r.error == (
      if instructorId == EmptyGuid || courseId == EmptyGuid then ArgumentNull
      else if pageNumber <= 0 || pageSize <= 0 then ArgumentOutOfRange
      else InvalidOperation))
    ensures r.Ok? ==> HasKey(courses, courseId) && |r.value| <= pageSize
    ensures r.Ok? ==> forall i :: 0 <= i < |r.value| ==> exists j :: (0 <= j < |lessons| &&
      lessons[j].val.courseId == courseId &&
      r.value[i] == Listing(lessons[j], Find(courses, courseId).value.val.name, quizzes))
    ensures r.Ok? ==> forall i, j :: 0 <= i < j < |r.value| ==> OrdinalLe(r.value[i].name, r.value[j].name)
    ensures r.Ok? && (pageNumber - 1) * pageSize <= MaxInt32 ==>
      ListsPage(r.value, CourseLessons(lessons, courseId), (pageNumber - 1) * pageSize, pageSize,
                Find(courses, courseId).value.val.name, quizzes)
  {
    if instructorId == EmptyGuid then Err(ArgumentNull)
    else if courseId == EmptyGuid then Err(ArgumentNull)
    else if pageNumber <= 0 then Err(ArgumentOutOfRange)
    else if pageSize <= 0 then Err(ArgumentOutOfRange)
    else
      var course := FirstOrDefault(courses, OwnedBy(instructorId, courseId));
      if course.None? then Err(InvalidOperation)
      else
        var sorted := CourseLessons(lessons, course.value.id);
        var page := Page(sorted, SkipCount(pageNumber, pageSize), pageSize);
        var r := Listings(page, Find(courses, courseId).value.val.name, quizzes);
        LessonsPage(lessons, quizzes, courseId, Find(courses, courseId).value.val.name, pageNumber, pageSize);
        if (pageNumber - 1) * pageSize <= MaxInt32 then
          LessonsPageWindow(lessons, quizzes, courseId, Find(courses, courseId).value.val.name, pageNumber, pageSize);
          Ok(r)
        else Ok(r)
  }

  /** The lesson appears on the given page of its course's listing. */
  predicate ListedOnPage(courses: Table<Course>, lessons: Table<Lesson>, quizzes: Table<Quiz>,
                         instructorId: Guid, courseId: Guid, pageNumber: Int32, pageSize: Int32, l: Row<Lesson>)
    requires HasKey(courses, courseId)
  {
    var r := GetAllLessons(courses, lessons, quizzes, instructorId, courseId, pageNumber, pageSize);
    r.Ok? && Listing(l, Find(courses, courseId).value.val.name, quizzes) in r.value
  }

  /**
   * Paging loses no lesson: every lesson of an instructor's course is listed on some page,
   * whatever the page size, as long as the course has fewer lessons than an `int` can count.
   */
  lemma EveryLessonListed(courses: Table<Course>, lessons: Table<Lesson>, quizzes: Table<Quiz>,
                          instructorId: Guid, courseId: Guid, pageSize: Int32, j: int)
    requires instructorId != EmptyGuid && courseId != EmptyGuid && 0 < pageSize
    requires Owns(courses, instructorId, courseId)
    requires |lessons| <= MaxInt32
    requires 0 <= j < |lessons| && lessons[j].val.courseId == courseId
    ensures HasKey(courses, courseId)
    ensures exists p: Int32 :: 1 <= p && ListedOnPage(courses, lessons, quizzes, instructorId, courseId, p, pageSize, lessons[j])
  {
    var sorted := CourseLessons(lessons, courseId);
    var k :| 0 <= k < |sorted| && sorted[k] == lessons[j];
    var p, idx := PageContaining(sorted, k, pageSize);
    var r := GetAllLessons(courses, lessons, quizzes, instructorId, courseId, p, pageSize);
    assert r.value[idx] == Listing(lessons[j], Find(courses, courseId).value.val.name, quizzes);
    assert ListedOnPage(courses, lessons, quizzes, instructorId, courseId, p, pageSize, lessons[j]);
  }

  // ---------------------------------------------------------------------------------------
  // One lesson
  // ---------------------------------------------------------------------------------------

  /**
   * `GetLessonByIdAsync`: a missing lesson throws `ArgumentNullException`, a lesson of another
   * instructor's course `UnauthorizedAccessException`, and a lesson whose course row is missing
   * dereferences null. Otherwise the lesson itself.
   */
  function GetLessonById(lessons: Table<Lesson>, courses: Table<Course>, id: Guid, instructorId: Guid)
    : (r: Result<Row<Lesson>>)
    ensures r.Err? <==> (!HasKey(lessons, id) || !HasKey(courses, Find(lessons, id).value.val.courseId) ||
      Find(courses, Find(lessons, id).value.val.courseId).value.val.instructorId != instructorId)
    ensures r.Err? ==> (r.error == (
      if !HasKey(lessons, id) then ArgumentNull
      else if !HasKey(courses, Find(lessons, id).value.val.courseId) then NullReference
      else Unauthorized))
    ensures r.Ok? ==> r.value in lessons && r.value.id == id
  {
    var lesson := Find(lessons, id);
    if lesson.None? then Err(ArgumentNull)
    else
      var course := Find(courses, lesson.value.val.courseId);
      if course.None? then Err(NullReference)
      else if course.value.val.instructorId != instructorId then Err(Unauthorized)
      else Ok(lesson.value)
  }

  /** An uploaded lesson is what its instructor then reads back under its key. */
  lemma UploadedLessonReadable(lessons: Table<Lesson>, courses: Table<Course>, row: Row<Lesson>, instructorId: Guid)
    requires !HasKey(lessons, row.id)
    requires HasKey(courses, row.val.courseId) && Find(courses, row.val.courseId).value.val.instructorId == instructorId
    ensures GetLessonById(lessons + [row], courses, row.id, instructorId) == Ok(row)
  {
    FindAfterAdd(lessons, row, row.id);
  }

  // ---------------------------------------------------------------------------------------
  // The service
  // ---------------------------------------------------------------------------------------

  class CourseService {
    const context: ApplicationDbContext

    constructor (context: ApplicationDbContext)
      ensures this.context == context
    {
      this.context := context;
    }

    /**
     * `UploadLessonAsync`: a null model throws `ArgumentNullException`; an empty course key or
     * an unknown course `ArgumentException`; a course of another instructor
     * `UnauthorizedAccessException`; a lesson of the same name already in the course
     * `InvalidOperationException`. Otherwise the lesson is stored under a fresh key and returned.
     */
    method UploadLesson(model: Option<LessonDto>, instructorId: Guid) returns (r: Result<Row<Lesson>>)
      requires context.Valid()
      modifies context`lessons, context`nextId
      ensures context.Valid()
      ensures model.None? ==> r == Err(ArgumentNull)
      ensures model.Some? && (model.value.courseId == EmptyGuid || !HasKey(context.courses, model.value.courseId)) ==>
        r == Err(ArgumentError)
      ensures model.Some? && model.value.courseId != EmptyGuid && HasKey(context.courses, model.value.courseId) ==>
        (Find(context.courses, model.value.courseId).value.val.instructorId != instructorId ==> r == Err(Unauthorized))
      ensures (model.Some? && model.value.courseId != EmptyGuid && Owns(context.courses, instructorId, model.value.courseId) &&
        old(HasLessonNamed(context.lessons, model.value.name, model.value.courseId))) ==> r == Err(InvalidOperation)
      ensures r.Ok? <==> (model.Some? && model.value.courseId != EmptyGuid &&
        Owns(context.courses, instructorId, model.value.courseId) &&
        !old(HasLessonNamed(context.lessons, model.value.name, model.value.courseId)))
      ensures r.Err? ==> context.State() == old(context.State())
      ensures r.Ok? ==> (r.value == Row(old(context.nextId), Lesson(model.value.name, model.value.description, model.value.courseId)) &&
        !old(HasKey(context.lessons, r.value.id)) &&
        context.State() == old(context.State()).(lessons := old(context.lessons) + [r.value], nextId := r.value.id + 1))
      ensures UniqueLessonNames(old(context.lessons)) ==> UniqueLessonNames(context.lessons)
    {
      OwnsFind(context.courses, context.nextId, instructorId, if model.Some? then model.value.courseId else EmptyGuid);
      if model.None? {
        return Err(ArgumentNull);
      }
      var dto := model.value;
      if dto.courseId == EmptyGuid {
        return Err(ArgumentError);
      }
      var course := Find(context.courses, dto.courseId);
      if course.None? {
        return Err(ArgumentError);
      }
      if course.value.val.instructorId != instructorId {
        return Err(Unauthorized);
      }
      var existing := exists i :: 0 <= i < |context.lessons| && context.lessons[i].val.name == dto.name && context.lessons[i].val.courseId == dto.courseId;
      if existing {
        return Err(InvalidOperation);
      }
      var lesson := StoreLesson(Lesson(dto.name, dto.description, dto.courseId));
      r := Ok(lesson);
    }

    /** `Lessons.Add` and `SaveChangesAsync`: the lesson is appended under a fresh key. */
    method StoreLesson(lesson: Lesson) returns (row: Row<Lesson>)
      requires context.Valid()
      modifies context`lessons, context`nextId
      ensures context.Valid()
      ensures row == Row(old(context.nextId), lesson) && !old(HasKey(context.lessons, row.id))
      ensures context.State() == old(context.State()).(lessons := old(context.lessons) + [row], nextId := row.id + 1)
      ensures UniqueLessonNames(old(context.lessons)) && !old(HasLessonNamed(context.lessons, lesson.name, lesson.courseId)) ==>
        UniqueLessonNames(context.lessons)
    {
      ghost var s := context.State();
      var id := context.NewGuid();
      row := Row(id, lesson);
      KeyedAdd(s.lessons, s.nextId, row);
      if UniqueLessonNames(s.lessons) {
        AddLessonKeepsUnique(s.lessons, row);
      }
      ValidWithLessons(context.State(), s.lessons + [row]);
      context.lessons := context.lessons + [row];
      assert context.State() == s.(lessons := s.lessons + [row], nextId := id + 1);
    }
  }
}
