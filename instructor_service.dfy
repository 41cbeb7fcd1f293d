/**
 * `InstructorService`: an instructor creates, updates and deletes courses; the course views
 * by key (with the role-based access decision), by instructor and page by page.
 */
module InstructorService {
  import opened Wrappers
  import opened Tables
  import opened Entities
  import opened Dto
  import opened Data
  import opened Paging
  import opened Text

  // ---------------------------------------------------------------------------------------
  // Course views
  // ---------------------------------------------------------------------------------------

  /** `c.Topic.Name` in a projection the database evaluates: null when the topic row is missing. */
  function TopicName(topics: Table<Topic>, topicId: Guid): (r: Option<string>)
    ensures r.Some? <==> HasKey(topics, topicId)
    ensures r.Some? ==> exists i :: 0 <= i < |topics| && topics[i].id == topicId && topics[i].val.name == r.value
  {
    var t := Find(topics, topicId);
    if t.None? then None else Some(t.value.val.name)
  }

  /** `c.Instructor.UserName` in a projection the database evaluates: null when the user row is missing. */
  function InstructorName(users: Table<User>, instructorId: Guid): (r: Option<string>)
    ensures r.Some? <==> HasKey(users, instructorId)
    ensures r.Some? ==> exists i :: 0 <= i < |users| && users[i].id == instructorId && users[i].val.userName == r.value
  {
    var u := Find(users, instructorId);
    if u.None? then None else Some(u.value.val.userName)
  }

  /** A course projected to a `CourseDto` with the given instructor name and topic. */
  function CourseView(c: Row<Course>, instructorName: Option<string>, topic: Option<string>): CourseDto {
    CourseDto(c.id, c.val.name, c.val.description, c.val.instructorId, instructorName, topic)
  }

  // ---------------------------------------------------------------------------------------
  // The courses of an instructor
  // ---------------------------------------------------------------------------------------

  function OfInstructor(instructorId: Guid): Row<Course> -> bool {
    (c: Row<Course>) => c.val.instructorId == instructorId
  }

  function TopicViews(cs: Table<Course>, topics: Table<Topic>): (r: seq<CourseDto>)
    ensures |r| == |cs|
    ensures forall k :: 0 <= k < |r| ==> r[k] == CourseView(cs[k], None, TopicName(topics, cs[k].val.topicId))
  {
    seq(|cs|, k requires 0 <= k < |cs| => CourseView(cs[k], None, TopicName(topics, cs[k].val.topicId)))
  }

  /**
   * `GetCoursesByInstructorAsync`: the instructor's courses in table order, each with its
   * topic's name; the instructor's name is not filled in.
   */
  function GetCoursesByInstructor(courses: Table<Course>, topics: Table<Topic>, instructorId: Guid): (r: seq<CourseDto>)
    ensures |r| <= |courses|
    ensures forall i :: 0 <= i < |r| ==> exists j :: (0 <= j < |courses| && courses[j].val.instructorId == instructorId &&
      r[i] == CourseView(courses[j], None, TopicName(topics, courses[j].val.topicId)))
    ensures forall j :: 0 <= j < |courses| && courses[j].val.instructorId == instructorId ==>
      CourseView(courses[j], None, TopicName(topics, courses[j].val.topicId)) in r
  {
    var owned := Filter(courses, OfInstructor(instructorId));
    var r := TopicViews(owned, topics);
    assert forall j :: 0 <= j < |courses| && courses[j].val.instructorId == instructorId ==>
      CourseView(courses[j], None, TopicName(topics, courses[j].val.topicId)) in r by {
      forall j | 0 <= j < |courses| && courses[j].val.instructorId == instructorId
        ensures CourseView(courses[j], None, TopicName(topics, courses[j].val.topicId)) in r
      {
        assert courses[j] in owned;
        var k :| 0 <= k < |owned| && owned[k] == courses[j];
        assert r[k] == CourseView(courses[j], None, TopicName(topics, courses[j].val.topicId));
      }
    }
    assert forall i :: 0 <= i < |r| ==> exists j :: (0 <= j < |courses| && courses[j].val.instructorId == instructorId &&
      r[i] == CourseView(courses[j], None, TopicName(topics, courses[j].val.topicId))) by {
      forall i | 0 <= i < |r|
        ensures exists j :: (0 <= j < |courses| && courses[j].val.instructorId == instructorId &&
          r[i] == CourseView(courses[j], None, TopicName(topics, courses[j].val.topicId)))
      {
        assert owned[i] in courses;
        var j :| 0 <= j < |courses| && courses[j] == owned[i];
        assert r[i] == CourseView(courses[j], None, TopicName(topics, courses[j].val.topicId));
      }
    }
    r
  }

  /** With unique keys, the listing holds each owned course exactly once. */
  lemma CoursesByInstructorCount(courses: Table<Course>, next: Guid, topics: Table<Topic>, instructorId: Guid)
    requires Keyed(courses, next)
    ensures |GetCoursesByInstructor(courses, topics, instructorId)| == |Filter(courses, OfInstructor(instructorId))|
    ensures Keyed(Filter(courses, OfInstructor(instructorId)), next)
  {
    FilterKeyed(courses, next, OfInstructor(instructorId));
  }

  // ---------------------------------------------------------------------------------------
  // All courses, page by page
  // ---------------------------------------------------------------------------------------

  /** Courses with their instructors' and topics' names, in the given order. */
  function CourseViews(cs: Table<Course>, users: Table<User>, topics: Table<Topic>): (r: seq<CourseDto>)
    ensures |r| == |cs|
    ensures forall k :: 0 <= k < |r| ==>
      r[k] == CourseView(cs[k], InstructorName(users, cs[k].val.instructorId), TopicName(topics, cs[k].val.topicId))
  {
    seq(|cs|, k requires 0 <= k < |cs| =>
      CourseView(cs[k], InstructorName(users, cs[k].val.instructorId), TopicName(topics, cs[k].val.topicId)))
  }

  /**
   * `GetAllCoursesAsync`: the number of pages of `pageSize` courses, and the courses of page
   * `pageNumber` in table order. The page size must be positive: the source divides by it.
   */
  function GetAllCourses(courses: Table<Course>, users: Table<User>, topics: Table<Topic>,
                         pageNumber: Int32, pageSize: Int32): (r: (seq<CourseDto>, int))
    requires 0 < pageSize
    ensures r.1 * pageSize >= |courses| && (r.1 == 0 || (r.1 - 1) * pageSize < |courses|)
    ensures |r.0| <= pageSize
    ensures 1 <= pageNumber ==> exists k :: Window(CourseViews(courses, users, topics), k, r.0)
    ensures 1 <= pageNumber && (pageNumber - 1) * pageSize <= MaxInt32 ==>
      (Window(CourseViews(courses, users, topics), (pageNumber - 1) * pageSize, r.0) || |r.0| == 0) &&
      (|r.0| > 0 <==> pageNumber <= r.1)
    ensures 1 <= pageNumber && (pageNumber - 1) * pageSize <= MaxInt32 && (pageNumber - 1) * pageSize < |courses| ==>
      |r.0| == Min(pageSize, |courses| - (pageNumber - 1) * pageSize)
    ensures pageNumber < 1 && MinInt32 <= (pageNumber - 1) * pageSize ==>
      Window(CourseViews(courses, users, topics), 0, r.0) && |r.0| == Min(pageSize, |courses|)
  {
    var views := CourseViews(courses, users, topics);
    var page := Page(views, SkipCount(pageNumber, pageSize), pageSize);
    var pages := CeilDiv(|courses|, pageSize);
    assert 1 <= pageNumber ==> (
      && (exists k :: Window(views, k, page))
      && ((pageNumber - 1) * pageSize <= MaxInt32 ==>
            (Window(views, (pageNumber - 1) * pageSize, page) || |page| == 0) && (|page| > 0 <==> pageNumber <= pages) &&
            ((pageNumber - 1) * pageSize < |courses| ==> |page| == Min(pageSize, |courses| - (pageNumber - 1) * pageSize)))) by {
      if 1 <= pageNumber {
        PageOf(views, pageNumber, pageSize);
        if (pageNumber - 1) * pageSize <= MaxInt32 {
          InRange(|courses|, pageNumber, pageSize);
        }
      }
    }
    assert pageNumber < 1 && MinInt32 <= (pageNumber - 1) * pageSize ==>
      Window(views, 0, page) && |page| == Min(pageSize, |courses|) by {
      if pageNumber < 1 && MinInt32 <= (pageNumber - 1) * pageSize {
        SkipCountNegative(pageNumber, pageSize);
        assert Max0(SkipCount(pageNumber, pageSize)) == 0;
        assert |page| == Min(pageSize, |views|);
      }
    }
    (page, pages)
  }

  /** Paging loses no course: with fewer courses than an `int` counts, each is on some page. */
  lemma EveryCourseListed(courses: Table<Course>, users: Table<User>, topics: Table<Topic>, pageSize: Int32, j: int)
    requires 0 < pageSize && |courses| <= MaxInt32 && 0 <= j < |courses|
    ensures exists p: Int32 :: (1 <= p &&
      CourseView(courses[j], InstructorName(users, courses[j].val.instructorId), TopicName(topics, courses[j].val.topicId))
        in GetAllCourses(courses, users, topics, p, pageSize).0)
  {
    var views := CourseViews(courses, users, topics);
    var p, i := PageContaining(views, j, pageSize);
    assert GetAllCourses(courses, users, topics, p, pageSize).0[i] == views[j];
  }

  // ---------------------------------------------------------------------------------------
  // Enrolling and reading one course
  // ---------------------------------------------------------------------------------------

  /** `EnrollInCourseAsync`: false for a missing course or a course of this instructor; nothing is stored. */
  function EnrollInCourse(courses: Table<Course>, instructorId: Guid, courseId: Guid): (r: bool)
    ensures !HasKey(courses, courseId) ==> !r
    ensures HasKey(courses, courseId) ==> (r <==> Find(courses, courseId).value.val.instructorId != instructorId)
  {
    var course := Find(courses, courseId);
    !(course.None? || course.value.val.instructorId == instructorId)
  }

  /** With unique keys, enrolling is allowed exactly in an existing course someone else owns. */
  lemma EnrollInOthersCourse(courses: Table<Course>, next: Guid, instructorId: Guid, courseId: Guid)
    requires Keyed(courses, next)
    ensures EnrollInCourse(courses, instructorId, courseId) <==>
      (HasKey(courses, courseId) && !Owns(courses, instructorId, courseId))
  {
    OwnsFind(courses, next, instructorId, courseId);
  }

  /** The role passes the access check of `GetCourseByIdAsync` for a course with this owner. */
  predicate RoleAdmits(role: string, owner: Guid, instructorId: Guid) {
    (EqualsIgnoreCase(role, "Instructor") && owner == instructorId) || EqualsIgnoreCase(role, "Admin")
  }

  /** No role is both an instructor and an admin, so the two branches never overlap. */
  lemma RolesDisjoint(role: string)
    ensures !(EqualsIgnoreCase(role, "Instructor") && EqualsIgnoreCase(role, "Admin"))
  {
    if EqualsIgnoreCase(role, "Instructor") {
      assert |Upper(role)| == |Upper("Instructor")| == 10;
      assert |Upper("Admin")| == 5;
    }
  }

  /**
   * `GetCourseByIdAsync`: an empty role throws `ArgumentNullException` and a missing course
   * `KeyNotFoundException`. An instructor (role compared ignoring case) must own the course
   * and an admin always passes; any other role throws `UnauthorizedAccessException`. The view
   * then reads the instructor's and the topic's names through the loaded course, so a missing
   * user or topic row dereferences null.
   */
  function GetCourseById(courses: Table<Course>, users: Table<User>, topics: Table<Topic>,
                         courseId: Guid, instructorId: Guid, role: string): (r: Result<CourseDto>)
    ensures IsNullOrEmpty(role) ==> r == Err(ArgumentNull)
    ensures !IsNullOrEmpty(role) && !HasKey(courses, courseId) ==> r == Err(KeyNotFound)
    ensures !IsNullOrEmpty(role) && HasKey(courses, courseId) ==>
      var c := Find(courses, courseId).value;
      && (!RoleAdmits(role, c.val.instructorId, instructorId) <==> r == Err(Unauthorized))
      && ((RoleAdmits(role, c.val.instructorId, instructorId) &&
           (!HasKey(users, c.val.instructorId) || !HasKey(topics, c.val.topicId))) <==> r == Err(NullReference))
    ensures r.Ok? ==> (r.value.id == courseId && r.value.instructorName.Some? && r.value.topic.Some? &&
      exists j :: (0 <= j < |courses| && courses[j].id == courseId &&
        r.value == CourseView(courses[j], InstructorName(users, courses[j].val.instructorId),
                              TopicName(topics, courses[j].val.topicId))))
  {
    if IsNullOrEmpty(role) then Err(ArgumentNull)
    else
      var course := Find(courses, courseId);
      if course.None? then Err(KeyNotFound)
      else
        var c := course.value;
        RolesDisjoint(role);
        if EqualsIgnoreCase(role, "Instructor") && c.val.instructorId != instructorId then Err(Unauthorized)
        else if !EqualsIgnoreCase(role, "Instructor") && !EqualsIgnoreCase(role, "Admin") then Err(Unauthorized)
        else
          var user := Find(users, c.val.instructorId);
          var topic := Find(topics, c.val.topicId);
          if user.None? || topic.None? then Err(NullReference)
          else Ok(CourseView(c, Some(user.value.val.userName), Some(topic.value.val.name)))
  }

  /** An instructor (in any letter case) is only shown a course the instructor owns. */
  lemma InstructorSeesOnlyOwnCourses(courses: Table<Course>, users: Table<User>, topics: Table<Topic>,
                                     courseId: Guid, instructorId: Guid, role: string)
    requires EqualsIgnoreCase(role, "Instructor")
    requires GetCourseById(courses, users, topics, courseId, instructorId, role).Ok?
    ensures Owns(courses, instructorId, courseId)
  {
    RolesDisjoint(role);
    var c := Find(courses, courseId).value;
    assert c in courses;
  }

  // ---------------------------------------------------------------------------------------
  // The service
  // ---------------------------------------------------------------------------------------

  class InstructorService {
    const context: ApplicationDbContext

    constructor (context: ApplicationDbContext)
      ensures this.context == context
    {
      this.context := context;
    }

    /**
     * `CreateCourseAsync`: an empty instructor key throws `ArgumentException` and an unknown
     * topic `KeyNotFoundException`; otherwise the course is stored under a fresh key.
     */
    method CreateCourse(course: Course) returns (r: Result<Row<Course>>)
      requires context.Valid()
      modifies context`courses, context`nextId
      ensures context.Valid()
      ensures course.instructorId == EmptyGuid ==> r == Err(ArgumentError)
      ensures course.instructorId != EmptyGuid && !HasKey(context.topics, course.topicId) ==> r == Err(KeyNotFound)
      ensures r.Ok? <==> course.instructorId != EmptyGuid && HasKey(context.topics, course.topicId)
      ensures r.Err? ==> context.State() == old(context.State())
      ensures r.Ok? ==> (r.value == Row(old(context.nextId), course) && !old(HasKey(context.courses, r.value.id)) &&
        context.State() == old(context.State()).(courses := old(context.courses) + [r.value], nextId := r.value.id + 1))
    {
      if course.instructorId == EmptyGuid {
        return Err(ArgumentError);
      }
      var existingTopic := Find(context.topics, course.topicId);
      if existingTopic.None? {
        return Err(KeyNotFound);
      }
      var row := StoreCourse(course);
      r := Ok(row);
    }

    /** `Courses.Add` and `SaveChangesAsync`: the course is appended under a fresh key. */
    method StoreCourse(course: Course) returns (row: Row<Course>)
      requires context.Valid()
      modifies context`courses, context`nextId
      ensures context.Valid()
      ensures row == Row(old(context.nextId), course) && !old(HasKey(context.courses, row.id))
      ensures context.State() == old(context.State()).(courses := old(context.courses) + [row], nextId := row.id + 1)
    {
      ghost var s := context.State();
      var id := context.NewGuid();
      row := Row(id, course);
      KeyedAdd(s.courses, s.nextId, row);
      ValidWithCourses(context.State(), s.courses + [row]);
      context.courses := context.courses + [row];
      assert context.State() == s.(courses := s.courses + [row], nextId := id + 1);
    }

    /**
     * `UpdateCourseAsync`: only a course with both the key and the instructor matches, else
     * `ArgumentNullException`; the match gets the model's name, description and topic and
     * keeps its instructor.
     */
    method UpdateCourse(id: Guid, model: CourseModel, instructorId: Guid) returns (r: Result<Row<Course>>)
      requires context.Valid()
      modifies context`courses
      ensures context.Valid()
      ensures r.Err? <==> !Owns(context.courses, instructorId, id)
      ensures r.Err? ==> r.error == ArgumentNull && context.State() == old(context.State())
      ensures r.Ok? ==> (r.value == Row(id, Course(model.name, model.description, instructorId, model.topicId)) &&
        context.State() == old(context.State()).(courses := Replace(old(context.courses), r.value)))
      ensures forall other :: other != id ==> Find(context.courses, other) == old(Find(context.courses, other))
    {
      var course := FirstOrDefault(context.courses, OwnedBy(instructorId, id));
      if course.None? {
        return Err(ArgumentNull);
      }
      var c := course.value;
      var updated := Row(c.id, c.val.(name := model.name, description := model.description, topicId := model.topicId));
      ghost var s := context.State();
      assert HasKey(s.courses, updated.id) by {
        assert s.courses[FirstIndex(s.courses, OwnedBy(instructorId, id))].id == id;
      }
      ReplaceKeyed(s.courses, s.nextId, updated, id);
      forall other | other != id ensures Find(Replace(s.courses, updated), other) == Find(s.courses, other) {
        ReplaceKeyed(s.courses, s.nextId, updated, other);
      }
      ValidWithCourses(s, Replace(s.courses, updated));
      context.courses := Replace(context.courses, updated);
      assert context.State() == s.(courses := Replace(s.courses, updated));
      r := Ok(updated);
    }

    /**
     * `DeleteCourseAsync`: false with nothing changed unless a course with both the key and
     * the instructor exists; otherwise that course is removed and the answer is true.
     */
    method DeleteCourse(courseId: Guid, instructorId: Guid) returns (deleted: bool)
      requires context.Valid()
      modifies context`courses
      ensures context.Valid()
      ensures deleted <==> old(Owns(context.courses, instructorId, courseId))
      ensures !deleted ==> context.State() == old(context.State())
      ensures deleted ==> (context.State() == old(context.State()).(courses := RemoveKey(old(context.courses), courseId)) &&
        |context.courses| == |old(context.courses)| - 1 && !HasKey(context.courses, courseId))
    {
      var course := FirstOrDefault(context.courses, OwnedBy(instructorId, courseId));
      if course.None? {
        return false;
      }
      ghost var s := context.State();
      assert HasKey(s.courses, courseId) by {
        assert s.courses[FirstIndex(s.courses, OwnedBy(instructorId, courseId))].id == courseId;
      }
      RemoveKeyed(s.courses, s.nextId, courseId, 0);
      RemoveKeyCount(s.courses, s.nextId, courseId);
      ValidWithCourses(s, RemoveKey(s.courses, courseId));
      context.courses := RemoveKey(context.courses, courseId);
      assert context.State() == s.(courses := RemoveKey(s.courses, courseId));
      deleted := true;
    }
  }
}
