/**
 * `TopicService`: validated create, read, page, update, delete and search over the Topics
 * table, each topic belonging to a subcategory.
 */
module TopicService {
  import opened Wrappers
  import opened Tables
  import opened Entities
  import opened Data
  import opened Paging
  import opened Text

  /** `GetTopicByIdAsync`: an empty key throws `ArgumentException`; otherwise the topic with the key, or null. */
  function GetTopicById(topics: Table<Topic>, id: Guid): (r: Result<Option<Row<Topic>>>)
    ensures id == EmptyGuid <==> r == Err(ArgumentError)
    ensures r.Ok? ==> (r.value.None? <==> !HasKey(topics, id))
    ensures r.Ok? && r.value.Some? ==> r.value.value.id == id && r.value.value in topics
  {
    if id == EmptyGuid then Err(ArgumentError) else Ok(Find(topics, id))
  }

  /**
   * `GetAllTopicsAsync`: a page number or size below one throws `ArgumentException`;
   * otherwise at most `pageSize` topics in table order, starting after `(pageNumber - 1) * pageSize`.
   */
  function GetAllTopics(topics: Table<Topic>, pageNumber: Int32, pageSize: Int32): (r: Result<seq<Row<Topic>>>)
    ensures r.Err? <==> pageNumber < 1 || pageSize < 1
    ensures r.Err? ==> r.error == ArgumentError
    ensures r.Ok? ==> |r.value| <= pageSize && exists k :: Window(topics, k, r.value)
    ensures r.Ok? && (pageNumber - 1) * pageSize <= MaxInt32 ==>
      var skip := (pageNumber - 1) * pageSize;
      && (skip < |topics| ==> Window(topics, skip, r.value) && |r.value| == Min(pageSize, |topics| - skip))
      && (|topics| <= skip ==> |r.value| == 0)
  {
    if pageNumber < 1 || pageSize < 1 then Err(ArgumentError)
    else
      PageOf(topics, pageNumber, pageSize);
      Ok(Page(topics, SkipCount(pageNumber, pageSize), pageSize))
  }

  /** Paging loses no topic: with fewer topics than an `int` counts, each is on some page. */
  lemma EveryTopicListed(topics: Table<Topic>, pageSize: Int32, j: int)
    requires 0 < pageSize && |topics| <= MaxInt32 && 0 <= j < |topics|
    ensures exists p: Int32 :: 1 <= p && GetAllTopics(topics, p, pageSize).Ok? && topics[j] in GetAllTopics(topics, p, pageSize).value
  {
    var p, i := PageContaining(topics, j, pageSize);
    assert GetAllTopics(topics, p, pageSize).value[i] == topics[j];
  }

  /** The filter `t => t.Name.Contains(searchTerm, StringComparison.OrdinalIgnoreCase)`. */
  function NameContains(searchTerm: string): Row<Topic> -> bool {
    (t: Row<Topic>) => ContainsIgnoreCase(t.val.name, searchTerm)
  }

  /**
   * `SearchTopicsAsync`: a blank term throws `ArgumentException`; otherwise exactly the topics
   * whose name contains the term, ignoring case, in table order.
   */
  function SearchTopics(topics: Table<Topic>, searchTerm: string): (r: Result<seq<Row<Topic>>>)
    ensures r.Err? <==> IsNullOrWhiteSpace(searchTerm)
    ensures r.Err? ==> r.error == ArgumentError
    ensures r.Ok? ==> forall i :: 0 <= i < |r.value| ==> r.value[i] in topics && ContainsIgnoreCase(r.value[i].val.name, searchTerm)
    ensures r.Ok? ==> forall j :: 0 <= j < |topics| && ContainsIgnoreCase(topics[j].val.name, searchTerm) ==> topics[j] in r.value
    ensures r.Ok? ==> forall t :: multiset(r.value)[t] ==
                                 (if ContainsIgnoreCase(t.val.name, searchTerm) then multiset(topics)[t] else 0)
  {
    if IsNullOrWhiteSpace(searchTerm) then Err(ArgumentError)
    else
      FilterCount(topics, NameContains(searchTerm));
      Ok(Filter(topics, NameContains(searchTerm)))
  }

  /** `TopicExistsAsync`: some topic has the key. */
  function TopicExists(topics: Table<Topic>, id: Guid): (b: bool)
    ensures b <==> exists i :: 0 <= i < |topics| && topics[i].id == id
  {
    Find(topics, id).Some?
  }

  /** `GetTopicCountAsync`. */
  function GetTopicCount(topics: Table<Topic>): nat {
    |topics|
  }

  /** Existence and lookup agree on every non-empty key. */
  lemma ExistsAgreesWithGet(topics: Table<Topic>, id: Guid)
    requires id != EmptyGuid
    ensures TopicExists(topics, id) <==> GetTopicById(topics, id) != Ok(None)
  {
  }

  /**
   * A topic stored under a fresh key is found and counted; deleting it again gives back the
   * table as it was.
   */
  lemma CreateThenDelete(topics: Table<Topic>, row: Row<Topic>)
    requires !HasKey(topics, row.id) && row.id != EmptyGuid
    ensures GetTopicById(topics + [row], row.id) == Ok(Some(row))
    ensures TopicExists(topics + [row], row.id)
    ensures GetTopicCount(topics + [row]) == GetTopicCount(topics) + 1
    ensures RemoveKey(topics + [row], row.id) == topics
  {
    FindAfterAdd(topics, row, row.id);
    RemoveAfterAdd(topics, row);
  }

  class TopicService {
    const context: ApplicationDbContext

    constructor (context: ApplicationDbContext)
      ensures this.context == context
    {
      this.context := context;
    }

    /**
     * `CreateTopicAsync`: a blank name or an unknown subcategory throws `ArgumentException`;
     * otherwise a topic with a fresh key, the name and the subcategory is stored and returned.
     */
    method CreateTopic(name: string, subCategoryId: Guid) returns (r: Result<Row<Topic>>)
      requires context.Valid()
      modifies context`topics, context`nextId
      ensures context.Valid()
      ensures r.Err? <==> IsNullOrWhiteSpace(name) || !HasKey(context.subCategories, subCategoryId)
      ensures r.Err? ==> r.error == ArgumentError && context.State() == old(context.State())
      ensures r.Ok? ==> (r.value == Row(old(context.nextId), Topic(name, subCategoryId)) && !old(HasKey(context.topics, r.value.id)) &&
        context.State() == old(context.State()).(topics := old(context.topics) + [r.value], nextId := r.value.id + 1))
    {
      if IsNullOrWhiteSpace(name) {
        return Err(ArgumentError);
      }
      var parent := Find(context.subCategories, subCategoryId);
      if parent.None? {
        return Err(ArgumentError);
      }
      var topic := StoreTopic(Topic(name, subCategoryId));
      r := Ok(topic);
    }

    /**
     * `UpdateTopicAsync`: an empty key throws `ArgumentException`, a missing topic
     * `KeyNotFoundException` and a blank new name `ArgumentException`, in that order;
     * otherwise only the topic's name changes.
     */
    method UpdateTopic(id: Guid, newName: string) returns (r: Result<Row<Topic>>)
      requires context.Valid()
      modifies context`topics
      ensures context.Valid()
      ensures r.Err? <==> id == EmptyGuid || !old(HasKey(context.topics, id)) || IsNullOrWhiteSpace(newName)
      ensures r.Err? ==> context.State() == old(context.State())
      ensures r.Err? ==> r.error == (if id != EmptyGuid && !old(HasKey(context.topics, id)) then KeyNotFound else ArgumentError)
      ensures r.Ok? ==> (old(HasKey(context.topics, id)) &&
        r.value == Row(id, old(Find(context.topics, id)).value.val.(name := newName)) &&
        context.State() == old(context.State()).(topics := Replace(old(context.topics), r.value)))
      ensures forall other :: other != id ==> Find(context.topics, other) == old(Find(context.topics, other))
    {
      if id == EmptyGuid {
        return Err(ArgumentError);
      }
      var topic := Find(context.topics, id);
      if topic.None? {
        return Err(KeyNotFound);
      }
      if IsNullOrWhiteSpace(newName) {
        return Err(ArgumentError);
      }
      var updated := Row(id, topic.value.val.(name := newName));
      ReplaceTopic(updated);
      r := Ok(updated);
    }

    /**
     * `DeleteTopicAsync`: an empty key throws `ArgumentException` and a missing topic
     * `KeyNotFoundException`; otherwise that topic alone is removed and the answer is true.
     */
    method DeleteTopic(id: Guid) returns (r: Result<bool>)
      requires context.Valid()
      modifies context`topics
      ensures context.Valid()
      ensures r.Err? <==> id == EmptyGuid || !old(HasKey(context.topics, id))
      ensures r.Err? ==> context.State() == old(context.State())
      ensures r.Err? ==> r.error == (if id == EmptyGuid then ArgumentError else KeyNotFound)
      ensures r.Ok? ==> (r.value && context.State() == old(context.State()).(topics := RemoveKey(old(context.topics), id)) &&
        |context.topics| == |old(context.topics)| - 1)
      ensures forall other :: other != id ==> Find(context.topics, other) == old(Find(context.topics, other))
    {
      if id == EmptyGuid {
        return Err(ArgumentError);
      }
      var topic := Find(context.topics, id);
      if topic.None? {
        return Err(KeyNotFound);
      }
      RemoveTopic(id);
      r := Ok(true);
    }

    /** `Topics.Add` and `SaveChangesAsync`: the topic is appended under a fresh key. */
    method StoreTopic(topic: Topic) returns (row: Row<Topic>)
      requires context.Valid()
      modifies context`topics, context`nextId
      ensures context.Valid()
      ensures row == Row(old(context.nextId), topic) && !old(HasKey(context.topics, row.id))
      ensures context.State() == old(context.State()).(topics := old(context.topics) + [row], nextId := row.id + 1)
    {
      ghost var s := context.State();
      var id := context.NewGuid();
      row := Row(id, topic);
      KeyedAdd(s.topics, s.nextId, row);
      ValidWithTopics(context.State(), s.topics + [row]);
      context.topics := context.topics + [row];
      assert context.State() == s.(topics := s.topics + [row], nextId := id + 1);
    }

    /** `Topics.Update` and `SaveChangesAsync` for a tracked topic: its row is replaced, no other. */
    method ReplaceTopic(updated: Row<Topic>)
      requires context.Valid() && HasKey(context.topics, updated.id)
      modifies context`topics
      ensures context.Valid()
      ensures context.State() == old(context.State()).(topics := Replace(old(context.topics), updated))
      ensures forall other :: other != updated.id ==> Find(context.topics, other) == old(Find(context.topics, other))
    {
      ghost var s := context.State();
      forall other ensures Find(Replace(s.topics, updated), other) == if other == updated.id then Some(updated) else Find(s.topics, other) {
        ReplaceKeyed(s.topics, s.nextId, updated, other);
      }
      ValidWithTopics(s, Replace(s.topics, updated));
      context.topics := Replace(context.topics, updated);
      assert context.State() == s.(topics := Replace(s.topics, updated));
    }

    /** `Topics.Remove` and `SaveChangesAsync` for a present key: that row goes, no other. */
    method RemoveTopic(id: Guid)
      requires context.Valid() && HasKey(context.topics, id)
      modifies context`topics
      ensures context.Valid()
      ensures context.State() == old(context.State()).(topics := RemoveKey(old(context.topics), id))
      ensures |context.topics| == |old(context.topics)| - 1
      ensures forall other :: other != id ==> Find(context.topics, other) == old(Find(context.topics, other))
    {
      ghost var s := context.State();
      forall other | other != id ensures Find(RemoveKey(s.topics, id), other) == Find(s.topics, other) {
        RemoveKeyed(s.topics, s.nextId, id, other);
      }
      assert id != 0 by {
        var i :| 0 <= i < |s.topics| && s.topics[i].id == id;
      }
      RemoveKeyed(s.topics, s.nextId, id, 0);
      RemoveKeyCount(s.topics, s.nextId, id);
      ValidWithTopics(s, RemoveKey(s.topics, id));
      context.topics := RemoveKey(context.topics, id);
      assert context.State() == s.(topics := RemoveKey(s.topics, id));
    }
  }
}
