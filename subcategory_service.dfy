/**
 * `SubCategoryService`: validated create, read, page, update, delete and search over the
 * SubCategories table, each subcategory belonging to a category.
 */
module SubCategoryService {
  import opened Wrappers
  import opened Tables
  import opened Entities
  import opened Data
  import opened Paging
  import opened Text

  /** `GetSubCategoryByIdAsync`: an empty key throws `ArgumentException`; otherwise the subcategory with the key, or null. */
  function GetSubCategoryById(subCategories: Table<SubCategory>, id: Guid): (r: Result<Option<Row<SubCategory>>>)
    ensures id == EmptyGuid <==> r == Err(ArgumentError)
    ensures r.Ok? ==> (r.value.None? <==> !HasKey(subCategories, id))
    ensures r.Ok? && r.value.Some? ==> r.value.value.id == id && r.value.value in subCategories
  {
    if id == EmptyGuid then Err(ArgumentError) else Ok(Find(subCategories, id))
  }

  /**
   * `GetAllSubCategoriesAsync`: a page number or size below one throws `ArgumentException`;
   * otherwise at most `pageSize` subcategories in table order, starting after `(pageNumber - 1) * pageSize`.
   */
  function GetAllSubCategories(subCategories: Table<SubCategory>, pageNumber: Int32, pageSize: Int32): (r: Result<seq<Row<SubCategory>>>)
    ensures r.Err? <==> pageNumber < 1 || pageSize < 1
    ensures r.Err? ==> r.error == ArgumentError
    ensures r.Ok? ==> |r.value| <= pageSize && exists k :: Window(subCategories, k, r.value)
    ensures r.Ok? && (pageNumber - 1) * pageSize <= MaxInt32 ==>
      var skip := (pageNumber - 1) * pageSize;
      && (skip < |subCategories| ==> Window(subCategories, skip, r.value) && |r.value| == Min(pageSize, |subCategories| - skip))
      && (|subCategories| <= skip ==> |r.value| == 0)
  {
    if pageNumber < 1 || pageSize < 1 then Err(ArgumentError)
    else
      PageOf(subCategories, pageNumber, pageSize);
      Ok(Page(subCategories, SkipCount(pageNumber, pageSize), pageSize))
  }

  /** Paging loses no subcategory: with fewer subcategories than an `int` counts, each is on some page. */
  lemma EverySubCategoryListed(subCategories: Table<SubCategory>, pageSize: Int32, j: int)
    requires 0 < pageSize && |subCategories| <= MaxInt32 && 0 <= j < |subCategories|
    ensures exists p: Int32 :: 1 <= p && GetAllSubCategories(subCategories, p, pageSize).Ok? && subCategories[j] in GetAllSubCategories(subCategories, p, pageSize).value
  {
    var p, i := PageContaining(subCategories, j, pageSize);
    assert GetAllSubCategories(subCategories, p, pageSize).value[i] == subCategories[j];
  }

  /** The filter `sc => sc.Name.Contains(searchTerm, StringComparison.OrdinalIgnoreCase)`. */
  function NameContains(searchTerm: string): Row<SubCategory> -> bool {
    (sc: Row<SubCategory>) => ContainsIgnoreCase(sc.val.name, searchTerm)
  }

  /**
   * `SearchSubCategoriesAsync`: a blank term throws `ArgumentException`; otherwise exactly the subcategories
   * whose name contains the term, ignoring case, in table order.
   */
  function SearchSubCategories(subCategories: Table<SubCategory>, searchTerm: string): (r: Result<seq<Row<SubCategory>>>)
    ensures r.Err? <==> IsNullOrWhiteSpace(searchTerm)
    ensures r.Err? ==> r.error == ArgumentError
    ensures r.Ok? ==> forall i :: 0 <= i < |r.value| ==> r.value[i] in subCategories && ContainsIgnoreCase(r.value[i].val.name, searchTerm)
    ensures r.Ok? ==> forall j :: 0 <= j < |subCategories| && ContainsIgnoreCase(subCategories[j].val.name, searchTerm) ==> subCategories[j] in r.value
    ensures r.Ok? ==> forall t :: multiset(r.value)[t] ==
                                 (if ContainsIgnoreCase(t.val.name, searchTerm) then multiset(subCategories)[t] else 0)
  {
    if IsNullOrWhiteSpace(searchTerm) then Err(ArgumentError)
    else
      FilterCount(subCategories, NameContains(searchTerm));
      Ok(Filter(subCategories, NameContains(searchTerm)))
  }

  /** `SubCategoryExistsAsync`: some subcategory has the key. */
  function SubCategoryExists(subCategories: Table<SubCategory>, id: Guid): (b: bool)
    ensures b <==> exists i :: 0 <= i < |subCategories| && subCategories[i].id == id
  {
    Find(subCategories, id).Some?
  }

  /** `GetSubCategoryCountAsync`. */
  function GetSubCategoryCount(subCategories: Table<SubCategory>): nat {
    |subCategories|
  }

  /** Existence and lookup agree on every non-empty key. */
  lemma ExistsAgreesWithGet(subCategories: Table<SubCategory>, id: Guid)
    requires id != EmptyGuid
    ensures SubCategoryExists(subCategories, id) <==> GetSubCategoryById(subCategories, id) != Ok(None)
  {
  }

  /**
   * A subcategory stored under a fresh key is found and counted; deleting it again gives back the
   * table as it was.
   */
  lemma CreateThenDelete(subCategories: Table<SubCategory>, row: Row<SubCategory>)
    requires !HasKey(subCategories, row.id) && row.id != EmptyGuid
    ensures GetSubCategoryById(subCategories + [row], row.id) == Ok(Some(row))
    ensures SubCategoryExists(subCategories + [row], row.id)
    ensures GetSubCategoryCount(subCategories + [row]) == GetSubCategoryCount(subCategories) + 1
    ensures RemoveKey(subCategories + [row], row.id) == subCategories
  {
    FindAfterAdd(subCategories, row, row.id);
    RemoveAfterAdd(subCategories, row);
  }

  class SubCategoryService {
    const context: ApplicationDbContext

    constructor (context: ApplicationDbContext)
      ensures this.context == context
    {
      this.context := context;
    }

    /**
     * `CreateSubCategoryAsync`: a blank name or an unknown category throws `ArgumentException`;
     * otherwise a subcategory with a fresh key, the name and the category is stored and returned.
     */
    method CreateSubCategory(name: string, categoryId: Guid) returns (r: Result<Row<SubCategory>>)
      requires context.Valid()
      modifies context`subCategories, context`nextId
      ensures context.Valid()
      ensures r.Err? <==> IsNullOrWhiteSpace(name) || !HasKey(context.categories, categoryId)
      ensures r.Err? ==> r.error == ArgumentError && context.State() == old(context.State())
      ensures r.Ok? ==> (r.value == Row(old(context.nextId), SubCategory(name, categoryId)) && !old(HasKey(context.subCategories, r.value.id)) &&
        context.State() == old(context.State()).(subCategories := old(context.subCategories) + [r.value], nextId := r.value.id + 1))
    {
      if IsNullOrWhiteSpace(name) {
        return Err(ArgumentError);
      }
      var parent := Find(context.categories, categoryId);
      if parent.None? {
        return Err(ArgumentError);
      }
      var subCategory := StoreSubCategory(SubCategory(name, categoryId));
      r := Ok(subCategory);
    }

    /**
     * `UpdateSubCategoryAsync`: an empty key throws `ArgumentException`, a missing subcategory
     * `KeyNotFoundException` and a blank new name `ArgumentException`, in that order;
     * otherwise only the subcategory's name changes.
     */
    method UpdateSubCategory(id: Guid, newName: string) returns (r: Result<Row<SubCategory>>)
      requires context.Valid()
      modifies context`subCategories
      ensures context.Valid()
      ensures r.Err? <==> id == EmptyGuid || !old(HasKey(context.subCategories, id)) || IsNullOrWhiteSpace(newName)
      ensures r.Err? ==> context.State() == old(context.State())
      ensures r.Err? ==> r.error == (if id != EmptyGuid && !old(HasKey(context.subCategories, id)) then KeyNotFound else ArgumentError)
      ensures r.Ok? ==> (old(HasKey(context.subCategories, id)) &&
        r.value == Row(id, old(Find(context.subCategories, id)).value.val.(name := newName)) &&
        context.State() == old(context.State()).(subCategories := Replace(old(context.subCategories), r.value)))
      ensures forall other :: other != id ==> Find(context.subCategories, other) == old(Find(context.subCategories, other))
    {
      if id == EmptyGuid {
        return Err(ArgumentError);
      }
      var subCategory := Find(context.subCategories, id);
      if subCategory.None? {
        return Err(KeyNotFound);
      }
      if IsNullOrWhiteSpace(newName) {
        return Err(ArgumentError);
      }
      var updated := Row(id, subCategory.value.val.(name := newName));
      ReplaceSubCategory(updated);
      r := Ok(updated);
    }

    /**
     * `DeleteSubCategoryAsync`: an empty key throws `ArgumentException` and a missing subcategory
     * `KeyNotFoundException`; otherwise that subcategory alone is removed and the answer is true.
     */
    method DeleteSubCategory(id: Guid) returns (r: Result<bool>)
      requires context.Valid()
      modifies context`subCategories
      ensures context.Valid()
      ensures r.Err? <==> id == EmptyGuid || !old(HasKey(context.subCategories, id))
      ensures r.Err? ==> context.State() == old(context.State())
      ensures r.Err? ==> r.error == (if id == EmptyGuid then ArgumentError else KeyNotFound)
      ensures r.Ok? ==> (r.value && context.State() == old(context.State()).(subCategories := RemoveKey(old(context.subCategories), id)) &&
        |context.subCategories| == |old(context.subCategories)| - 1)
      ensures forall other :: other != id ==> Find(context.subCategories, other) == old(Find(context.subCategories, other))
    {
      if id == EmptyGuid {
        return Err(ArgumentError);
      }
      var subCategory := Find(context.subCategories, id);
      if subCategory.None? {
        return Err(KeyNotFound);
      }
      RemoveSubCategory(id);
      r := Ok(true);
    }

    /** `SubCategories.Add` and `SaveChangesAsync`: the subcategory is appended under a fresh key. */
    method StoreSubCategory(subCategory: SubCategory) returns (row: Row<SubCategory>)
      requires context.Valid()
      modifies context`subCategories, context`nextId
      ensures context.Valid()
      ensures row == Row(old(context.nextId), subCategory) && !old(HasKey(context.subCategories, row.id))
      ensures context.State() == old(context.State()).(subCategories := old(context.subCategories) + [row], nextId := row.id + 1)
    {
      ghost var s := context.State();
      var id := context.NewGuid();
      row := Row(id, subCategory);
      KeyedAdd(s.subCategories, s.nextId, row);
      ValidWithSubCategories(context.State(), s.subCategories + [row]);
      context.subCategories := context.subCategories + [row];
      assert context.State() == s.(subCategories := s.subCategories + [row], nextId := id + 1);
    }

    /** `SubCategories.Update` and `SaveChangesAsync` for a tracked subcategory: its row is replaced, no other. */
    method ReplaceSubCategory(updated: Row<SubCategory>)
      requires context.Valid() && HasKey(context.subCategories, updated.id)
      modifies context`subCategories
      ensures context.Valid()
      ensures context.State() == old(context.State()).(subCategories := Replace(old(context.subCategories), updated))
      ensures forall other :: other != updated.id ==> Find(context.subCategories, other) == old(Find(context.subCategories, other))
    {
      ghost var s := context.State();
      forall other ensures Find(Replace(s.subCategories, updated), other) == if other == updated.id then Some(updated) else Find(s.subCategories, other) {
        ReplaceKeyed(s.subCategories, s.nextId, updated, other);
      }
      ValidWithSubCategories(s, Replace(s.subCategories, updated));
      context.subCategories := Replace(context.subCategories, updated);
      assert context.State() == s.(subCategories := Replace(s.subCategories, updated));
    }

    /** `SubCategories.Remove` and `SaveChangesAsync` for a present key: that row goes, no other. */
    method RemoveSubCategory(id: Guid)
      requires context.Valid() && HasKey(context.subCategories, id)
      modifies context`subCategories
      ensures context.Valid()
      ensures context.State() == old(context.State()).(subCategories := RemoveKey(old(context.subCategories), id))
      ensures |context.subCategories| == |old(context.subCategories)| - 1
      ensures forall other :: other != id ==> Find(context.subCategories, other) == old(Find(context.subCategories, other))
    {
      ghost var s := context.State();
      forall other | other != id ensures Find(RemoveKey(s.subCategories, id), other) == Find(s.subCategories, other) {
        RemoveKeyed(s.subCategories, s.nextId, id, other);
      }
      assert id != 0 by {
        var i :| 0 <= i < |s.subCategories| && s.subCategories[i].id == id;
      }
      RemoveKeyed(s.subCategories, s.nextId, id, 0);
      RemoveKeyCount(s.subCategories, s.nextId, id);
      ValidWithSubCategories(s, RemoveKey(s.subCategories, id));
      context.subCategories := RemoveKey(context.subCategories, id);
      assert context.State() == s.(subCategories := RemoveKey(s.subCategories, id));
    }
  }
}
