/**
 * Keyed tables: the in-memory stand-in for an EF Core `DbSet`. A table is a sequence of
 * rows in the order the database enumerates them; each row carries its primary key.
 * `FirstIndex` and `FirstOrDefault` are LINQ's `FirstOrDefault(predicate)`; `Find` is
 * `DbSet.FindAsync(key)`.
 */
module Tables {
  import opened Wrappers

  /** A Guid. Key 0 plays `Guid.Empty`; generated keys are never 0. */
  type Guid = nat

  const EmptyGuid: Guid := 0

  /** A row of a table: its primary key and the rest of the record. */
  datatype Row<+T> = Row(id: Guid, val: T)

  type Table<T> = seq<Row<T>>

  /** The position of the first element satisfying `p`, or `|s|` when there is none. */
  function FirstIndex<T>(s: seq<T>, p: T -> bool): (k: nat)
    ensures k <= |s|
    ensures k < |s| ==> p(s[k])
    ensures forall j :: 0 <= j < k ==> !p(s[j])
  {
    if |s| == 0 then 0
    else if p(s[0]) then 0
    else 1 + FirstIndex(s[1..], p)
  }

  /** The least position satisfying `p` is the only index with the properties of `FirstIndex`. */
  lemma FirstIndexIsLeast<T>(s: seq<T>, p: T -> bool, k: nat)
    requires k <= |s|
    requires k < |s| ==> p(s[k])
    requires forall j :: 0 <= j < k ==> !p(s[j])
    ensures FirstIndex(s, p) == k
  {
  }

  /** LINQ `FirstOrDefault(p)`: the first element satisfying `p`. */
  function FirstOrDefault<T>(s: seq<T>, p: T -> bool): (r: Option<T>)
    ensures r.None? <==> forall i :: 0 <= i < |s| ==> !p(s[i])
    ensures r.Some? ==> FirstIndex(s, p) < |s| && r.value == s[FirstIndex(s, p)] && p(r.value)
  {
    var k := FirstIndex(s, p);
    if k < |s| then Some(s[k]) else None
  }

  /** LINQ `Any(p)`: some element satisfies `p`. */
  function Any<T>(s: seq<T>, p: T -> bool): (b: bool)
    ensures b <==> exists i :: 0 <= i < |s| && p(s[i])
  {
    if |s| == 0 then false
    else if p(s[0]) then true
    else
      assert forall i :: 1 <= i < |s| ==> s[i] == s[1..][i - 1];
      Any(s[1..], p)
  }

  /** LINQ `Where(p)`: the elements satisfying `p`, in their order. */
  function Filter<T>(s: seq<T>, p: T -> bool): (r: seq<T>)
    ensures |r| <= |s|
    ensures forall i :: 0 <= i < |r| ==> r[i] in s && p(r[i])
    ensures forall i :: 0 <= i < |s| && p(s[i]) ==> s[i] in r
  {
    if |s| == 0 then []
    else if p(s[0]) then [s[0]] + Filter(s[1..], p)
    else Filter(s[1..], p)
  }

  /** `Where(p)` keeps every passing element exactly as often as it occurs, and nothing else. */
  lemma {:induction false} FilterCount<T>(s: seq<T>, p: T -> bool)
    ensures forall x :: multiset(Filter(s, p))[x] == if p(x) then multiset(s)[x] else 0
    decreases |s|
  {
    if |s| > 0 {
      FilterCount(s[1..], p);
      assert s == [s[0]] + s[1..];
      assert multiset(s) == multiset{s[0]} + multiset(s[1..]);
    }
  }

  /** Filtering distributes over concatenation. */
  lemma {:induction false} FilterAppend<T>(a: seq<T>, b: seq<T>, p: T -> bool)
    ensures Filter(a + b, p) == Filter(a, p) + Filter(b, p)
  {
    if |a| == 0 {
      assert a + b == b;
    } else {
      assert (a + b)[1..] == a[1..] + b;
      FilterAppend(a[1..], b, p);
    }
  }

  /** `s[j]` is the one and only element satisfying `p`. */
  predicate Unique<T>(s: seq<T>, p: T -> bool, j: int) {
    0 <= j < |s| && p(s[j]) && forall k :: 0 <= k < |s| && p(s[k]) ==> k == j
  }

  /** `Where(p)` is empty iff no element satisfies `p`. */
  lemma FilterEmpty<T>(s: seq<T>, p: T -> bool)
    ensures |Filter(s, p)| == 0 <==> forall i :: 0 <= i < |s| ==> !p(s[i])
  {
    if |Filter(s, p)| > 0 {
      assert Filter(s, p)[0] in s;
    }
  }

  /** Past a first element that fails `p`, uniqueness moves one position. */
  lemma UniqueShift<T>(s: seq<T>, p: T -> bool, j: int)
    requires |s| > 0 && !p(s[0])
    ensures Unique(s, p, j + 1) <==> Unique(s[1..], p, j)
  {
    if Unique(s[1..], p, j) {
      forall k | 0 <= k < |s| && p(s[k]) ensures k == j + 1 {
        assert s[1..][k - 1] == s[k];
      }
    }
    if Unique(s, p, j + 1) {
      forall k | 0 <= k < |s[1..]| && p(s[1..][k]) ensures k == j {
        assert s[1..][k] == s[k + 1];
      }
    }
  }

  /** Exactly one element satisfies `p` iff `Where(p)` has exactly one element. */
  lemma {:induction false} FilterSingle<T>(s: seq<T>, p: T -> bool)
    ensures |Filter(s, p)| == 1 <==> exists j :: Unique(s, p, j)
    decreases |s|
  {
    if |s| > 0 {
      if p(s[0]) {
        FilterEmpty(s[1..], p);
        if |Filter(s[1..], p)| == 0 {
          assert Unique(s, p, 0);
        } else {
          var i :| 0 <= i < |s[1..]| && p(s[1..][i]);
          assert p(s[i + 1]);
        }
      } else {
        FilterSingle(s[1..], p);
        if |Filter(s[1..], p)| == 1 {
          var j :| Unique(s[1..], p, j);
          UniqueShift(s, p, j);
        }
        if exists j :: Unique(s, p, j) {
          var j :| Unique(s, p, j);
          UniqueShift(s, p, j - 1);
        }
      }
    }
  }

  /** Appending keeps the first match if there was one; otherwise the new element is the first match or there is none. */
  lemma FirstOrDefaultAppend<T>(s: seq<T>, x: T, p: T -> bool)
    ensures FirstOrDefault(s + [x], p) ==
      if FirstOrDefault(s, p).Some? then FirstOrDefault(s, p) else if p(x) then Some(x) else None
  {
    var k := FirstIndex(s, p);
    FirstIndexIsLeast(s + [x], p, if k < |s| || p(x) then k else |s| + 1);
  }

  /** Some row has the key `id` (LINQ `Any(r => r.Id == id)`). */
  predicate HasKey<T>(t: Table<T>, id: Guid) {
    exists i :: 0 <= i < |t| && t[i].id == id
  }

  /** `FindAsync(id)`: the row whose key is `id`, or null. */
  function Find<T>(t: Table<T>, id: Guid): (r: Option<Row<T>>)
    ensures r.None? <==> !HasKey(t, id)
    ensures r.Some? ==> r.value.id == id && r.value in t
  {
    FirstOrDefault(t, (row: Row<T>) => row.id == id)
  }

  /** The primary-key invariant: keys are non-empty, below the key generator and distinct. */
  ghost predicate Keyed<T>(t: Table<T>, next: Guid) {
    && (forall i :: 0 <= i < |t| ==> 0 < t[i].id < next)
    && (forall i, j :: 0 <= i < j < |t| ==> t[i].id != t[j].id)
  }

  /** A row of a keyed table is what `Find` returns for its key, and nothing else is. */
  lemma KeyedFind<T>(t: Table<T>, next: Guid, row: Row<T>)
    requires Keyed(t, next)
    ensures Find(t, row.id) == Some(row) <==> row in t
  {
    if row in t {
      var i :| 0 <= i < |t| && t[i] == row;
      FirstIndexIsLeast(t, (r: Row<T>) => r.id == row.id, i);
    }
  }

  /** Raising the key generator keeps a table keyed. */
  lemma KeyedRaise<T>(t: Table<T>, next: Guid, next': Guid)
    requires Keyed(t, next) && next <= next'
    ensures Keyed(t, next')
  {
  }

  /** Appending a row under a freshly generated key keeps the table keyed; the key was not in use. */
  lemma KeyedAdd<T>(t: Table<T>, next: Guid, row: Row<T>)
    requires Keyed(t, next) && 0 < next && row.id == next
    ensures !HasKey(t, row.id)
    ensures Keyed(t + [row], next + 1)
  {
  }

  /** After appending under a fresh key, `Find` returns the new row for its key and the old rows for theirs. */
  lemma {:induction false} FindAfterAdd<T>(t: Table<T>, row: Row<T>, id: Guid)
    requires !HasKey(t, row.id)
    ensures Find(t + [row], id) == if id == row.id then Some(row) else Find(t, id)
  {
    var p := (r: Row<T>) => r.id == id;
    var k := FirstIndex(t, p);
    if k < |t| {
      FirstIndexIsLeast(t + [row], p, k);
    } else if id == row.id {
      FirstIndexIsLeast(t + [row], p, |t|);
    } else {
      FirstIndexIsLeast(t + [row], p, |t| + 1);
    }
  }

  /** EF `Remove` of the row found for `id`: every row with another key stays, in order. */
  function RemoveKey<T>(t: Table<T>, id: Guid): (r: Table<T>)
    ensures !HasKey(r, id)
    ensures forall i :: 0 <= i < |r| ==> r[i] in t && r[i].id != id
    ensures forall i :: 0 <= i < |t| && t[i].id != id ==> t[i] in r
  {
    Filter(t, (row: Row<T>) => row.id != id)
  }

  /** Filtering by a predicate every element satisfies keeps the whole sequence. */
  lemma {:induction false} FilterAll<T>(s: seq<T>, p: T -> bool)
    requires forall i :: 0 <= i < |s| ==> p(s[i])
    ensures Filter(s, p) == s
  {
    if |s| > 0 {
      FilterAll(s[1..], p);
    }
  }

  /** Removing the key of a row just appended gives back the table before the append. */
  lemma RemoveAfterAdd<T>(t: Table<T>, row: Row<T>)
    requires !HasKey(t, row.id)
    ensures RemoveKey(t + [row], row.id) == t
  {
    var p := (r: Row<T>) => r.id != row.id;
    FilterAppend(t, [row], p);
    FilterAll(t, p);
    assert Filter([row], p) == [];
  }

  /** Filtering a keyed table keeps it keyed. */
  lemma {:induction false} FilterKeyed<T>(t: Table<T>, next: Guid, p: Row<T> -> bool)
    requires Keyed(t, next)
    ensures Keyed(Filter(t, p), next)
  {
    if |t| > 0 {
      var rest := t[1..];
      assert Keyed(rest, next);
      FilterKeyed(rest, next, p);
      var r := Filter(rest, p);
      forall i | 0 <= i < |r| ensures r[i].id != t[0].id {
        var j :| 0 <= j < |rest| && rest[j] == r[i];
        assert rest[j] == t[j + 1];
      }
    }
  }

  /** In a keyed table, removing a present key shortens the table by exactly one row. */
  lemma {:induction false} RemoveKeyCount<T>(t: Table<T>, next: Guid, id: Guid)
    requires Keyed(t, next)
    ensures |RemoveKey(t, id)| == if HasKey(t, id) then |t| - 1 else |t|
  {
    if |t| > 0 {
      var rest := t[1..];
      assert Keyed(rest, next);
      RemoveKeyCount(rest, next, id);
      assert HasKey(t, id) <==> t[0].id == id || HasKey(rest, id) by {
        if HasKey(t, id) && t[0].id != id {
          var i :| 0 <= i < |t| && t[i].id == id;
          assert rest[i - 1] == t[i];
        }
        if HasKey(rest, id) {
          var i :| 0 <= i < |rest| && rest[i].id == id;
          assert t[i + 1] == rest[i];
        }
      }
      if t[0].id == id {
        assert !HasKey(rest, id) by {
          forall i | 0 <= i < |rest| ensures rest[i].id != id {
            assert rest[i] == t[i + 1];
          }
        }
      }
    }
  }

  /** Removing a key keeps a table keyed and leaves `Find` unchanged on every other key. */
  lemma RemoveKeyed<T>(t: Table<T>, next: Guid, id: Guid, other: Guid)
    requires Keyed(t, next) && other != id
    ensures Keyed(RemoveKey(t, id), next)
    ensures Find(RemoveKey(t, id), other) == Find(t, other)
  {
    FilterKeyed(t, next, (row: Row<T>) => row.id != id);
    var r := RemoveKey(t, id);
    match Find(t, other)
    case Some(row) =>
      KeyedFind(t, next, row);
      KeyedFind(r, next, row);
    case None =>
  }

  /** EF `Update` of a tracked row: the row with the same key is replaced, nothing else moves. */
  function Replace<T>(t: Table<T>, row: Row<T>): (r: Table<T>)
    ensures |r| == |t|
    ensures forall i :: 0 <= i < |r| ==> r[i] == if t[i].id == row.id then row else t[i]
  {
    seq(|t|, i requires 0 <= i < |t| => if t[i].id == row.id then row else t[i])
  }

  /** Replacing the row just appended under a key not otherwise in use: only that row changes. */
  lemma ReplaceLast<T>(t: Table<T>, row: Row<T>, row': Row<T>)
    requires !HasKey(t, row.id) && row'.id == row.id
    ensures Replace(t + [row], row') == t + [row']
  {
    var r := Replace(t + [row], row');
    assert forall i :: 0 <= i < |t| ==> t[i].id != row.id;
    assert forall i :: 0 <= i < |t| ==> r[i] == t[i];
  }

  /** Replacing keeps the keys, so `Find` returns the new row for its key and the old rows for the others. */
  lemma ReplaceKeyed<T>(t: Table<T>, next: Guid, row: Row<T>, id: Guid)
    requires Keyed(t, next) && HasKey(t, row.id)
    ensures Keyed(Replace(t, row), next)
    ensures Find(Replace(t, row), id) == if id == row.id then Some(row) else Find(t, id)
  {
    var r := Replace(t, row);
    assert forall i :: 0 <= i < |t| ==> r[i].id == t[i].id;
    var p := (x: Row<T>) => x.id == id;
    var k := FirstIndex(t, p);
    FirstIndexIsLeast(r, p, k);
  }
}
