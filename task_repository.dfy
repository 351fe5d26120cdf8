/** The task table's queries: findAll, and findWithFilters (exact status
    filter, newest first, offset and limit), as functions of the table's
    contents, a map from id to row. Being functions, they change nothing. */
module TaskRepository {
  import opened Wrappers
  import opened TaskEntity

  function Min(a: int, b: int): int
  {
    if a <= b then a else b
  }

  // ---------------------------------------------------------------------
  // findAll
  // ---------------------------------------------------------------------

  /** A non-empty set has a member. */
  lemma HasMember(ids: set<int>)
    requires ids != {}
    ensures exists x :: x in ids
  {
    if forall x :: x !in ids {
      assert false;
    }
  }

  /** Every non-empty set of ids has a least element. */
  lemma {:induction false} HasLeast(ids: set<int>)
    requires ids != {}
    ensures exists m :: m in ids && forall k :: k in ids ==> m <= k
    decreases |ids|
  {
    HasMember(ids);
    var x :| x in ids;
    if ids != {x} {
      var rest := ids - {x};
      assert |rest| == |ids| - 1;
      HasLeast(rest);
      var m :| m in rest && forall k :: k in rest ==> m <= k;
      var least := if x < m then x else m;
      forall k | k in ids
        ensures least <= k
      {
        if k != x {
          assert k in rest;
        }
      }
      assert least in ids;
    }
  }

  /** The smallest id of a non-empty set. */
  function MinId(ids: set<int>): (m: int)
    requires ids != {}
    ensures m in ids && forall k :: k in ids ==> m <= k
  {
    HasLeast(ids);
    var m :| m in ids && forall k :: k in ids ==> m <= k;
    m
  }

  /** The ids of the table in ascending order, each exactly once. */
  function AscendingIds(ids: set<int>): (r: seq<int>)
    ensures |r| == |ids|
    ensures forall k :: k in r <==> k in ids
    ensures forall i, j :: 0 <= i < j < |r| ==> r[i] < r[j]
    decreases |ids|
  {
    if ids == {} then []
    else
      var m := MinId(ids);
      var rest := AscendingIds(ids - {m});
      PrependSmaller(m, rest);
      [m] + rest
  }

  /** Putting an id below every element in front keeps a sequence ascending. */
  lemma PrependSmaller(m: int, rest: seq<int>)
    requires forall i, j :: 0 <= i < j < |rest| ==> rest[i] < rest[j]
    requires forall k :: k in rest ==> m < k
    ensures forall i, j :: 0 <= i < j < |[m] + rest| ==> ([m] + rest)[i] < ([m] + rest)[j]
  {
    var r := [m] + rest;
    forall i, j | 0 <= i < j < |r|
      ensures r[i] < r[j]
    {
      assert r[j] == rest[j - 1];
      if i > 0 {
        assert r[i] == rest[i - 1];
      } else {
        assert rest[j - 1] in rest;
      }
    }
  }

  /** The table's rows are keyed by their own ids. */
  predicate Keyed(tasks: map<int, Task>)
  {
    forall k :: k in tasks ==> tasks[k].id == Some(k)
  }

  /** The rows stored under the given ids, in the same order. */
  function RowsAt(tasks: map<int, Task>, ids: seq<int>): (r: seq<Task>)
    requires forall i :: 0 <= i < |ids| ==> ids[i] in tasks
    ensures |r| == |ids|
    ensures forall i :: 0 <= i < |r| ==> r[i] == tasks[ids[i]]
    decreases |ids|
  {
    if ids == [] then [] else [tasks[ids[0]]] + RowsAt(tasks, ids[1..])
  }

  /** Listing the rows under every id once, ascending, lists every row once. */
  lemma RowsAtListsTable(tasks: map<int, Task>, ids: seq<int>)
    requires forall i :: 0 <= i < |ids| ==> ids[i] in tasks
    requires forall k :: k in tasks ==> k in ids
    requires forall i, j :: 0 <= i < j < |ids| ==> ids[i] < ids[j]
    ensures forall t :: t in RowsAt(tasks, ids) <==> t in tasks.Values
    ensures Keyed(tasks) ==> forall i, j :: 0 <= i < j < |ids| ==> RowsAt(tasks, ids)[i] != RowsAt(tasks, ids)[j]
  {
    var r := RowsAt(tasks, ids);
    forall t | t in r
      ensures t in tasks.Values
    {
      var i :| 0 <= i < |r| && r[i] == t;
      assert ids[i] in tasks && t == tasks[ids[i]];
    }
    forall k | k in tasks
      ensures tasks[k] in r
    {
      var i :| 0 <= i < |ids| && ids[i] == k;
      assert r[i] == tasks[k];
    }
    if Keyed(tasks) {
      forall i, j | 0 <= i < j < |r|
        ensures r[i] != r[j]
      {
        assert r[i].id == Some(ids[i]) && r[j].id == Some(ids[j]);
      }
    }
  }

  /** findAll: one entry per stored row (in ascending id order, the order
      the table is scanned in). */
  function FindAll(tasks: map<int, Task>): (r: seq<Task>)
    ensures |r| == |tasks|
    ensures forall t :: t in r <==> t in tasks.Values
    ensures Keyed(tasks) ==> forall i, j :: 0 <= i < j < |r| ==> r[i] != r[j]
  {
    var ids := AscendingIds(tasks.Keys);
    assert |tasks.Keys| == |tasks|;
    RowsAtListsTable(tasks, ids);
    RowsAt(tasks, ids)
  }

  // ---------------------------------------------------------------------
  // The status filter
  // ---------------------------------------------------------------------

  /** The status argument switches the filter on unless it is null or empty. */
  predicate Filtering(status: Option<string>)
  {
    status.Some? && status.value != ""
  }

  /** A row passes the status condition of the query. */
  predicate Matches(t: Task, status: Option<string>)
  {
    !Filtering(status) || t.status == status
  }

  /** The rows that pass the status condition, each as often as in rows. */
  function FilterByStatus(rows: seq<Task>, status: Option<string>): (r: seq<Task>)
    ensures forall i :: 0 <= i < |r| ==> Matches(r[i], status)
    ensures forall t :: multiset(r)[t] == if Matches(t, status) then multiset(rows)[t] else 0
    ensures !Filtering(status) ==> r == rows
    decreases |rows|
  {
    if rows == [] then []
    else
      var rest := FilterByStatus(rows[1..], status);
      assert rows == [rows[0]] + rows[1..];
      if Matches(rows[0], status) then [rows[0]] + rest else rest
  }

  // ---------------------------------------------------------------------
  // ORDER BY createdAt DESC
  // ---------------------------------------------------------------------

  /** The sort key. The createdAt column is NOT NULL, so every stored row
      has one; a null would sort as the earliest time. */
  function CreatedKey(t: Task): nat
  {
    if t.createdAt.Some? then t.createdAt.value else 0
  }

  /** Ordered by createdAt descending; rows with equal createdAt may come
      in any order. */
  predicate NewestFirst(s: seq<Task>)
  {
    forall i, j :: 0 <= i < j < |s| ==> CreatedKey(s[i]) >= CreatedKey(s[j])
  }

  /** When t sorts after the head of s, the head is at least as new as any
      row of the rest of s with t inserted. */
  lemma HeadBoundsRest(s: seq<Task>, t: Task, rest: seq<Task>)
    requires NewestFirst(s) && s != [] && CreatedKey(t) < CreatedKey(s[0])
    requires multiset(rest) == multiset(s[1..]) + multiset{t}
    ensures forall j :: 0 <= j < |rest| ==> CreatedKey(s[0]) >= CreatedKey(rest[j])
  {
    forall j | 0 <= j < |rest|
      ensures CreatedKey(s[0]) >= CreatedKey(rest[j])
    {
      assert rest[j] in multiset(rest);
      if rest[j] != t {
        assert rest[j] in multiset(s[1..]);
        var k :| 0 <= k < |s[1..]| && s[1..][k] == rest[j];
        assert s[k + 1] == rest[j];
      }
    }
  }

  /** Putting a row at least as new as every row in front keeps a sequence
      newest first. */
  lemma PrependNewer(x: Task, rest: seq<Task>)
    requires NewestFirst(rest)
    requires forall j :: 0 <= j < |rest| ==> CreatedKey(x) >= CreatedKey(rest[j])
    ensures NewestFirst([x] + rest)
  {
    var r := [x] + rest;
    forall i, j | 0 <= i < j < |r|
      ensures CreatedKey(r[i]) >= CreatedKey(r[j])
    {
      assert r[j] == rest[j - 1];
      if i > 0 {
        assert r[i] == rest[i - 1];
      }
    }
  }

  function InsertByCreated(t: Task, s: seq<Task>): (r: seq<Task>)
    requires NewestFirst(s)
    ensures NewestFirst(r)
    ensures multiset(r) == multiset(s) + multiset{t}
    decreases |s|
  {
    if s == [] || CreatedKey(t) >= CreatedKey(s[0]) then
      PrependNewer(t, s);
      [t] + s
    else
      var rest := InsertByCreated(t, s[1..]);
      assert multiset(s) == multiset{s[0]} + multiset(s[1..]) by {
        assert s == [s[0]] + s[1..];
      }
      HeadBoundsRest(s, t, rest);
      PrependNewer(s[0], rest);
      [s[0]] + rest
  }

  /** The rows rearranged newest first. */
  function SortNewestFirst(s: seq<Task>): (r: seq<Task>)
    ensures NewestFirst(r)
    ensures multiset(r) == multiset(s)
    decreases |s|
  {
    if s == [] then []
    else
      assert s == [s[0]] + s[1..];
      InsertByCreated(s[0], SortNewestFirst(s[1..]))
  }

  // ---------------------------------------------------------------------
  // setFirstResult / setMaxResults
  // ---------------------------------------------------------------------

  /** At most count rows of s, starting at position offset; none when the
      offset is past the end. */
  function Window(s: seq<Task>, offset: nat, count: nat): (r: seq<Task>)
    // implied by the exact length below; stated on its own for callers that need only the bound
    ensures |r| <= count
    ensures |r| == if offset >= |s| then 0 else Min(count, |s| - offset)
    ensures forall i :: 0 <= i < |r| ==> r[i] == s[offset + i]
  {
    if offset >= |s| then [] else s[offset .. offset + Min(count, |s| - offset)]
  }

  // ---------------------------------------------------------------------
  // findWithFilters
  // ---------------------------------------------------------------------

  /** The rows the query selects, in the order it returns them, before the
      offset and limit are applied. */
  function Ordered(tasks: map<int, Task>, status: Option<string>): (r: seq<Task>)
    ensures NewestFirst(r)
  {
    SortNewestFirst(FilterByStatus(FindAll(tasks), status))
  }

  /** The selection holds, with multiplicity, exactly the rows of the table
      that pass the status condition. */
  lemma OrderedCounts(tasks: map<int, Task>, status: Option<string>)
    ensures forall t :: multiset(Ordered(tasks, status))[t] ==
                        if Matches(t, status) then multiset(FindAll(tasks))[t] else 0
  {
    var filtered := FilterByStatus(FindAll(tasks), status);
    assert multiset(Ordered(tasks, status)) == multiset(filtered);
  }

  /** Every selected row is a stored row that passes the status condition. */
  lemma OrderedRowsStored(tasks: map<int, Task>, status: Option<string>, t: Task)
    requires t in Ordered(tasks, status)
    ensures Matches(t, status) && t in tasks.Values
  {
    var all := FindAll(tasks);
    OrderedCounts(tasks, status);
    assert multiset(Ordered(tasks, status))[t] > 0;
    assert Matches(t, status) && multiset(all)[t] > 0;
    assert t in all;
  }

  /** Every row of a window of the selected rows is a stored row that passes
      the status condition. */
  lemma WindowRowsStored(tasks: map<int, Task>, status: Option<string>, offset: nat, count: nat)
    ensures forall i :: 0 <= i < |Window(Ordered(tasks, status), offset, count)| ==>
      var t := Window(Ordered(tasks, status), offset, count)[i];
      Matches(t, status) && t in tasks.Values
  {
    var ordered := Ordered(tasks, status);
    var r := Window(ordered, offset, count);
    forall i | 0 <= i < |r|
      ensures Matches(r[i], status) && r[i] in tasks.Values
    {
      assert r[i] == ordered[offset + i];
      OrderedRowsStored(tasks, status, r[i]);
    }
  }

  /** The offset of a page: (page - 1) * limit rows are skipped. */
  function Offset(page: int, limit: int): nat
    requires page >= 1 && limit >= 1
  {
    (page - 1) * limit
  }

  /** A window of a newest-first sequence is newest first. */
  lemma WindowNewestFirst(s: seq<Task>, offset: nat, count: nat)
    requires NewestFirst(s)
    ensures NewestFirst(Window(s, offset, count))
  {
    var r := Window(s, offset, count);
    forall i, j | 0 <= i < j < |r|
      ensures CreatedKey(r[i]) >= CreatedKey(r[j])
    {
      assert r[i] == s[offset + i] && r[j] == s[offset + j];
    }
  }

  /** findWithFilters(status, page, limit). */
  function FindWithFilters(tasks: map<int, Task>, status: Option<string>, page: int, limit: int): (r: seq<Task>)
    requires page >= 1 && limit >= 1
    ensures |r| <= limit
    ensures NewestFirst(r)
    ensures forall i :: 0 <= i < |r| ==> Matches(r[i], status) && r[i] in tasks.Values
  {
    var ordered := Ordered(tasks, status);
    var offset := Offset(page, limit);
    WindowRowsStored(tasks, status, offset, limit);
    WindowNewestFirst(ordered, offset, limit);
    Window(ordered, offset, limit)
  }

  // ---------------------------------------------------------------------
  // Properties of the query
  // ---------------------------------------------------------------------

  /** The result is the window of the selected, ordered rows that starts
      at offset (page - 1) * limit and holds up to limit rows. */
  lemma FindWithFiltersWindow(tasks: map<int, Task>, status: Option<string>, page: int, limit: int)
    requires page >= 1 && limit >= 1
    ensures var r := FindWithFilters(tasks, status, page, limit);
      var ordered := Ordered(tasks, status);
      var offset := (page - 1) * limit;
      && |r| == (if offset >= |ordered| then 0 else Min(limit, |ordered| - offset))
      && forall i :: 0 <= i < |r| ==> r[i] == ordered[offset + i]
  {
  }

  /** With a non-empty status, a stored row is selected exactly when it has
      that status; with a null or empty status, every stored row is. */
  lemma OrderedSelects(tasks: map<int, Task>, status: Option<string>, t: Task)
    ensures t in Ordered(tasks, status) <==> t in tasks.Values && Matches(t, status)
  {
    var all := FindAll(tasks);
    var ordered := Ordered(tasks, status);
    OrderedCounts(tasks, status);
    assert t in ordered <==> multiset(ordered)[t] > 0;
    assert t in all <==> multiset(all)[t] > 0;
  }

  /** A null or empty status leaves the query unfiltered: its rows are
      exactly the table's rows, rearranged. */
  lemma UnfilteredIsPermutation(tasks: map<int, Task>, status: Option<string>)
    requires !Filtering(status)
    ensures multiset(Ordered(tasks, status)) == multiset(FindAll(tasks))
  {
    assert FilterByStatus(FindAll(tasks), status) == FindAll(tasks);
  }

  /** The default arguments (status null, page 1, limit 10) give the ten
      newest rows of the whole table, or all of them when there are fewer. */
  lemma DefaultArguments(tasks: map<int, Task>)
    ensures FindWithFilters(tasks, None, 1, 10) == Ordered(tasks, None)[..Min(10, |tasks|)]
    ensures multiset(Ordered(tasks, None)) == multiset(FindAll(tasks))
  {
    UnfilteredIsPermutation(tasks, None);
    var ordered := Ordered(tasks, None);
    var all := FindAll(tasks);
    assert |ordered| == |tasks| by {
      assert |ordered| == |multiset(ordered)|;
      assert |all| == |multiset(all)|;
    }
    assert FindWithFilters(tasks, None, 1, 10) == Window(ordered, 0, 10);
    FirstWindow(ordered, 10);
  }

  lemma FirstWindow(s: seq<Task>, count: nat)
    ensures Window(s, 0, count) == s[..Min(count, |s|)]
  {
  }
}
