/** The owner-scoped todo store: create, list (filter, order, page, count),
    get, patch and delete, each on behalf of the authenticated caller's
    `userId`. Every operation is a pure function of the table; the mutating
    ones return the new table beside their result. */
module TodosService {
  import opened Common
  import opened Seqs
  import opened TodoEntity
  import opened CreateTodoDto
  import opened QueryTodoDto

  const NotFoundMessage: string := "Todo not found"
  const DeletedMessage: string := "Todo deleted successfully"

  /** The table after an operation, and what the operation returned. */
  datatype Response<T> = Response(store: Store, result: Result<T>)

  /* ----------------------------------------------------------------- create */

  /** The row built from a payload: the payload's fields, the caller as
      owner, and the column defaults for what the payload left out. The
      payload type has no owner field (the validator strips every key outside
      the five it knows), so the owner is always the caller. */
  function NewTodo(dto: CreateTodo, id: nat, userId: int): Todo {
    Todo(
      id := id,
      title := dto.title,
      description := dto.description,
      isCompleted := dto.isCompleted.GetOr(DefaultIsCompleted),
      dueDate := dto.dueDate,
      priority := dto.priority.GetOr(DefaultPriority),
      userId := userId)
  }

  /** Insert a new row under the next generated id, owned by the caller. */
  function Create(s: Store, dto: CreateTodo, userId: int): (r: Response<Todo>)
    ensures r.result.Ok?
    ensures r.result.value.userId == userId
    ensures r.result.value.title == dto.title
    ensures r.result.value.description == dto.description
    ensures r.result.value.dueDate == dto.dueDate
    ensures dto.priority.None? ==> r.result.value.priority == Medium
    ensures dto.priority.Some? ==> r.result.value.priority == dto.priority.value
    ensures dto.isCompleted.None? ==> !r.result.value.isCompleted
    ensures dto.isCompleted.Some? ==> r.result.value.isCompleted == dto.isCompleted.value
    ensures Valid(s) ==> r.result.value.id !in s.rows
    ensures r.result.value.id == s.nextId && r.store.nextId == s.nextId + 1
    ensures r.store.rows.Keys == s.rows.Keys + {r.result.value.id}
    ensures r.store.rows[r.result.value.id] == r.result.value
    ensures forall k :: k in s.rows && k != r.result.value.id ==> r.store.rows[k] == s.rows[k]
    ensures Valid(s) ==> Valid(r.store)
  {
    var t := NewTodo(dto, s.nextId, userId);
    Response(Store(s.rows[s.nextId := t], s.nextId + 1), Ok(t))
  }

  /* ---------------------------------------------------------------- findOne */

  /** The caller's todo with this id. A missing id and an id owned by someone
      else give the same `NotFound`: another user's rows are invisible, not
      forbidden. */
  function FindOne(s: Store, id: int, userId: int): (r: Result<Todo>)
    ensures r.Ok? <==> 0 <= id && id as nat in s.rows && s.rows[id as nat].userId == userId
    ensures r.Ok? ==> r.value == s.rows[id as nat]
    ensures r.Err? ==> r.error == NotFound(NotFoundMessage)
  {
    if 0 <= id && id as nat in s.rows && s.rows[id as nat].userId == userId then Ok(s.rows[id as nat])
    else Err(NotFound(NotFoundMessage))
  }

  /* ----------------------------------------------------------------- update */

  /** A partial update: each field is either left out (`None`) or replaced.
      There is no field for `id` or `userId`, so neither can change. */
  datatype Patch = Patch(
    title: Option<string>,
    description: Option<string>,
    dueDate: Option<string>,
    priority: Option<Priority>,
    isCompleted: Option<bool>)

  const EmptyPatch: Patch := Patch(None, None, None, None, None)

  /** Copy the fields present in the patch onto the row. */
  function ApplyPatch(t: Todo, p: Patch): (r: Todo)
    ensures r.id == t.id && r.userId == t.userId
    ensures p.title.Some? ==> r.title == p.title.value
    ensures p.title.None? ==> r.title == t.title
    ensures p.description.Some? ==> r.description == p.description
    ensures p.description.None? ==> r.description == t.description
    ensures p.dueDate.Some? ==> r.dueDate == p.dueDate
    ensures p.dueDate.None? ==> r.dueDate == t.dueDate
    ensures p.priority.Some? ==> r.priority == p.priority.value
    ensures p.priority.None? ==> r.priority == t.priority
    ensures p.isCompleted.Some? ==> r.isCompleted == p.isCompleted.value
    ensures p.isCompleted.None? ==> r.isCompleted == t.isCompleted
  {
    t.(
      title := p.title.GetOr(t.title),
      description := if p.description.Some? then p.description else t.description,
      dueDate := if p.dueDate.Some? then p.dueDate else t.dueDate,
      priority := p.priority.GetOr(t.priority),
      isCompleted := p.isCompleted.GetOr(t.isCompleted))
  }

  /** Patch the caller's todo; `NotFound` (and no change) when it is missing
      or someone else's. */
  function Update(s: Store, id: int, patch: Patch, userId: int): (r: Response<Todo>)
    ensures r.result.Ok? <==> FindOne(s, id, userId).Ok?
    ensures r.result.Err? ==> r.store == s && r.result.error == NotFound(NotFoundMessage)
    ensures r.result.Ok? ==> r.result.value == ApplyPatch(s.rows[id as nat], patch)
    ensures r.result.Ok? ==> id as nat in r.store.rows && r.store.rows[id as nat] == r.result.value
    ensures r.store.rows.Keys == s.rows.Keys && r.store.nextId == s.nextId
    ensures forall k :: k in s.rows && k as int != id ==> r.store.rows[k] == s.rows[k]
    ensures Valid(s) ==> Valid(r.store)
  {
    match FindOne(s, id, userId)
    case Err(e) => Response(s, Err(e))
    case Ok(t) =>
      var t' := ApplyPatch(t, patch);
      Response(Store(s.rows[id as nat := t'], s.nextId), Ok(t'))
  }

  /* ----------------------------------------------------------------- remove */

  /** Permanently delete the caller's todo; `NotFound` (and no change) when it
      is missing or someone else's. */
  function Remove(s: Store, id: int, userId: int): (r: Response<string>)
    ensures r.result.Ok? <==> FindOne(s, id, userId).Ok?
    ensures r.result.Err? ==> r.store == s && r.result.error == NotFound(NotFoundMessage)
    ensures r.result.Ok? ==> r.result.value == DeletedMessage
    ensures r.result.Ok? ==> r.store.rows.Keys == s.rows.Keys - {id as nat}
    ensures r.result.Ok? ==> FindOne(r.store, id, userId).Err?
    ensures r.store.nextId == s.nextId
    ensures forall k :: k in r.store.rows ==> k in s.rows && r.store.rows[k] == s.rows[k]
    ensures forall k :: k in s.rows && k as int != id ==> k in r.store.rows
    ensures Valid(s) ==> Valid(r.store)
  {
    match FindOne(s, id, userId)
    case Err(e) => Response(s, Err(e))
    case Ok(_) => Response(Store(s.rows - {id as nat}, s.nextId), Ok(DeletedMessage))
  }

  /* ---------------------------------------------------------------- findAll */

  /** How the store orders rows for a query's `sortBy` and `sortOrder`: a
      "comes no later than" relation. Which column and direction a pair of
      strings selects is the database's business and is left abstract. */
  type Ordering = (Todo, Todo) -> bool

  /** One page of a listing with its metadata. */
  datatype Page = Page(data: seq<Todo>, total: nat, page: int, limit: int, totalPages: nat)

  /** A table scan in primary-key order over the ids in `[lo, hi)`. */
  function ScanRange(m: map<nat, Todo>, lo: nat, hi: nat): (r: seq<Todo>)
    ensures forall k :: lo <= k < hi && k in m ==> m[k] in r
    ensures forall i :: 0 <= i < |r| ==> r[i] in m.Values
    decreases hi - lo
  {
    if lo >= hi then []
    else (if lo in m then [m[lo]] else []) + ScanRange(m, lo + 1, hi)
  }

  /** Every row of the table, in id order. */
  function Scan(s: Store): seq<Todo> {
    ScanRange(s.rows, 0, s.nextId)
  }

  /** The status filter: `Some(v)` when rows must have `isCompleted == v`.
      Any non-empty status applies it, and only `"completed"` asks for
      completed rows; an absent or empty status filters nothing. */
  function StatusFilter(status: Option<string>): (r: Option<bool>)
    ensures r.None? <==> status.None? || status.value == ""
    ensures r.Some? ==> (r.value <==> status.value == "completed")
  {
    if status.Some? && status.value != "" then Some(status.value == "completed") else None
  }

  /** The part of a query that selects rows (as opposed to ordering and
      paging them). */
  datatype Filters = Filters(status: Option<string>, priority: Option<Priority>, search: Option<string>)

  function FiltersOf(q: Query): Filters {
    Filters(q.status, q.priority, q.search)
  }

  /** The WHERE clause: the caller's rows, AND the optional status, priority
      and title-search conditions. An empty search string filters nothing. */
  predicate Matches(t: Todo, userId: int, f: Filters)
    ensures Matches(t, userId, f) ==> t.userId == userId
    ensures f == Filters(None, None, None) ==> (Matches(t, userId, f) <==> t.userId == userId)
  {
    && t.userId == userId
    && (StatusFilter(f.status).Some? ==> t.isCompleted == StatusFilter(f.status).value)
    && (f.priority.Some? ==> t.priority == f.priority.value)
    && (f.search.Some? && f.search.value != "" ==> Contains(t.title, f.search.value))
  }

  function Criteria(userId: int, f: Filters): Todo -> bool {
    t => Matches(t, userId, f)
  }

  /** The ids in `[lo, hi)` whose rows satisfy `p`. */
  function SelectedIds(m: map<nat, Todo>, lo: nat, hi: nat, p: Todo -> bool): set<nat> {
    set k: nat | lo <= k < hi && k in m && p(m[k])
  }

  /** The ids of the caller's rows that the query selects. */
  function MatchingIds(s: Store, userId: int, f: Filters): set<nat> {
    set k | k in s.rows && Matches(s.rows[k], userId, f)
  }

  /** Every selected row, ordered: the sequence a page is cut from. */
  function Listing(s: Store, userId: int, f: Filters, le: Ordering): seq<Todo> {
    Sort(Filter(Scan(s), Criteria(userId, f)), le)
  }

  /** One step of a selected scan: the row at `lo`, if it is there and
      selected, followed by the rest. */
  lemma ScanRangeStep(m: map<nat, Todo>, lo: nat, hi: nat, p: Todo -> bool)
    requires lo < hi
    ensures Filter(ScanRange(m, lo, hi), p)
      == (if lo in m && p(m[lo]) then [m[lo]] else []) + Filter(ScanRange(m, lo + 1, hi), p)
  {
    var head: seq<Todo> := if lo in m then [m[lo]] else [];
    assert ScanRange(m, lo, hi) == head + ScanRange(m, lo + 1, hi);
    FilterConcat(head, ScanRange(m, lo + 1, hi), p);
    if lo in m {
      assert Filter(head, p) == (if p(m[lo]) then [m[lo]] else []) + Filter([], p);
    }
  }

  /** One step of the selected ids: `lo` itself, if selected, and the rest. */
  lemma SelectedIdsStep(m: map<nat, Todo>, lo: nat, hi: nat, p: Todo -> bool)
    requires lo < hi
    ensures |SelectedIds(m, lo, hi, p)|
      == (if lo in m && p(m[lo]) then 1 else 0) + |SelectedIds(m, lo + 1, hi, p)|
  {
    var rest := SelectedIds(m, lo + 1, hi, p);
    assert lo !in rest;
    if lo in m && p(m[lo]) {
      assert SelectedIds(m, lo, hi, p) == rest + {lo};
    } else {
      assert SelectedIds(m, lo, hi, p) == rest;
    }
  }

  /** Counting the selected rows of a scan counts the selected ids. */
  lemma {:induction false} ScanRangeCount(m: map<nat, Todo>, lo: nat, hi: nat, p: Todo -> bool)
    ensures |Filter(ScanRange(m, lo, hi), p)| == |SelectedIds(m, lo, hi, p)|
    decreases hi - lo
  {
    if lo >= hi {
      assert SelectedIds(m, lo, hi, p) == {};
    } else {
      ScanRangeStep(m, lo, hi, p);
      SelectedIdsStep(m, lo, hi, p);
      ScanRangeCount(m, lo + 1, hi, p);
    }
  }

  /** Soundness of the listing: it holds only the caller's rows that match
      every filter, and only rows of the table. */
  lemma ListingSound(s: Store, userId: int, f: Filters, le: Ordering)
    ensures forall t :: t in Listing(s, userId, f, le) ==>
      t.userId == userId && Matches(t, userId, f) && t in s.rows.Values
  {
    var filtered := Filter(Scan(s), Criteria(userId, f));
    forall t | t in Listing(s, userId, f, le)
      ensures t.userId == userId && Matches(t, userId, f) && t in s.rows.Values
    {
      assert t in multiset(Listing(s, userId, f, le));
      assert t in multiset(filtered);
      var i :| 0 <= i < |filtered| && filtered[i] == t;
    }
  }

  /** Completeness of the listing: every matching row of the table is in it. */
  lemma ListingComplete(s: Store, userId: int, f: Filters, le: Ordering)
    requires Valid(s)
    ensures forall k :: k in s.rows && Matches(s.rows[k], userId, f) ==> s.rows[k] in Listing(s, userId, f, le)
  {
    var filtered := Filter(Scan(s), Criteria(userId, f));
    forall k | k in s.rows && Matches(s.rows[k], userId, f)
      ensures s.rows[k] in Listing(s, userId, f, le)
    {
      var t := s.rows[k];
      assert t in Scan(s);
      var i :| 0 <= i < |Scan(s)| && Scan(s)[i] == t;
      assert Criteria(userId, f)(t);
      assert t in filtered;
      assert t in multiset(Listing(s, userId, f, le));
    }
  }

  /** The listing has exactly one entry per matching id. */
  lemma ListingCount(s: Store, userId: int, f: Filters, le: Ordering)
    ensures Valid(s) ==> |Listing(s, userId, f, le)| == |MatchingIds(s, userId, f)|
  {
    ScanRangeCount(s.rows, 0, s.nextId, Criteria(userId, f));
    if Valid(s) {
      MatchingIdsInRange(s, userId, f);
    }
  }

  /** In a valid table every id lies below `nextId`, so the matching ids are
      the selected ids of `[0, nextId)`. */
  lemma MatchingIdsInRange(s: Store, userId: int, f: Filters)
    requires Valid(s)
    ensures MatchingIds(s, userId, f) == SelectedIds(s.rows, 0, s.nextId, Criteria(userId, f))
  {
    var p := Criteria(userId, f);
    forall k | k in MatchingIds(s, userId, f)
      ensures k in SelectedIds(s.rows, 0, s.nextId, p)
    {
      assert p(s.rows[k]);
    }
  }

  /** The rows a page skips: `(page - 1) * limit`. */
  function Skip(q: Query): (n: nat)
    requires WellFormed(q)
    ensures n == (q.page - 1) * q.limit
  {
    var n := (q.page - 1) * q.limit;
    assert n >= 0 by { assert q.page - 1 >= 0 && q.limit >= 0; }
    n
  }

  /** Cut page `q.page` out of the ordered rows and attach the counts. */
  function Paginate(all: seq<Todo>, q: Query): (r: Page)
    requires WellFormed(q)
    ensures |r.data| <= q.limit
    ensures |r.data| == 0 <==> Skip(q) >= |all|
    ensures |r.data| > 0 ==> Skip(q) + |r.data| <= |all|
    ensures Skip(q) + q.limit <= |all| ==> |r.data| == q.limit
    ensures forall i :: 0 <= i < |r.data| ==> r.data[i] == all[Skip(q) + i]
    ensures forall t :: t in r.data ==> t in all
    ensures r.total == |all| && r.page == q.page && r.limit == q.limit
    ensures r.totalPages * q.limit >= r.total
    ensures r.total > 0 ==> r.totalPages * q.limit < r.total + q.limit
    ensures r.total == 0 ==> r.totalPages == 0
  {
    var data := Window(all, Skip(q), q.limit);
    assert forall t :: t in data ==> t in all;
    Page(data, |all|, q.page, q.limit, CeilDiv(|all|, q.limit))
  }

  /** List the caller's todos that match the query: filter, order, skip
      `(page - 1) * limit` rows, take `limit`, and report the unpaged count. */
  function FindAll(s: Store, userId: int, q: Query, orderFor: (string, string) -> Ordering): (r: Page)
    requires WellFormed(q)
    ensures forall t :: t in r.data ==> t.userId == userId && Matches(t, userId, FiltersOf(q))
    ensures forall t :: t in r.data ==> t in s.rows.Values
    ensures |r.data| <= q.limit
    ensures r.page == q.page && r.limit == q.limit
    ensures Valid(s) ==> r.total == |MatchingIds(s, userId, FiltersOf(q))|
    ensures r.totalPages == CeilDiv(r.total, q.limit)
    ensures r.total == |Listing(s, userId, FiltersOf(q), orderFor(q.sortBy, q.sortOrder))|
    ensures r.data == Window(Listing(s, userId, FiltersOf(q), orderFor(q.sortBy, q.sortOrder)), Skip(q), q.limit)
  {
    var le := orderFor(q.sortBy, q.sortOrder);
    ListingSound(s, userId, FiltersOf(q), le);
    ListingCount(s, userId, FiltersOf(q), le);
    Paginate(Listing(s, userId, FiltersOf(q), le), q)
  }
}
