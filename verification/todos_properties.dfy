/** Properties that relate several calls of the todo store: what a create,
    get, patch or delete implies for later calls, the isolation between
    owners, the meaning of the listing filters, and the paging arithmetic. */
module TodosProperties {
  import opened Common
  import opened Seqs
  import opened TodoEntity
  import opened CreateTodoDto
  import opened QueryTodoDto
  import opened TodosService

  /* ---------------------------------------------------------- create / get */

  /** A created todo is visible to its creator under its new id, and to
      nobody else. */
  lemma CreateThenFindOne(s: Store, dto: CreateTodo, userId: int, other: int)
    requires Valid(s)
    requires other != userId
    ensures var r := Create(s, dto, userId);
      && FindOne(r.store, r.result.value.id, userId) == Ok(r.result.value)
      && FindOne(r.store, r.result.value.id, other) == Err(NotFound(NotFoundMessage))
  {
  }

  /** The owner of a created row is the caller even when the request body
      names some other `userId`: the validator keeps only the five payload
      fields, and the payload type has no owner field to carry it. */
  lemma CreateIgnoresPayloadOwner(s: Store, body: Body, isDate: string -> bool, userId: int, claimed: int)
    requires "userId" in body && body["userId"] == JNumber(claimed)
    requires ValidateCreate(body, isDate).Ok?
    ensures Create(s, ValidateCreate(body, isDate).value, userId).result.value.userId == userId
  {
  }

  /** Asking for someone else's todo gives exactly what asking for an id
      that does not exist gives. */
  lemma ForeignLooksMissing(s: Store, id: nat, userId: int)
    requires id in s.rows && s.rows[id].userId != userId
    ensures FindOne(s, id, userId) == FindOne(Store(s.rows - {id}, s.nextId), id, userId)
  {
  }

  /* ---------------------------------------------------------------- update */

  /** The empty patch changes nothing. */
  lemma ApplyEmptyPatch(t: Todo)
    ensures ApplyPatch(t, EmptyPatch) == t
  {
  }

  /** Sending the same patch twice leaves the table as sending it once. */
  lemma UpdateIdempotent(s: Store, id: int, patch: Patch, userId: int)
    ensures var once := Update(s, id, patch, userId);
      && Update(once.store, id, patch, userId).store == once.store
      && Update(once.store, id, patch, userId).result == once.result
  {
  }

  /* ---------------------------------------------------------------- remove */

  /** After a delete, get, patch and delete on that id all give `NotFound`,
      and the rest of the table is as before. */
  lemma RemoveThenNotFound(s: Store, id: int, userId: int, patch: Patch)
    requires FindOne(s, id, userId).Ok?
    ensures var s' := Remove(s, id, userId).store;
      && FindOne(s', id, userId) == Err(NotFound(NotFoundMessage))
      && Update(s', id, patch, userId) == Response(s', Err(NotFound(NotFoundMessage)))
      && Remove(s', id, userId) == Response(s', Err(NotFound(NotFoundMessage)))
      && s'.rows == s.rows - {id as nat}
  {
    var s' := Remove(s, id, userId).store;
    assert s'.rows == s.rows - {id as nat};
  }

  /** Ids are never reissued: after a row is deleted (by anyone), the next
      create hands out a different id, so the deleted id stays missing. */
  lemma DeletedIdNeverReissued(s: Store, k: nat, id: int, userId: int, dto: CreateTodo, creator: int)
    requires Valid(s)
    requires k in s.rows
    ensures var s' := Remove(s, id, userId).store;
      var r := Create(s', dto, creator);
      && r.result.value.id != k
      && (Remove(s, id, userId).result.Ok? && k == id ==> FindOne(r.store, id, userId).Err?)
  {
  }

  /* ------------------------------------------------------------- isolation */

  /** Creating a row for one user leaves every other user's rows as they
      were. */
  lemma CreateInvisibleToOthers(s: Store, dto: CreateTodo, userId: int, other: int)
    requires Valid(s)
    requires other != userId
    ensures OwnedBy(Create(s, dto, userId).store, other) == OwnedBy(s, other)
  {
    var s' := Create(s, dto, userId).store;
    assert OwnedBy(s', other).Keys == OwnedBy(s, other).Keys;
  }

  /** A patch by one user never touches another user's rows. */
  lemma UpdateInvisibleToOthers(s: Store, id: int, patch: Patch, userId: int, other: int)
    requires other != userId
    ensures OwnedBy(Update(s, id, patch, userId).store, other) == OwnedBy(s, other)
  {
    var s' := Update(s, id, patch, userId).store;
    assert OwnedBy(s', other).Keys == OwnedBy(s, other).Keys;
  }

  /** A delete by one user never touches another user's rows. */
  lemma RemoveInvisibleToOthers(s: Store, id: int, userId: int, other: int)
    requires other != userId
    ensures OwnedBy(Remove(s, id, userId).store, other) == OwnedBy(s, other)
  {
    var s' := Remove(s, id, userId).store;
    assert OwnedBy(s', other).Keys == OwnedBy(s, other).Keys;
  }

  lemma {:induction false} ScanRangeSplit(m: map<nat, Todo>, lo: nat, mid: nat, hi: nat)
    requires lo <= mid <= hi
    ensures ScanRange(m, lo, hi) == ScanRange(m, lo, mid) + ScanRange(m, mid, hi)
    decreases mid - lo
  {
    if lo < mid {
      ScanRangeSplit(m, lo + 1, mid, hi);
    }
  }

  lemma {:induction false} ScanRangePastKeys(m: map<nat, Todo>, lo: nat, hi: nat)
    requires forall k :: k in m ==> k < lo
    ensures ScanRange(m, lo, hi) == []
    decreases hi - lo
  {
    if lo < hi {
      ScanRangePastKeys(m, lo + 1, hi);
    }
  }

  /** Scanning past the end of the id sequence finds nothing more. */
  lemma ScanBeyond(s: Store, hi: nat)
    requires Valid(s)
    requires hi >= s.nextId
    ensures ScanRange(s.rows, 0, hi) == Scan(s)
  {
    ScanRangeSplit(s.rows, 0, s.nextId, hi);
    ScanRangePastKeys(s.rows, s.nextId, hi);
  }

  /** The row at `k`, when it is there and selected. */
  function SelectedAt(m: map<nat, Todo>, k: nat, p: Todo -> bool): Option<Todo> {
    if k in m && p(m[k]) then Some(m[k]) else None
  }

  /** Two tables select the same rows at every id of `[lo, hi)`. */
  predicate SameSelection(m1: map<nat, Todo>, m2: map<nat, Todo>, lo: nat, hi: nat, p: Todo -> bool) {
    forall k: nat :: lo <= k < hi ==> SelectedAt(m1, k, p) == SelectedAt(m2, k, p)
  }

  /** Two tables that agree on which ids are selected, and on those rows,
      give the same selected scan. */
  lemma {:induction false} FilterScanAgree(m1: map<nat, Todo>, m2: map<nat, Todo>, lo: nat, hi: nat, p: Todo -> bool)
    requires SameSelection(m1, m2, lo, hi, p)
    ensures Filter(ScanRange(m1, lo, hi), p) == Filter(ScanRange(m2, lo, hi), p)
    decreases hi - lo
  {
    if lo < hi {
      ScanRangeStep(m1, lo, hi, p);
      ScanRangeStep(m2, lo, hi, p);
      assert SelectedAt(m1, lo, p) == SelectedAt(m2, lo, p);
      var h1: seq<Todo> := if lo in m1 && p(m1[lo]) then [m1[lo]] else [];
      var h2: seq<Todo> := if lo in m2 && p(m2[lo]) then [m2[lo]] else [];
      assert h1 == h2;
      assert SameSelection(m1, m2, lo + 1, hi, p);
      FilterScanAgree(m1, m2, lo + 1, hi, p);
    }
  }

  /** The selected scan depends on the user's own rows and nothing else:
      two tables in which the user owns the same rows select the same rows,
      in the same order. */
  lemma SelectionSeesOnlyOwnRows(s1: Store, s2: Store, userId: int, f: Filters)
    requires Valid(s1) && Valid(s2)
    requires OwnedBy(s1, userId) == OwnedBy(s2, userId)
    ensures Filter(Scan(s1), Criteria(userId, f)) == Filter(Scan(s2), Criteria(userId, f))
  {
    var hi := if s1.nextId <= s2.nextId then s2.nextId else s1.nextId;
    ScanBeyond(s1, hi);
    ScanBeyond(s2, hi);
    var p := Criteria(userId, f);
    forall k: nat | 0 <= k < hi
      ensures SelectedAt(s1.rows, k, p) == SelectedAt(s2.rows, k, p)
    {
      if k in s1.rows && p(s1.rows[k]) {
        assert k in OwnedBy(s1, userId);
      }
      if k in s2.rows && p(s2.rows[k]) {
        assert k in OwnedBy(s2, userId);
      }
    }
    FilterScanAgree(s1.rows, s2.rows, 0, hi, p);
  }

  /** What a user's listing shows depends on that user's own rows and
      nothing else: two tables in which the user owns the same rows give the
      same page, total and page count. */
  lemma FindAllSeesOnlyOwnRows(s1: Store, s2: Store, userId: int, q: Query, orderFor: (string, string) -> Ordering)
    requires Valid(s1) && Valid(s2)
    requires WellFormed(q)
    requires OwnedBy(s1, userId) == OwnedBy(s2, userId)
    ensures FindAll(s1, userId, q, orderFor) == FindAll(s2, userId, q, orderFor)
  {
    SelectionSeesOnlyOwnRows(s1, s2, userId, FiltersOf(q));
  }

  /** No create, patch or delete by another user changes what a user lists. */
  lemma OthersCannotChangeMyListing(
    s: Store, userId: int, other: int, q: Query, orderFor: (string, string) -> Ordering,
    dto: CreateTodo, id: int, patch: Patch)
    requires Valid(s)
    requires WellFormed(q)
    requires other != userId
    ensures FindAll(Create(s, dto, other).store, userId, q, orderFor) == FindAll(s, userId, q, orderFor)
    ensures FindAll(Update(s, id, patch, other).store, userId, q, orderFor) == FindAll(s, userId, q, orderFor)
    ensures FindAll(Remove(s, id, other).store, userId, q, orderFor) == FindAll(s, userId, q, orderFor)
  {
    CreateInvisibleToOthers(s, dto, other, userId);
    FindAllSeesOnlyOwnRows(Create(s, dto, other).store, s, userId, q, orderFor);
    UpdateInvisibleToOthers(s, id, patch, other, userId);
    FindAllSeesOnlyOwnRows(Update(s, id, patch, other).store, s, userId, q, orderFor);
    RemoveInvisibleToOthers(s, id, other, userId);
    FindAllSeesOnlyOwnRows(Remove(s, id, other).store, s, userId, q, orderFor);
  }

  /* --------------------------------------------------------------- filters */

  /** Which rows a listing holds, stated field by field: the caller's rows;
      with status `"completed"` exactly the completed ones, with any other
      non-empty status exactly the pending ones; with a priority exactly that
      priority; with a non-empty search exactly the titles containing it. */
  lemma ListingMembership(s: Store, userId: int, q: Query, le: Ordering, k: nat)
    requires Valid(s)
    requires k in s.rows
    ensures var t := s.rows[k];
      t in Listing(s, userId, FiltersOf(q), le) <==>
        && t.userId == userId
        && (q.status == Some("completed") ==> t.isCompleted)
        && (q.status.Some? && q.status.value != "" && q.status.value != "completed" ==> !t.isCompleted)
        && (q.priority.Some? ==> t.priority == q.priority.value)
        && (q.search.Some? && q.search.value != "" ==> exists i :: OccursAt(t.title, q.search.value, i))
  {
    InListingIff(s, userId, FiltersOf(q), le, k);
    MatchesFields(s.rows[k], userId, q);
  }

  /** Every filter only narrows: a row that matches still matches when any
      one of the status, priority or search filters is dropped. */
  lemma FiltersOnlyNarrow(t: Todo, userId: int, f: Filters)
    ensures Matches(t, userId, f) ==> Matches(t, userId, f.(status := None))
    ensures Matches(t, userId, f) ==> Matches(t, userId, f.(priority := None))
    ensures Matches(t, userId, f) ==> Matches(t, userId, f.(search := None))
  {
  }

  /** A row of the table is listed exactly when it matches. */
  lemma InListingIff(s: Store, userId: int, f: Filters, le: Ordering, k: nat)
    requires Valid(s)
    requires k in s.rows
    ensures s.rows[k] in Listing(s, userId, f, le) <==> Matches(s.rows[k], userId, f)
  {
    ListingSound(s, userId, f, le);
    ListingComplete(s, userId, f, le);
  }

  /** The WHERE clause field by field, with the search as an occurrence. */
  lemma MatchesFields(t: Todo, userId: int, q: Query)
    ensures Matches(t, userId, FiltersOf(q)) <==>
      && t.userId == userId
      && (q.status == Some("completed") ==> t.isCompleted)
      && (q.status.Some? && q.status.value != "" && q.status.value != "completed" ==> !t.isCompleted)
      && (q.priority.Some? ==> t.priority == q.priority.value)
      && (q.search.Some? && q.search.value != "" ==> exists i :: OccursAt(t.title, q.search.value, i))
  {
    if q.search.Some? {
      ContainsIff(t.title, q.search.value);
    }
  }

  /** The listing is in the requested order whenever that order is a total
      preorder (as an ORDER BY on one column is). */
  lemma ListingOrdered(s: Store, userId: int, f: Filters, le: Ordering)
    requires TotalPreorder(le)
    ensures Sorted(Listing(s, userId, f, le), le)
  {
    SortSorted(Filter(Scan(s), Criteria(userId, f)), le);
  }

  /** A page is in the requested order: it is a contiguous run of the
      ordered listing. */
  lemma FindAllOrdered(s: Store, userId: int, q: Query, orderFor: (string, string) -> Ordering)
    requires WellFormed(q)
    requires TotalPreorder(orderFor(q.sortBy, q.sortOrder))
    ensures Sorted(FindAll(s, userId, q, orderFor).data, orderFor(q.sortBy, q.sortOrder))
  {
    var le := orderFor(q.sortBy, q.sortOrder);
    var all := Listing(s, userId, FiltersOf(q), le);
    ListingOrdered(s, userId, FiltersOf(q), le);
    var data := FindAll(s, userId, q, orderFor).data;
    forall i, j | 0 <= i < j < |data|
      ensures le(data[i], data[j])
    {
      assert data[i] == all[Skip(q) + i] && data[j] == all[Skip(q) + j];
    }
  }

  /* ---------------------------------------------------------------- paging */

  lemma MulLe(a: int, b: int, c: nat)
    requires a <= b
    ensures a * c <= b * c
  {
    assert b * c - a * c == (b - a) * c;
  }

  /** The page-count bounds, as arithmetic: with `tp` the least number of
      `limit`-sized pages holding `total` rows, page `page` starts before the
      end exactly when `page <= tp`. */
  lemma PageStartsBeforeEnd(total: nat, page: int, limit: int, tp: nat)
    requires page >= 1 && limit >= 1
    requires tp == CeilDiv(total, limit)
    ensures (page - 1) * limit < total <==> page <= tp
  {
    if page <= tp {
      MulLe(page - 1, tp - 1, limit);
    } else {
      MulLe(tp, page - 1, limit);
    }
  }

  /** The pages a listing reports hold every matching row:
      `totalPages * limit >= total`. */
  lemma PageCountCovers(s: Store, userId: int, q: Query, orderFor: (string, string) -> Ordering)
    requires WellFormed(q)
    ensures var r := FindAll(s, userId, q, orderFor);
      r.totalPages * q.limit >= r.total
  {
    var all := Listing(s, userId, FiltersOf(q), orderFor(q.sortBy, q.sortOrder));
    assert FindAll(s, userId, q, orderFor) == Paginate(all, q);
  }

  /** No more pages than needed: the pages fall short of a whole extra page
      (so the last one is not empty), and no rows means no pages. */
  lemma PageCountTight(s: Store, userId: int, q: Query, orderFor: (string, string) -> Ordering)
    requires WellFormed(q)
    ensures var r := FindAll(s, userId, q, orderFor);
      && (r.total > 0 ==> r.totalPages * q.limit < r.total + q.limit)
      && (r.total == 0 ==> r.totalPages == 0)
  {
    var all := Listing(s, userId, FiltersOf(q), orderFor(q.sortBy, q.sortOrder));
    assert FindAll(s, userId, q, orderFor) == Paginate(all, q);
  }

  /** The counts do not depend on which page is asked for. */
  lemma TotalIgnoresPage(s: Store, userId: int, q: Query, orderFor: (string, string) -> Ordering, page: int)
    requires WellFormed(q) && page >= 1
    ensures var r := FindAll(s, userId, q, orderFor);
      var r' := FindAll(s, userId, q.(page := page), orderFor);
      r'.total == r.total && r'.totalPages == r.totalPages
  {
    var q' := q.(page := page);
    assert FiltersOf(q') == FiltersOf(q);
    assert q'.sortBy == q.sortBy && q'.sortOrder == q.sortOrder && q'.limit == q.limit;
  }

  lemma PageHasRows(s: Store, userId: int, q: Query, orderFor: (string, string) -> Ordering)
    requires WellFormed(q)
    ensures var r := FindAll(s, userId, q, orderFor);
      |r.data| > 0 <==> Skip(q) < r.total
  {
  }

  /** A page has rows exactly when its number is at most `totalPages`; any
      page past the end is empty. */
  lemma PageNonEmptyIff(s: Store, userId: int, q: Query, orderFor: (string, string) -> Ordering)
    requires WellFormed(q)
    ensures var r := FindAll(s, userId, q, orderFor);
      |r.data| > 0 <==> q.page <= r.totalPages
  {
    var all := Listing(s, userId, FiltersOf(q), orderFor(q.sortBy, q.sortOrder));
    assert FindAll(s, userId, q, orderFor) == Paginate(all, q);
    PaginateNonEmptyIff(all, q);
  }

  /** The same for any ordered rows cut into pages. */
  lemma PaginateNonEmptyIff(all: seq<Todo>, q: Query)
    requires WellFormed(q)
    ensures |Paginate(all, q).data| > 0 <==> q.page <= Paginate(all, q).totalPages
  {
    PageStartsBeforeEnd(|all|, q.page, q.limit, CeilDiv(|all|, q.limit));
  }

  /** The page (numbered from 1) on which row `i` of a listing falls. */
  function PageOf(i: nat, limit: int): (p: int)
    requires limit >= 1
    ensures p >= 1
    ensures (p - 1) * limit <= i < (p - 1) * limit + limit
  {
    var p := i / limit + 1;
    assert (p - 1) * limit + i % limit == i;
    p
  }

  /** Row `i` of any ordered listing is entry `i - (p - 1) * limit` of the
      page `p = PageOf(i, limit)` cut from it. */
  lemma {:induction false} PageHoldsRow(all: seq<Todo>, q: Query, i: nat)
    requires WellFormed(q) && i < |all|
    ensures var q' := q.(page := PageOf(i, q.limit));
      && 0 <= i - Skip(q') < |Paginate(all, q').data|
      && Paginate(all, q').data[i - Skip(q')] == all[i]
  {
    var q' := q.(page := PageOf(i, q.limit));
    var k := Skip(q');
    assert k <= i < k + q.limit;
    assert Paginate(all, q').data[i - k] == all[k + (i - k)];
  }

  /** Every listed row shows up on the page its position says: row `i` of
      the ordered listing is entry `i - (p - 1) * limit` of page
      `p = PageOf(i, limit)`, whatever page the query originally asked for.
      This rests on the listing being one fixed sequence for every page. The
      model orders tied rows the same way each time; a database may order
      rows that tie on the sort column differently from one query to the
      next, so there a tied row can move between pages. */
  lemma EveryRowOnItsPage(s: Store, userId: int, q: Query, orderFor: (string, string) -> Ordering, i: nat)
    requires WellFormed(q)
    requires i < |Listing(s, userId, FiltersOf(q), orderFor(q.sortBy, q.sortOrder))|
    ensures var q' := q.(page := PageOf(i, q.limit));
      var all := Listing(s, userId, FiltersOf(q), orderFor(q.sortBy, q.sortOrder));
      && 0 <= i - Skip(q') < |FindAll(s, userId, q', orderFor).data|
      && FindAll(s, userId, q', orderFor).data[i - Skip(q')] == all[i]
  {
    var q' := q.(page := PageOf(i, q.limit));
    var all := Listing(s, userId, FiltersOf(q), orderFor(q.sortBy, q.sortOrder));
    assert FiltersOf(q') == FiltersOf(q);
    assert FindAll(s, userId, q', orderFor) == Paginate(all, q');
    PageHoldsRow(all, q, i);
  }

  /** Fifteen matching rows, ten per page: the second page holds five and
      there are two pages. */
  lemma FifteenRowsSecondPage(s: Store, userId: int, q: Query, orderFor: (string, string) -> Ordering)
    requires Valid(s)
    requires WellFormed(q) && q.page == 2 && q.limit == 10
    requires |MatchingIds(s, userId, FiltersOf(q))| == 15
    ensures var r := FindAll(s, userId, q, orderFor);
      |r.data| == 5 && r.total == 15 && r.totalPages == 2
  {
  }

  /* -------------------------------------------------------------- scenario */

  /** The "Buy milk" body of the walkthrough below, and the row it creates
      in an empty table for user 1. */
  const MilkBody: Body := map["title" := JString("Buy milk"), "priority" := JString("low")]
  const MilkDto: CreateTodo := CreateTodo("Buy milk", None, None, Some(Low), None)
  const MarkDone: Patch := Patch(None, None, None, None, Some(true))

  lemma MilkBodyValidates(isDate: string -> bool)
    ensures ValidateCreate(MilkBody, isDate) == Ok(MilkDto)
  {
    assert CreateErrors(MilkBody, isDate) == {};
  }

  lemma MilkListed(orderFor: (string, string) -> Ordering)
    ensures var s1 := Create(EmptyStore, MilkDto, 1).store;
      var r := FindAll(s1, 1, FillDefaults(map[]), orderFor);
      |r.data| == 1 && r.total == 1 && r.totalPages == 1
  {
    var s1 := Create(EmptyStore, MilkDto, 1).store;
    var q := FillDefaults(map[]);
    assert Valid(s1);
    assert MatchingIds(s1, 1, FiltersOf(q)) == {1};
  }

  lemma MilkDoneThenDeleted()
    ensures var s1 := Create(EmptyStore, MilkDto, 1).store;
      var s2 := Update(s1, 1, MarkDone, 1).store;
      var s3 := Remove(s2, 1, 1).store;
      && FindOne(s2, 1, 1).Ok?
      && FindOne(s2, 1, 1).value.isCompleted
      && FindOne(s2, 1, 1).value.title == "Buy milk"
      && FindOne(s2, 1, 1).value.priority == Low
      && FindOne(s3, 1, 1) == Err(NotFound(NotFoundMessage))
  {
  }

  /** One user's session against an empty table: create "Buy milk" with low
      priority, list it with the default query (one row, one page), mark it
      completed, delete it, and find it gone. */
  lemma BuyMilkScenario(isDate: string -> bool, orderFor: (string, string) -> Ordering)
    ensures ValidateCreate(MilkBody, isDate) == Ok(MilkDto)
    ensures var s1 := Create(EmptyStore, MilkDto, 1).store;
      && |FindAll(s1, 1, FillDefaults(map[]), orderFor).data| == 1
      && FindAll(s1, 1, FillDefaults(map[]), orderFor).totalPages == 1
    ensures var s1 := Create(EmptyStore, MilkDto, 1).store;
      var s2 := Update(s1, 1, MarkDone, 1).store;
      && FindOne(s2, 1, 1).Ok?
      && FindOne(s2, 1, 1).value.isCompleted
      && FindOne(s2, 1, 1).value.title == "Buy milk"
      && FindOne(Remove(s2, 1, 1).store, 1, 1) == Err(NotFound(NotFoundMessage))
  {
    MilkBodyValidates(isDate);
    MilkListed(orderFor);
    MilkDoneThenDeleted();
  }
}
