/** The listing query: the raw query-string parameters of `GET /todos`, their
    validation (enum priority, numeric `page`/`limit` of at least 1) and the
    defaults filled in for omitted parameters. */
module QueryTodoDto {
  import opened Common
  import opened TodoEntity

  /** Query-string parameters arrive as strings. */
  type RawQuery = map<string, string>

  /** The validated, defaulted query the service receives. */
  datatype Query = Query(
    status: Option<string>,
    priority: Option<Priority>,
    search: Option<string>,
    page: int,
    limit: int,
    sortBy: string,
    sortOrder: string)

  const DefaultPage: int := 1
  const DefaultLimit: int := 10
  const DefaultSortBy: string := "createdAt"
  const DefaultSortOrder: string := "DESC"

  /* ------------------------------------------------ number coercion */

  predicate IsDigit(c: char) {
    '0' <= c <= '9'
  }

  function DigitValue(c: char): nat
    requires IsDigit(c)
  {
    c as int - '0' as int
  }

  function DigitsValue(s: string): nat
    requires forall i :: 0 <= i < |s| ==> IsDigit(s[i])
  {
    if s == [] then 0
    else DigitsValue(s[..|s| - 1]) * 10 + DigitValue(s[|s| - 1])
  }

  /** The numeric coercion of a parameter: a non-empty run of decimal digits
      denotes its value; anything else is not a number the validator accepts
      as a page or a limit. */
  function ParseDecimal(s: string): (r: Option<nat>)
    ensures r.Some? <==> |s| > 0 && forall i :: 0 <= i < |s| ==> IsDigit(s[i])
  {
    if |s| > 0 && forall i :: 0 <= i < |s| ==> IsDigit(s[i]) then Some(DigitsValue(s)) else None
  }

  /** The decimal spelling of `n`, as a client puts it in a query string. */
  function ShowNat(n: nat): (s: string)
    ensures |s| > 0
    ensures forall i :: 0 <= i < |s| ==> IsDigit(s[i])
  {
    if n < 10 then ['0' + n as char]
    else ShowNat(n / 10) + ['0' + (n % 10) as char]
  }

  lemma {:induction false} DigitsValueShow(n: nat)
    ensures DigitsValue(ShowNat(n)) == n
  {
    if n >= 10 {
      var s := ShowNat(n);
      assert s[..|s| - 1] == ShowNat(n / 10);
      DigitsValueShow(n / 10);
    }
  }

  /** Round trip: a number written into the query string is read back. */
  lemma ParseShow(n: nat)
    ensures ParseDecimal(ShowNat(n)) == Some(n)
  {
    DigitsValueShow(n);
  }

  /* ------------------------------------------------------ validation */

  /** `page` and `limit`: absent, or a number of at least 1. */
  predicate PositiveOrAbsent(raw: RawQuery, f: string) {
    f !in raw || (ParseDecimal(raw[f]).Some? && ParseDecimal(raw[f]).value >= 1)
  }

  /** The parameters that fail validation. `status`, `search`, `sortBy` and
      `sortOrder` are only required to be strings, which a query parameter
      always is, so they never fail. */
  function QueryErrors(raw: RawQuery): (errs: set<string>)
    ensures errs <= {"priority", "page", "limit"}
    ensures "priority" in errs <==> "priority" in raw && ParsePriority(raw["priority"]).None?
    ensures "page" in errs <==>
      "page" in raw && (ParseDecimal(raw["page"]).None? || ParseDecimal(raw["page"]).value < 1)
    ensures "limit" in errs <==>
      "limit" in raw && (ParseDecimal(raw["limit"]).None? || ParseDecimal(raw["limit"]).value < 1)
  {
    (if "priority" !in raw || ParsePriority(raw["priority"]).Some? then {} else {"priority"})
    + (if PositiveOrAbsent(raw, "page") then {} else {"page"})
    + (if PositiveOrAbsent(raw, "limit") then {} else {"limit"})
  }

  predicate ValidQuery(raw: RawQuery) {
    QueryErrors(raw) == {}
  }

  /** The bounds every query reaching the service satisfies: the skip
      `(page - 1) * limit` is a natural number and the page count never
      divides by zero. */
  predicate WellFormed(q: Query) {
    q.page >= 1 && q.limit >= 1
  }

  function Param(raw: RawQuery, f: string): Option<string> {
    if f in raw then Some(raw[f]) else None
  }

  /** The typed query for a valid parameter map, defaults filled in. */
  function FillDefaults(raw: RawQuery): (q: Query)
    requires ValidQuery(raw)
    ensures WellFormed(q)
    ensures "page" !in raw ==> q.page == 1
    ensures "page" in raw ==> ParseDecimal(raw["page"]) == Some(q.page as nat)
    ensures "limit" !in raw ==> q.limit == 10
    ensures "limit" in raw ==> ParseDecimal(raw["limit"]) == Some(q.limit as nat)
    ensures "sortBy" !in raw ==> q.sortBy == "createdAt"
    ensures "sortBy" in raw ==> q.sortBy == raw["sortBy"]
    ensures "sortOrder" !in raw ==> q.sortOrder == "DESC"
    ensures "sortOrder" in raw ==> q.sortOrder == raw["sortOrder"]
    ensures q.priority.Some? <==> "priority" in raw
    ensures q.priority.Some? ==> PriorityName(q.priority.value) == raw["priority"]
    ensures q.status.Some? <==> "status" in raw
    ensures q.status.Some? ==> q.status.value == raw["status"]
    ensures q.search.Some? <==> "search" in raw
    ensures q.search.Some? ==> q.search.value == raw["search"]
  {
    Query(
      status := Param(raw, "status"),
      priority := if "priority" in raw then ParsePriority(raw["priority"]) else None,
      search := Param(raw, "search"),
      page := if "page" in raw then ParseDecimal(raw["page"]).value else DefaultPage,
      limit := if "limit" in raw then ParseDecimal(raw["limit"]).value else DefaultLimit,
      sortBy := Param(raw, "sortBy").GetOr(DefaultSortBy),
      sortOrder := Param(raw, "sortOrder").GetOr(DefaultSortOrder))
  }

  /** Validation followed by defaulting: the query the service receives, or
      the 400 naming every bad parameter. */
  function ParseQuery(raw: RawQuery): (r: Result<Query>)
    ensures r.Ok? <==> ValidQuery(raw)
    ensures r.Ok? ==> r.value == FillDefaults(raw) && WellFormed(r.value)
    ensures r.Err? ==> r.error == BadRequest(QueryErrors(raw)) && r.error.fields != {}
  {
    if ValidQuery(raw) then Ok(FillDefaults(raw)) else Err(BadRequest(QueryErrors(raw)))
  }

  predicate IsLetter(c: char) {
    'a' <= c <= 'z' || 'A' <= c <= 'Z'
  }

  /** A run of zeros is worth zero. */
  lemma {:induction false} ZerosValue(s: string)
    requires forall i :: 0 <= i < |s| ==> s[i] == '0'
    ensures forall i :: 0 <= i < |s| ==> IsDigit(s[i])
    ensures DigitsValue(s) == 0
  {
    if s != [] {
      ZerosValue(s[..|s| - 1]);
    }
  }

  /** A page or limit below 1 is rejected, naming that parameter, whatever
      the other parameters: the empty string or a run of zeros (the number
      0), anything starting with a minus sign (a negative number, `-0`, or
      not a number at all), and a word made only of letters (not a number,
      or `Infinity`, which is not accepted as a number either). */
  lemma RejectsNonPositive(raw: RawQuery, f: string)
    requires f == "page" || f == "limit"
    requires f in raw
    requires || (forall i :: 0 <= i < |raw[f]| ==> raw[f][i] == '0')
             || (|raw[f]| > 0 && raw[f][0] == '-')
             || (|raw[f]| > 0 && forall i :: 0 <= i < |raw[f]| ==> IsLetter(raw[f][i]))
    ensures ParseQuery(raw).Err? && f in ParseQuery(raw).error.fields
  {
    if forall i :: 0 <= i < |raw[f]| ==> raw[f][i] == '0' {
      ZerosValue(raw[f]);
    } else {
      assert !IsDigit(raw[f][0]);
    }
  }

  /** The empty query string gives the documented defaults. */
  lemma EmptyQueryDefaults()
    ensures ParseQuery(map[]) == Ok(Query(None, None, None, 1, 10, "createdAt", "DESC"))
  {
  }
}
