/** The create payload: the JSON body of `POST /todos`, what the validator
    accepts, and the typed `CreateTodo` it becomes. The same record with every
    field optional is the update patch. */
module CreateTodoDto {
  import opened Common
  import opened TodoEntity

  /** The JSON values a body field can hold. Arrays, objects and fractional
      numbers are not modelled; each would fail every validator below the same
      way a number does. */
  datatype Json = JNull | JBool(b: bool) | JNumber(n: int) | JString(s: string)

  type Body = map<string, Json>

  /** The validated payload. Optional fields the body left out (or sent as
      `null`) are `None`. */
  datatype CreateTodo = CreateTodo(
    title: string,
    description: Option<string>,
    dueDate: Option<string>,
    priority: Option<Priority>,
    isCompleted: Option<bool>)

  /** The allow-list: the only keys the validator keeps. Any other key,
      `userId` included, is stripped before the service sees the payload. */
  const Fields: set<string> := {"title", "description", "dueDate", "priority", "isCompleted"}

  /** An optional field that is absent or `null` skips its other validators. */
  predicate Omitted(body: Body, f: string) {
    f !in body || body[f] == JNull
  }

  /** The names of the fields that fail validation. `isDate` is the
      date-string check, left abstract. */
  function CreateErrors(body: Body, isDate: string -> bool): (errs: set<string>)
    ensures errs <= Fields
    ensures "title" in errs <==> "title" !in body || !body["title"].JString?
    ensures "description" in errs <==> !Omitted(body, "description") && !body["description"].JString?
    ensures "dueDate" in errs <==>
      !Omitted(body, "dueDate") && !(body["dueDate"].JString? && isDate(body["dueDate"].s))
    ensures "priority" in errs <==>
      !Omitted(body, "priority") && !(body["priority"].JString? && ParsePriority(body["priority"].s).Some?)
    ensures "isCompleted" in errs <==> !Omitted(body, "isCompleted") && !body["isCompleted"].JBool?
  {
    var title := if "title" in body && body["title"].JString? then {} else {"title"};
    var description :=
      if Omitted(body, "description") || body["description"].JString? then {} else {"description"};
    var dueDate :=
      if Omitted(body, "dueDate") || (body["dueDate"].JString? && isDate(body["dueDate"].s)) then {}
      else {"dueDate"};
    var priority :=
      if Omitted(body, "priority") || (body["priority"].JString? && ParsePriority(body["priority"].s).Some?) then {}
      else {"priority"};
    var isCompleted :=
      if Omitted(body, "isCompleted") || body["isCompleted"].JBool? then {} else {"isCompleted"};
    title + description + dueDate + priority + isCompleted
  }

  /** Validate a body and convert it to a `CreateTodo`, or report every
      failing field. */
  function ValidateCreate(body: Body, isDate: string -> bool): (r: Result<CreateTodo>)
    ensures r.Ok? <==> CreateErrors(body, isDate) == {}
    ensures r.Err? ==> r.error == BadRequest(CreateErrors(body, isDate))
    ensures r.Err? ==> r.error.fields != {} && r.error.fields <= Fields
    ensures r.Ok? ==> "title" in body && body["title"] == JString(r.value.title)
    ensures r.Ok? ==> (r.value.description.Some? <==> !Omitted(body, "description"))
    ensures r.Ok? && r.value.description.Some? ==> body["description"] == JString(r.value.description.value)
    ensures r.Ok? ==> (r.value.dueDate.Some? <==> !Omitted(body, "dueDate"))
    ensures r.Ok? && r.value.dueDate.Some? ==>
      body["dueDate"] == JString(r.value.dueDate.value) && isDate(r.value.dueDate.value)
    ensures r.Ok? ==> (r.value.priority.Some? <==> !Omitted(body, "priority"))
    ensures r.Ok? && r.value.priority.Some? ==> body["priority"] == JString(PriorityName(r.value.priority.value))
    ensures r.Ok? ==> (r.value.isCompleted.Some? <==> !Omitted(body, "isCompleted"))
    ensures r.Ok? && r.value.isCompleted.Some? ==> body["isCompleted"] == JBool(r.value.isCompleted.value)
    ensures "title" !in body || !body["title"].JString? ==> r.Err? && "title" in r.error.fields
    ensures !Omitted(body, "priority") && body["priority"].JString? && ParsePriority(body["priority"].s).None?
            ==> r.Err? && "priority" in r.error.fields
  {
    var errs := CreateErrors(body, isDate);
    if errs != {} then Err(BadRequest(errs))
    else
      Ok(CreateTodo(
        title := body["title"].s,
        description := if Omitted(body, "description") then None else Some(body["description"].s),
        dueDate := if Omitted(body, "dueDate") then None else Some(body["dueDate"].s),
        priority := if Omitted(body, "priority") then None else ParsePriority(body["priority"].s),
        isCompleted := if Omitted(body, "isCompleted") then None else Some(body["isCompleted"].b)))
  }

  /** The body a well-behaved client sends for `c`: only the present fields. */
  function ToBody(c: CreateTodo): (body: Body)
    ensures body.Keys <= Fields
  {
    var b0: Body := map["title" := JString(c.title)];
    var b1 := if c.description.Some? then b0["description" := JString(c.description.value)] else b0;
    var b2 := if c.dueDate.Some? then b1["dueDate" := JString(c.dueDate.value)] else b1;
    var b3 := if c.priority.Some? then b2["priority" := JString(PriorityName(c.priority.value))] else b2;
    if c.isCompleted.Some? then b3["isCompleted" := JBool(c.isCompleted.value)] else b3
  }

  /** Round trip: sending a payload and validating it gives the payload back,
      provided its due date is a well-formed date string. */
  lemma ValidateToBody(c: CreateTodo, isDate: string -> bool)
    requires c.dueDate.Some? ==> isDate(c.dueDate.value)
    ensures ValidateCreate(ToBody(c), isDate) == Ok(c)
  {
    var body := ToBody(c);
    assert CreateErrors(body, isDate) == {};
    if c.priority.Some? {
      PriorityRoundTrip(c.priority.value);
    }
  }

  /** Keys outside the allow-list never influence the outcome: a body that
      carries `userId` (or anything else) validates exactly as the same body
      without it. */
  lemma ValidateIgnoresUnknownKeys(body: Body, isDate: string -> bool)
    ensures ValidateCreate(body, isDate) == ValidateCreate(map f | f in body && f in Fields :: body[f], isDate)
  {
    var stripped := map f | f in body && f in Fields :: body[f];
    assert CreateErrors(body, isDate) == CreateErrors(stripped, isDate);
  }
}
