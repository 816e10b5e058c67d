/** The `todos` table: the `Todo` record, its `Priority` enumeration, the
    column defaults, and the store the service reads and writes (rows keyed
    by their generated primary key). */
module TodoEntity {
  import opened Common

  /** The three priorities; no other value can be stored. */
  datatype Priority = Low | Medium | High

  /** The string value each priority has on the wire and in the column. */
  function PriorityName(p: Priority): (s: string)
    ensures |s| >= 3
  {
    match p
    case Low => "low"
    case Medium => "medium"
    case High => "high"
  }

  /** Membership test of the enum validator: the priority whose name is `s`. */
  function ParsePriority(s: string): (r: Option<Priority>)
    ensures r.Some? ==> PriorityName(r.value) == s
    ensures r.None? ==> forall p: Priority :: PriorityName(p) != s
  {
    if s == "low" then Some(Low)
    else if s == "medium" then Some(Medium)
    else if s == "high" then Some(High)
    else None
  }

  lemma PriorityRoundTrip(p: Priority)
    ensures ParsePriority(PriorityName(p)) == Some(p)
  {
  }

  /** Column defaults applied when a create payload leaves the field out. */
  const DefaultPriority: Priority := Medium
  const DefaultIsCompleted: bool := false

  /** One row. `description` and `dueDate` are nullable (`None`); `title` and
      `userId` are always present. `dueDate` keeps the validated date string;
      the timestamps `createdAt`/`updatedAt` are not modelled. */
  datatype Todo = Todo(
    id: nat,
    title: string,
    description: Option<string>,
    isCompleted: bool,
    dueDate: Option<string>,
    priority: Priority,
    userId: int)

  /** The table: rows by primary key, and the next value of the
      auto-increment sequence (which starts at 1 and is never reused). */
  datatype Store = Store(rows: map<nat, Todo>, nextId: nat)

  const EmptyStore: Store := Store(map[], 1)

  /** Every row sits under its own id, and every id was handed out by the
      sequence, so ids are unique and fresh ids never collide. */
  predicate Valid(s: Store) {
    && s.nextId >= 1
    && forall k :: k in s.rows ==> 1 <= k < s.nextId && s.rows[k].id == k
  }

  /** In a valid table no two rows carry the same id, and every id lies in
      `[1, nextId)`, so the id `nextId` is free. */
  lemma ValidIdsUnique(s: Store)
    requires Valid(s)
    ensures forall k1, k2 :: k1 in s.rows && k2 in s.rows && s.rows[k1].id == s.rows[k2].id ==> k1 == k2
    ensures forall k :: k in s.rows ==> 1 <= s.rows[k].id < s.nextId
    ensures s.nextId !in s.rows
  {
  }

  lemma EmptyStoreValid()
    ensures Valid(EmptyStore)
    ensures EmptyStore.rows == map[]
  {
  }

  /** The rows that belong to `userId`: the part of the table one caller can
      ever see or change. */
  function OwnedBy(s: Store, userId: int): (m: map<nat, Todo>)
    ensures forall k :: k in m <==> k in s.rows && s.rows[k].userId == userId
    ensures forall k :: k in m ==> m[k] == s.rows[k]
  {
    map k | k in s.rows && s.rows[k].userId == userId :: s.rows[k]
  }
}
