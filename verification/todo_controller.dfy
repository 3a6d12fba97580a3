/** The to-do routes. Every operation acts for the caller whose user id the
    token middleware supplies, and reaches a row only through the pair
    (todo_id, user_id). */
module TodoController {
  import opened Common
  import opened TodoModel
  import opened TodoQuery

  function NotFound<T>(): Reply<T> {
    Fail(404, "Todo not found")
  }

  // ---------------------------------------------------------------- create

  /** POST /todos: inserts a row owned by the caller. Only title, description
      and due date are taken from the body; a missing title violates the
      NOT NULL column and the insert fails with 500. */
  function CreateTodo(s: TodoStore, caller: nat, title: Option<string>, description: Option<string>,
                      dueDate: Option<Timestamp>, now: Timestamp): (r: (Reply<Todo>, TodoStore))
    ensures title.None? ==> r.0 == Fail(500, "Error creating todo") && r.1 == s
    ensures title.Some? ==>
      && r.0.Ok? && r.0.status == 201
      && var t := r.0.body;
      && t.owner == caller && t.title == title.value
      && t.description == description && t.dueDate == dueDate
      && !t.isCompleted && !t.isRead && t.createdAt == now
      && r.1.todos == s.todos[t.id := t]
      && t.id < r.1.nextId
      && s.nextId <= t.id
    ensures Valid(s) ==> Valid(r.1)
  {
    if title.None? then (Fail(500, "Error creating todo"), s)
    else
      var t := NewTodo(s.nextId, caller, title.value, description, dueDate, now);
      (Ok(201, t), TodoStore(s.todos[t.id := t], s.nextId + 1))
  }

  /** An id handed out by create is not in use, and never is again: the
      counter has moved past it. */
  lemma CreateFreshId(s: TodoStore, caller: nat, title: string, description: Option<string>,
                      dueDate: Option<Timestamp>, now: Timestamp)
    requires Bounded(s)
    ensures var r := CreateTodo(s, caller, Some(title), description, dueDate, now);
      && r.0.body.id !in s.todos
      && forall id :: id in s.todos ==> id < r.0.body.id
  {
  }

  // ---------------------------------------------------------------- get

  /** `findOne({ where: { todo_id: id, user_id } })`. */
  function FindOwned(s: TodoStore, caller: nat, id: nat): (r: Option<Todo>)
    ensures r.Some? <==> id in s.todos && s.todos[id].owner == caller
    ensures r.Some? ==> r.value == s.todos[id]
  {
    if id in s.todos && s.todos[id].owner == caller then Some(s.todos[id]) else None
  }

  /** GET /todos/:id. */
  function GetTodo(s: TodoStore, caller: nat, id: nat): (r: Reply<Todo>)
    ensures r.Ok? <==> id in s.todos && s.todos[id].owner == caller
    ensures r.Ok? ==> r == Ok(200, s.todos[id])
    ensures r.Fail? ==> r == NotFound()
  {
    match FindOwned(s, caller, id)
    case None => NotFound()
    case Some(t) => Ok(200, t)
  }

  // ---------------------------------------------------------------- update

  /** The fields of an update body; `None` is a field the body leaves out. */
  datatype TodoPatch = TodoPatch(
    title: Option<string>,
    description: Option<string>,
    dueDate: Option<Timestamp>,
    isCompleted: Option<bool>)

  /** `todo.update(...)`: fields left out of the body are skipped, not cleared. */
  function ApplyPatch(t: Todo, p: TodoPatch): Todo {
    t.(title := if p.title.Some? then p.title.value else t.title,
       description := if p.description.Some? then p.description else t.description,
       dueDate := if p.dueDate.Some? then p.dueDate else t.dueDate,
       isCompleted := if p.isCompleted.Some? then p.isCompleted.value else t.isCompleted)
  }

  /** PUT /todos/:id. */
  function UpdateTodo(s: TodoStore, caller: nat, id: nat, p: TodoPatch): (r: (Reply<Todo>, TodoStore))
    ensures r.0.Ok? <==> id in s.todos && s.todos[id].owner == caller
    ensures r.0.Fail? ==> r.0 == NotFound() && r.1 == s
    ensures r.0.Ok? ==>
      && r.0.status == 200
      && var prev := s.todos[id];
      && var t := r.0.body;
      && t.id == prev.id && t.owner == prev.owner
      && t.isRead == prev.isRead && t.createdAt == prev.createdAt
      && (p.title.Some? ==> t.title == p.title.value)
      && (p.title.None? ==> t.title == prev.title)
      && (p.description.Some? ==> t.description == p.description)
      && (p.description.None? ==> t.description == prev.description)
      && (p.dueDate.Some? ==> t.dueDate == p.dueDate)
      && (p.dueDate.None? ==> t.dueDate == prev.dueDate)
      && (p.isCompleted.Some? ==> t.isCompleted == p.isCompleted.value)
      && (p.isCompleted.None? ==> t.isCompleted == prev.isCompleted)
      && r.1 == s.(todos := s.todos[id := t])
    ensures Valid(s) ==> Valid(r.1)
  {
    match FindOwned(s, caller, id)
    case None => (NotFound(), s)
    case Some(t) =>
      var t' := ApplyPatch(t, p);
      (Ok(200, t'), s.(todos := s.todos[id := t']))
  }

  // ---------------------------------------------------------------- delete

  /** DELETE /todos/:id: removes exactly the matched row. */
  function DeleteTodo(s: TodoStore, caller: nat, id: nat): (r: (Reply<string>, TodoStore))
    ensures r.0.Ok? <==> id in s.todos && s.todos[id].owner == caller
    ensures r.0.Fail? ==> r.0 == NotFound() && r.1 == s
    ensures r.0.Ok? ==>
      && r.0 == Ok(200, "Todo deleted successfully")
      && r.1.nextId == s.nextId
      && r.1.todos.Keys == s.todos.Keys - {id}
      && forall k :: k in r.1.todos ==> r.1.todos[k] == s.todos[k]
    ensures Valid(s) ==> Valid(r.1)
  {
    match FindOwned(s, caller, id)
    case None => (NotFound(), s)
    case Some(_) => (Ok(200, "Todo deleted successfully"), s.(todos := s.todos - {id}))
  }

  // ---------------------------------------------------------------- list

  datatype Limit = All | PerPage(size: Positive)

  /** The query string of GET /todos, after defaults; `isCompleted` is read
      from the query but takes no part in the result. */
  datatype ListQuery = ListQuery(
    search: string, page: Positive, limit: Limit,
    sortBy: string, order: string, isCompleted: Option<string>)

  const DefaultQuery := ListQuery("", 1, PerPage(10), "createdAt", "DESC", None)

  datatype Pagination = Pagination(totalTodos: nat, totalPages: nat, currentPage: nat, limit: Limit)
  datatype Listing = Listing(todos: seq<Todo>, pagination: Pagination)

  /** All rows the WHERE clause keeps, in the order the query asks for. */
  function Matching(s: TodoStore, caller: nat, search: string, f: SortField, o: SortOrder): seq<Todo> {
    SortTodos(Select(Rows(s), caller, search), f, o)
  }

  /** GET /todos. With limit "all" every matching row comes back, newest
      first whatever the requested sort; otherwise one page of the normalised
      sort, with the count of all matching rows. */
  function ListTodos(s: TodoStore, caller: nat, q: ListQuery): (r: Reply<Listing>)
    ensures r.Ok? && r.status == 200
    ensures forall t :: t in r.body.todos ==> t in s.todos.Values && Visible(t, caller, q.search)
    ensures q.limit.All? ==>
      && Sorted(r.body.todos, CreatedAt, Desc)
      && r.body.pagination == Pagination(|r.body.todos|, 1, 1, All)
      && (Bounded(s) ==> forall t :: t in s.todos.Values && Visible(t, caller, q.search) ==> t in r.body.todos)
    ensures q.limit.PerPage? ==>
      && |r.body.todos| <= q.limit.size
      && Sorted(r.body.todos, NormalizeSortBy(q.sortBy), NormalizeOrder(q.order))
      && r.body.pagination.totalPages == CeilDiv(r.body.pagination.totalTodos, q.limit.size)
      && r.body.pagination.currentPage == q.page
      && r.body.pagination.limit == q.limit
      && r.body.pagination.totalTodos >= |r.body.todos|
  {
    if q.limit.All? then
      var todos := Matching(s, caller, q.search, CreatedAt, Desc);
      MatchingExact(s, caller, q.search, CreatedAt, Desc);
      Ok(200, Listing(todos, Pagination(|todos|, 1, 1, All)))
    else
      var f := NormalizeSortBy(q.sortBy);
      var o := NormalizeOrder(q.order);
      var all := Matching(s, caller, q.search, f, o);
      var page := Page(all, q.page, q.limit.size);
      MatchingExact(s, caller, q.search, f, o);
      PageIsSortedSlice(all, q.page, q.limit.size, f, o);
      Ok(200, Listing(page, Pagination(|all|, CeilDiv(|all|, q.limit.size), q.page, q.limit)))
  }

  /** The ordered result holds stored rows the WHERE clause keeps, and, when
      every id came from the counter, all of them. */
  lemma MatchingExact(s: TodoStore, caller: nat, search: string, f: SortField, o: SortOrder)
    ensures Sorted(Matching(s, caller, search, f, o), f, o)
    ensures forall t :: t in Matching(s, caller, search, f, o) ==> t in s.todos.Values && Visible(t, caller, search)
    ensures Bounded(s) ==>
      forall t :: t in s.todos.Values && Visible(t, caller, search) ==> t in Matching(s, caller, search, f, o)
  {
    var sel := Select(Rows(s), caller, search);
    var all := Matching(s, caller, search, f, o);
    forall t | t in all
      ensures t in s.todos.Values && Visible(t, caller, search)
    {
      assert t in multiset(all);
      assert t in multiset(sel);
      assert t in multiset(Rows(s));
    }
    if Bounded(s) {
      forall t | t in s.todos.Values && Visible(t, caller, search)
        ensures t in all
      {
        var id :| id in s.todos && s.todos[id] == t;
        assert t in Rows(s);
        assert t in multiset(Rows(s));
        assert t in multiset(sel);
        assert t in multiset(all);
      }
    }
  }

  lemma PageIsSortedSlice(all: seq<Todo>, page: Positive, limit: Positive, f: SortField, o: SortOrder)
    requires Sorted(all, f, o)
    ensures Sorted(Page(all, page, limit), f, o)
    ensures forall t :: t in Page(all, page, limit) ==> t in all
  {
  }

  /** totalTodos counts every matching row of the caller exactly once, not
      only the page. In "all" mode the listing is that whole result, each row
      once; otherwise the page is the slice of the ordered result at the
      requested offset. */
  lemma {:induction false} ListCountsAllMatches(s: TodoStore, caller: nat, q: ListQuery, t: Todo)
    requires Valid(s)
    ensures q.limit.All? ==>
      && var todos := ListTodos(s, caller, q).body.todos;
      && ListTodos(s, caller, q).body.pagination.totalTodos == |todos|
      && multiset(todos)[t] == if t.id in s.todos && s.todos[t.id] == t && Visible(t, caller, q.search) then 1 else 0
    ensures q.limit.PerPage? ==>
      && var all := Matching(s, caller, q.search, NormalizeSortBy(q.sortBy), NormalizeOrder(q.order));
      && ListTodos(s, caller, q).body.pagination.totalTodos == |all|
      && ListTodos(s, caller, q).body.todos == Page(all, q.page, q.limit.size)
      && multiset(all)[t] == if t.id in s.todos && s.todos[t.id] == t && Visible(t, caller, q.search) then 1 else 0
  {
    RowsOnce(s, t);
  }

  /** Without query parameters the listing is the first ten of the caller's
      rows, newest first, drawn from all of them. */
  lemma DefaultListing(s: TodoStore, caller: nat)
    ensures var r := ListTodos(s, caller, DefaultQuery);
      && r.body.todos == Page(Matching(s, caller, "", CreatedAt, Desc), 1, 10)
      && r.body.pagination.currentPage == 1
      && (Bounded(s) ==> forall t :: t in s.todos.Values && t.owner == caller ==>
            t in Matching(s, caller, "", CreatedAt, Desc))
  {
    MatchingExact(s, caller, "", CreatedAt, Desc);
  }

  /** On a fresh table the first row created gets id 1 and the default
      listing shows it alone. */
  lemma FirstTodoListed(caller: nat, title: string, now: Timestamp)
    ensures var (created, s1) := CreateTodo(Empty, caller, Some(title), None, None, now);
      && created.body.id == 1
      && ListTodos(s1, caller, DefaultQuery).body.todos == [created.body]
  {
    var (created, s1) := CreateTodo(Empty, caller, Some(title), None, None, now);
    var t := created.body;
    assert RowsBelow(s1.todos, 1) == [];
    assert Rows(s1) == [t];
    assert Visible(t, caller, "");
    var all := Matching(s1, caller, "", CreatedAt, Desc);
    assert multiset(all) == multiset{t};
    assert |all| == 1;
    assert all[0] in multiset(all);
    assert all == [t];
  }

  /** Paging loses nothing: every matching row of the caller is on some page
      between 1 and totalPages. */
  lemma ListPagesCoverMatches(s: TodoStore, caller: nat, q: ListQuery, id: nat)
    requires Valid(s) && q.limit.PerPage?
    requires id in s.todos && Visible(s.todos[id], caller, q.search)
    ensures exists p: Positive ::
      && p <= ListTodos(s, caller, q).body.pagination.totalPages
      && s.todos[id] in ListTodos(s, caller, q.(page := p)).body.todos
  {
    var t := s.todos[id];
    var all := Matching(s, caller, q.search, NormalizeSortBy(q.sortBy), NormalizeOrder(q.order));
    ListCountsAllMatches(s, caller, q, t);
    assert t in multiset(all);
    var k :| 0 <= k < |all| && all[k] == t;
    var size := q.limit.size;
    PageOfIndex(all, size, k);
    var p: Positive := k / size + 1;
    var page := Page(all, p, size);
    assert page[k % size] == t;
    assert ListTodos(s, caller, q.(page := p)).body.todos == page;
  }

  /** The is_completed query parameter has no effect on the listing. */
  lemma ListIgnoresCompleted(s: TodoStore, caller: nat, q: ListQuery, isCompleted: Option<string>)
    ensures ListTodos(s, caller, q.(isCompleted := isCompleted)) == ListTodos(s, caller, q)
  {
  }

  /** In "all" mode the requested sort and page are ignored. */
  lemma ListAllIgnoresSortAndPage(s: TodoStore, caller: nat, q: ListQuery, sortBy: string, order: string, page: Positive)
    requires q.limit.All?
    ensures ListTodos(s, caller, q.(sortBy := sortBy, order := order, page := page)) == ListTodos(s, caller, q)
  {
  }

  // ---------------------------------------------------------------- ownership

  /** A row owned by one user is invisible to every other: get, update and
      delete all answer 404 and leave the table as it was. */
  lemma OwnershipIsolation(s: TodoStore, id: nat, other: nat, p: TodoPatch)
    requires id in s.todos && s.todos[id].owner != other
    ensures GetTodo(s, other, id) == NotFound()
    ensures UpdateTodo(s, other, id, p) == (NotFound(), s)
    ensures DeleteTodo(s, other, id) == (NotFound(), s)
  {
  }

  /** No write by one caller changes a row another user owns. */
  lemma OthersRowsUntouched(s: TodoStore, caller: nat, id: nat, p: TodoPatch, k: nat,
                            title: Option<string>, description: Option<string>,
                            dueDate: Option<Timestamp>, now: Timestamp)
    requires Bounded(s)
    requires k in s.todos && s.todos[k].owner != caller
    ensures var s' := UpdateTodo(s, caller, id, p).1; k in s'.todos && s'.todos[k] == s.todos[k]
    ensures var s' := DeleteTodo(s, caller, id).1; k in s'.todos && s'.todos[k] == s.todos[k]
    ensures var s' := CreateTodo(s, caller, title, description, dueDate, now).1; k in s'.todos && s'.todos[k] == s.todos[k]
  {
  }

  // ---------------------------------------------------------------- round trips

  /** Create then get: the new row reads back with the given title, not
      completed, and with no due date when none was given; completing it
      through update is then visible to get. */
  lemma CreateGetUpdateRoundTrip(s: TodoStore, caller: nat, title: string, now: Timestamp)
    ensures var (created, s1) := CreateTodo(s, caller, Some(title), None, None, now);
      && var id := created.body.id;
      && GetTodo(s1, caller, id).Ok?
      && GetTodo(s1, caller, id).body.title == title
      && !GetTodo(s1, caller, id).body.isCompleted
      && GetTodo(s1, caller, id).body.dueDate == None
      && var s2 := UpdateTodo(s1, caller, id, TodoPatch(None, None, None, Some(true))).1;
      && GetTodo(s2, caller, id).Ok?
      && GetTodo(s2, caller, id).body.isCompleted
      && GetTodo(s2, caller, id).body.title == title
  {
  }

  /** Delete then get answers 404, and a later create never reuses the id. */
  lemma DeleteThenGetAndCreate(s: TodoStore, caller: nat, id: nat, title: string, now: Timestamp)
    requires Valid(s) && id in s.todos && s.todos[id].owner == caller
    ensures var s1 := DeleteTodo(s, caller, id).1;
      && GetTodo(s1, caller, id) == NotFound()
      && CreateTodo(s1, caller, Some(title), None, None, now).0.body.id != id
  {
  }
}
