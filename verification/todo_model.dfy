/** The `todos` table: one row per to-do item, keyed by an auto-incremented
    `todo_id`, each owned by exactly one user. */
module TodoModel {
  import opened Common

  /** Dates and the `createdAt` timestamp, as instants on one integer scale. */
  type Timestamp = int

  datatype Todo = Todo(
    id: nat,                      // todo_id, the primary key
    owner: nat,                   // user_id, never null
    title: string,                // never null
    description: Option<string>,  // TEXT, nullable
    isCompleted: bool,            // defaults to false
    isRead: bool,                 // defaults to false
    dueDate: Option<Timestamp>,   // nullable
    createdAt: Timestamp)         // set by the ORM's timestamps

  /** The table, with the next value of its auto-increment counter. */
  datatype TodoStore = TodoStore(todos: map<nat, Todo>, nextId: nat)

  /** A fresh table: auto-increment starts at 1. */
  const Empty := TodoStore(map[], 1)

  /** Every id in use was handed out by the counter. */
  predicate Bounded(s: TodoStore) {
    forall id :: id in s.todos ==> id < s.nextId
  }

  /** The table's integrity: keys come from the counter and every row is
      stored under its own id. */
  predicate Valid(s: TodoStore) {
    && Bounded(s)
    && forall id :: id in s.todos ==> s.todos[id].id == id
  }

  /** The row `Todo.create` inserts: the columns it is given, and the column
      defaults for the rest. */
  function NewTodo(id: nat, owner: nat, title: string, description: Option<string>,
                   dueDate: Option<Timestamp>, now: Timestamp): Todo
  {
    Todo(id, owner, title, description, false, false, dueDate, now)
  }

  /** The rows with an id below `n`, in id order. */
  function RowsBelow(todos: map<nat, Todo>, n: nat): (r: seq<Todo>)
    ensures forall t :: t in r ==> t in todos.Values
    ensures forall id :: id in todos && id < n ==> todos[id] in r
  {
    if n == 0 then []
    else RowsBelow(todos, n - 1) + (if n - 1 in todos then [todos[n - 1]] else [])
  }

  /** The whole table in primary-key order, as a scan without ORDER BY sees it. */
  function Rows(s: TodoStore): seq<Todo> {
    RowsBelow(s.todos, s.nextId)
  }

  /** Each stored row occurs exactly once in the scan, and nothing else does. */
  lemma {:induction false} RowsBelowOnce(todos: map<nat, Todo>, n: nat, t: Todo)
    requires forall id :: id in todos ==> todos[id].id == id
    ensures multiset(RowsBelow(todos, n))[t]
         == if t.id < n && t.id in todos && todos[t.id] == t then 1 else 0
  {
    if n > 0 {
      RowsBelowOnce(todos, n - 1, t);
      var last := if n - 1 in todos then [todos[n - 1]] else [];
      assert RowsBelow(todos, n) == RowsBelow(todos, n - 1) + last;
      assert multiset(RowsBelow(todos, n)) == multiset(RowsBelow(todos, n - 1)) + multiset(last);
    }
  }

  lemma RowsOnce(s: TodoStore, t: Todo)
    requires Valid(s)
    ensures multiset(Rows(s))[t] == if t.id in s.todos && s.todos[t.id] == t then 1 else 0
  {
    RowsBelowOnce(s.todos, s.nextId, t);
  }
}
