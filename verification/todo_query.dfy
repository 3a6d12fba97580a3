/** Lexicographic order on integer sequences: the total order every sort key
    of the to-do list is compared under. */
module Ordering {

  /** `a` sorts no later than `b`; the empty sequence sorts first. */
  predicate LexLe(a: seq<int>, b: seq<int>)
    decreases |a|
  {
    |a| == 0 || (|b| > 0 && (a[0] < b[0] || (a[0] == b[0] && LexLe(a[1..], b[1..]))))
  }

  lemma {:induction false} LexLeTotal(a: seq<int>, b: seq<int>)
    ensures LexLe(a, b) || LexLe(b, a)
    decreases |a|
  {
    if |a| > 0 && |b| > 0 && a[0] == b[0] {
      LexLeTotal(a[1..], b[1..]);
    }
  }

  lemma {:induction false} LexLeTransitive(a: seq<int>, b: seq<int>, c: seq<int>)
    requires LexLe(a, b) && LexLe(b, c)
    ensures LexLe(a, c)
    decreases |a|
  {
    if |a| > 0 && a[0] == b[0] && b[0] == c[0] {
      LexLeTransitive(a[1..], b[1..], c[1..]);
    }
  }
}

/** The pieces of the list query of `getAllTodo`: the search filter, the
    normalised sort, and the page arithmetic. */
module TodoQuery {
  import opened Common
  import opened TodoModel
  import opened Ordering

  type Positive = n: nat | 1 <= n witness 1

  datatype SortField = CreatedAt | DueDate | Title
  datatype SortOrder = Asc | Desc

  /** The column name each sort field is requested by. */
  function FieldName(f: SortField): string {
    match f
    case CreatedAt => "createdAt"
    case DueDate => "due_date"
    case Title => "title"
  }

  function OrderName(o: SortOrder): string {
    match o
    case Asc => "ASC"
    case Desc => "DESC"
  }

  /** The sortBy whitelist: any other value falls back to createdAt. */
  function NormalizeSortBy(sortBy: string): (f: SortField)
    ensures sortBy in {"createdAt", "due_date", "title"} ==> FieldName(f) == sortBy
    ensures sortBy !in {"createdAt", "due_date", "title"} ==> f == CreatedAt
  {
    if sortBy == "due_date" then DueDate
    else if sortBy == "title" then Title
    else CreatedAt
  }

  /** `String.prototype.toUpperCase` on one character, for the characters whose
      upper case is a single ASCII letter: `a`-`z`, and the long s, whose upper
      case is `S`. Every other character is kept, which never turns a string
      into "ASC" that JavaScript would not. */
  function UpperChar(c: char): char {
    if 'a' <= c <= 'z' then (c as int - 32) as char
    else if c == '\U{017F}' then 'S'
    else c
  }

  function ToUpper(s: string): (r: string)
    ensures |r| == |s|
    ensures forall i :: 0 <= i < |s| ==> r[i] == UpperChar(s[i])
  {
    seq(|s|, i requires 0 <= i < |s| => UpperChar(s[i]))
  }

  /** ASC only when the order upper-cases to "ASC"; DESC otherwise. */
  function NormalizeOrder(order: string): SortOrder {
    if ToUpper(order) == "ASC" then Asc else Desc
  }

  /** The exact set of order strings read as ascending. */
  lemma NormalizeOrderAsc(order: string)
    ensures NormalizeOrder(order) == Asc
        <==> && |order| == 3
             && order[0] in {'a', 'A'}
             && order[1] in {'s', 'S', '\U{017F}'}
             && order[2] in {'c', 'C'}
  {
  }

  /** Normalisation is idempotent: a normalised value read back normalises to itself. */
  lemma NormalizeIdempotent(sortBy: string, order: string)
    ensures NormalizeSortBy(FieldName(NormalizeSortBy(sortBy))) == NormalizeSortBy(sortBy)
    ensures NormalizeOrder(OrderName(NormalizeOrder(order))) == NormalizeOrder(order)
  {
  }

  // ---------------------------------------------------------------- search

  /** `fragment` occurs in `text` starting at position `i`. */
  predicate OccursAt(text: string, fragment: string, i: int) {
    0 <= i <= |text| - |fragment| && text[i..i + |fragment|] == fragment
  }

  /** `fragment` occurs in `text` as a contiguous piece. */
  predicate Contains(text: string, fragment: string) {
    exists i | 0 <= i <= |text| - |fragment| :: OccursAt(text, fragment, i)
  }

  /** The search filter: an empty search keeps everything; otherwise the title
      or the (non-null) description must contain it. */
  predicate SearchMatches(t: Todo, search: string) {
    || search == ""
    || Contains(t.title, search)
    || (t.description.Some? && Contains(t.description.value, search))
  }

  /** The WHERE clause of the list query. */
  predicate Visible(t: Todo, caller: nat, search: string) {
    t.owner == caller && SearchMatches(t, search)
  }

  /** The rows the WHERE clause keeps, each as often as it occurs in `rows`. */
  function Select(rows: seq<Todo>, caller: nat, search: string): (r: seq<Todo>)
    ensures forall t :: multiset(r)[t] == if Visible(t, caller, search) then multiset(rows)[t] else 0
  {
    if |rows| == 0 then []
    else
      assert rows == [rows[0]] + rows[1..];
      (if Visible(rows[0], caller, search) then [rows[0]] else []) + Select(rows[1..], caller, search)
  }

  // ---------------------------------------------------------------- sorting

  /** The sort key of a row under a field. A null due date has the empty key,
      so it comes first ascending and last descending; a title is compared by
      character code. */
  function Key(t: Todo, f: SortField): seq<int> {
    match f
    case CreatedAt => [t.createdAt]
    case DueDate => if t.dueDate.None? then [] else [t.dueDate.value]
    case Title => seq(|t.title|, i requires 0 <= i < |t.title| => t.title[i] as int)
  }

  /** `a` may come before `b` in a listing ordered by `f` and `o`. */
  predicate Precedes(a: Todo, b: Todo, f: SortField, o: SortOrder) {
    if o == Asc then LexLe(Key(a, f), Key(b, f)) else LexLe(Key(b, f), Key(a, f))
  }

  lemma PrecedesTotal(a: Todo, b: Todo, f: SortField, o: SortOrder)
    ensures Precedes(a, b, f, o) || Precedes(b, a, f, o)
  {
    LexLeTotal(Key(a, f), Key(b, f));
  }

  lemma PrecedesTransitive(a: Todo, b: Todo, c: Todo, f: SortField, o: SortOrder)
    requires Precedes(a, b, f, o) && Precedes(b, c, f, o)
    ensures Precedes(a, c, f, o)
  {
    if o == Asc {
      LexLeTransitive(Key(a, f), Key(b, f), Key(c, f));
    } else {
      LexLeTransitive(Key(c, f), Key(b, f), Key(a, f));
    }
  }

  predicate Sorted(s: seq<Todo>, f: SortField, o: SortOrder) {
    forall i, j :: 0 <= i < j < |s| ==> Precedes(s[i], s[j], f, o)
  }

  lemma ConsSorted(h: Todo, s: seq<Todo>, f: SortField, o: SortOrder)
    requires Sorted(s, f, o)
    requires forall y :: y in s ==> Precedes(h, y, f, o)
    ensures Sorted([h] + s, f, o)
  {
  }

  lemma HeadPrecedesTail(s: seq<Todo>, f: SortField, o: SortOrder)
    requires Sorted(s, f, o) && |s| > 0
    ensures forall y :: y in s[1..] ==> Precedes(s[0], y, f, o)
  {
  }

  lemma InsertStep(x: Todo, s: seq<Todo>, rest: seq<Todo>, f: SortField, o: SortOrder)
    requires |s| > 0 && Sorted(s, f, o) && !Precedes(x, s[0], f, o)
    requires Sorted(rest, f, o) && multiset(rest) == multiset(s[1..]) + multiset{x}
    ensures Sorted([s[0]] + rest, f, o)
  {
    PrecedesTotal(x, s[0], f, o);
    HeadPrecedesTail(s, f, o);
    forall y | y in rest
      ensures Precedes(s[0], y, f, o)
    {
      assert y in multiset(rest);
      assert y == x || y in multiset(s[1..]);
    }
    ConsSorted(s[0], rest, f, o);
  }

  lemma FrontStep(x: Todo, s: seq<Todo>, f: SortField, o: SortOrder)
    requires |s| > 0 && Sorted(s, f, o) && Precedes(x, s[0], f, o)
    ensures Sorted([x] + s, f, o)
  {
    HeadPrecedesTail(s, f, o);
    forall y | y in s
      ensures Precedes(x, y, f, o)
    {
      if y != s[0] {
        assert s == [s[0]] + s[1..];
        assert y in s[1..];
        PrecedesTransitive(x, s[0], y, f, o);
      }
    }
    ConsSorted(x, s, f, o);
  }

  /** Places `x` into a sorted listing, ahead of the first row it may precede. */
  function InsertSorted(x: Todo, s: seq<Todo>, f: SortField, o: SortOrder): (r: seq<Todo>)
    requires Sorted(s, f, o)
    ensures Sorted(r, f, o)
    ensures multiset(r) == multiset(s) + multiset{x}
    decreases |s|
  {
    if |s| == 0 then [x]
    else if Precedes(x, s[0], f, o) then
      FrontStep(x, s, f, o);
      [x] + s
    else
      var rest := InsertSorted(x, s[1..], f, o);
      InsertStep(x, s, rest, f, o);
      assert s == [s[0]] + s[1..];
      [s[0]] + rest
  }

  /** ORDER BY `f` `o`: a sorted permutation of the rows. */
  function SortTodos(s: seq<Todo>, f: SortField, o: SortOrder): (r: seq<Todo>)
    ensures Sorted(r, f, o)
    ensures multiset(r) == multiset(s)
    decreases |s|
  {
    if |s| == 0 then []
    else
      assert s == [s[0]] + s[1..];
      InsertSorted(s[0], SortTodos(s[1..], f, o), f, o)
  }

  // ---------------------------------------------------------------- pages

  function Min(a: nat, b: nat): nat {
    if a <= b then a else b
  }

  /** `Math.ceil(n / d)`, in integers: the least number of pages of `d` rows
      that hold `n` rows. */
  function CeilDiv(n: nat, d: Positive): (r: nat)
    ensures r * d >= n
    ensures r > 0 ==> (r - 1) * d < n
    ensures r == 0 <==> n == 0
  {
    var q := (n + d - 1) / d;
    var m := (n + d - 1) % d;
    assert n + d - 1 == q * d + m && 0 <= m < d;
    assert (q - 1) * d == q * d - d;
    q
  }

  /** SQL OFFSET of a page. */
  function Offset(page: Positive, limit: Positive): nat {
    (page - 1) * limit
  }

  /** LIMIT `limit` OFFSET `(page - 1) * limit` over an ordered result. */
  function Page<T>(all: seq<T>, page: Positive, limit: Positive): (r: seq<T>)
    ensures |r| <= limit
    ensures Offset(page, limit) >= |all| ==> r == []
    ensures Offset(page, limit) < |all| ==> |r| == Min(limit, |all| - Offset(page, limit))
    ensures forall i :: 0 <= i < |r| ==> r[i] == all[Offset(page, limit) + i]
  {
    var lo := Min(Offset(page, limit), |all|);
    var hi := Min(Offset(page, limit) + limit, |all|);
    all[lo..hi]
  }

  /** Every row of an ordered result lies on one of the pages 1..ceil(n/limit):
      row `k` is entry `k % limit` of page `k / limit + 1`. */
  lemma PageOfIndex<T>(all: seq<T>, limit: Positive, k: nat)
    requires k < |all|
    ensures 1 <= k / limit + 1 <= CeilDiv(|all|, limit)
    ensures k % limit < |Page(all, k / limit + 1, limit)|
    ensures Page(all, k / limit + 1, limit)[k % limit] == all[k]
  {
    var p := k / limit + 1;
    var total := CeilDiv(|all|, limit);
    assert k == (k / limit) * limit + k % limit;
    assert Offset(p, limit) == (k / limit) * limit;
    assert Offset(p, limit) + k % limit == k;
    if p > total {
      MulMonotone(total, k / limit, limit);
      assert false;
    }
  }

  lemma MulMonotone(a: nat, b: nat, c: nat)
    requires a <= b
    ensures a * c <= b * c
  {
  }

  /** A page past the last one is empty. */
  lemma PagePastEnd<T>(all: seq<T>, page: Positive, limit: Positive)
    requires page > CeilDiv(|all|, limit)
    ensures Page(all, page, limit) == []
  {
    MulMonotone(CeilDiv(|all|, limit), page - 1, limit);
  }
}
