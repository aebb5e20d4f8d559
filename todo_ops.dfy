/** The per-list transforms of the todo engine: each mutation of the hook is a
    function from the old list (and its arguments) to the new list. */
module TodoOps {
  import opened TodoTypes
  import opened Text
  import opened Sequences

  /** No two items share an id. */
  predicate UniqueIds(s: seq<Todo>) {
    forall i, j :: 0 <= i < j < |s| ==> s[i].id != s[j].id
  }

  /** No item carries `id`. */
  predicate Fresh(s: seq<Todo>, id: string) {
    forall i :: 0 <= i < |s| ==> s[i].id != id
  }

  /** The two items agree on every field except `completed` and `completedAt`. */
  predicate SameExceptCompletion(a: Todo, b: Todo) {
    a.id == b.id && a.text == b.text && a.createdAt == b.createdAt && a.tags == b.tags
  }

  /** `completedAt` is present exactly on completed items. */
  predicate CompletionConsistent(s: seq<Todo>) {
    forall i :: 0 <= i < |s| ==> (s[i].completed <==> s[i].completedAt.Some?)
  }

  // ---------------------------------------------------------------- add

  /** The new item of `addTodo`, given the already trimmed text. */
  function NewTodo(id: string, trimmed: string, createdAt: Option<string>, tags: Option<seq<string>>, today: string): Todo {
    Todo(id, trimmed, false,
         if createdAt.None? || createdAt.value == "" then today else createdAt.value,
         None,
         if tags.None? then [] else tags.value)
  }

  /** `addTodo`: nothing happens to a text that is all whitespace; otherwise a new,
      active item with the trimmed text is put in front of the list. */
  function Added(s: seq<Todo>, id: string, text: string, createdAt: Option<string>, tags: Option<seq<string>>, today: string): (r: seq<Todo>)
    ensures AllWhitespace(text) ==> r == s
    ensures !AllWhitespace(text) ==> |r| == |s| + 1 && r[1..] == s
    ensures !AllWhitespace(text) ==>
      && r[0].id == id && r[0].text == Trim(text) && Trim(text) != []
      && !r[0].completed && r[0].completedAt == None
      && r[0].createdAt == (if createdAt.None? || createdAt.value == "" then today else createdAt.value)
      && r[0].tags == (if tags.None? then [] else tags.value)
  {
    TrimEmptyIff(text);
    if AllWhitespace(text) then s
    else
      var t := NewTodo(id, Trim(text), createdAt, tags, today);
      assert [t][0] == t && ([t] + s)[1..] == s;
      [t] + s
  }

  /** A fresh id keeps the ids unique. */
  lemma AddedKeepsUniqueIds(s: seq<Todo>, id: string, text: string, createdAt: Option<string>, tags: Option<seq<string>>, today: string)
    requires UniqueIds(s) && Fresh(s, id)
    ensures UniqueIds(Added(s, id, text, createdAt, tags, today))
  {
    var r := Added(s, id, text, createdAt, tags, today);
    if !AllWhitespace(text) {
      forall i, j | 0 <= i < j < |r| ensures r[i].id != r[j].id {
        assert r[j] == s[j - 1];
        if i > 0 { assert r[i] == s[i - 1]; }
      }
    }
  }

  // ---------------------------------------------------------------- toggle

  function ToggleItem(t: Todo, today: string): Todo {
    t.(completed := !t.completed, completedAt := if !t.completed then Some(today) else None)
  }

  /** `toggleTodo`: the items with `id` flip `completed`; `completedAt` becomes
      today when an item becomes completed and null when it becomes active. */
  function Toggled(s: seq<Todo>, id: string, today: string): (r: seq<Todo>)
    ensures |r| == |s|
    ensures forall i :: 0 <= i < |s| && s[i].id != id ==> r[i] == s[i]
    ensures forall i :: 0 <= i < |s| && s[i].id == id ==>
      && SameExceptCompletion(r[i], s[i])
      && r[i].completed == !s[i].completed
      && r[i].completedAt == (if r[i].completed then Some(today) else None)
  {
    seq(|s|, i requires 0 <= i < |s| => if s[i].id == id then ToggleItem(s[i], today) else s[i])
  }

  /** Toggling twice restores `completed`; `completedAt` ends null for an item
      that started active and is the second day for one that started completed. */
  lemma ToggleTwice(s: seq<Todo>, id: string, d1: string, d2: string)
    ensures var r := Toggled(Toggled(s, id, d1), id, d2);
      && |r| == |s|
      && (forall i :: 0 <= i < |s| ==> r[i].completed == s[i].completed && SameExceptCompletion(r[i], s[i]))
      && (forall i :: 0 <= i < |s| && s[i].id == id ==>
            r[i].completedAt == if s[i].completed then Some(d2) else None)
      && (forall i :: 0 <= i < |s| && s[i].id != id ==> r[i] == s[i])
  {
  }

  /** Toggling keeps `completedAt` present exactly on completed items, so on a
      consistent list toggling twice restores each item's null/non-null date. */
  lemma ToggleKeepsConsistent(s: seq<Todo>, id: string, today: string)
    requires CompletionConsistent(s)
    ensures CompletionConsistent(Toggled(s, id, today))
    ensures var r := Toggled(Toggled(s, id, today), id, today);
      forall i :: 0 <= i < |s| ==> r[i].completedAt.Some? == s[i].completedAt.Some?
  {
    var r := Toggled(s, id, today);
    assert forall i :: 0 <= i < |s| ==> (r[i].completed <==> r[i].completedAt.Some?);
  }

  // ---------------------------------------------------------------- updates

  /** `updateCompletedAt`: the items with `id` get `completedAt := date`, whatever their status. */
  function WithCompletedAt(s: seq<Todo>, id: string, date: string): (r: seq<Todo>)
    ensures |r| == |s|
    ensures forall i :: 0 <= i < |s| && s[i].id != id ==> r[i] == s[i]
    ensures forall i :: 0 <= i < |s| && s[i].id == id ==>
      SameExceptCompletion(r[i], s[i]) && r[i].completed == s[i].completed && r[i].completedAt == Some(date)
    ensures Fresh(s, id) ==> r == s
  {
    seq(|s|, i requires 0 <= i < |s| => if s[i].id == id then s[i].(completedAt := Some(date)) else s[i])
  }

  /** The argument of `updateTodo`: the fields present are the ones to change. */
  datatype Patch = Patch(text: Option<string>, tags: Option<seq<string>>)

  /** `updateTodo`: on the items with `id` the fields present in the patch are
      replaced; every other field and every other item is kept. */
  function Updated(s: seq<Todo>, id: string, patch: Patch): (r: seq<Todo>)
    ensures |r| == |s|
    ensures forall i :: 0 <= i < |s| && s[i].id != id ==> r[i] == s[i]
    ensures forall i :: 0 <= i < |s| && s[i].id == id ==>
      && r[i].id == s[i].id && r[i].completed == s[i].completed
      && r[i].createdAt == s[i].createdAt && r[i].completedAt == s[i].completedAt
      && r[i].text == (if patch.text.Some? then patch.text.value else s[i].text)
      && r[i].tags == (if patch.tags.Some? then patch.tags.value else s[i].tags)
    ensures Fresh(s, id) ==> r == s
  {
    seq(|s|, i requires 0 <= i < |s| =>
      if s[i].id != id then s[i]
      else s[i].(text := if patch.text.Some? then patch.text.value else s[i].text,
                 tags := if patch.tags.Some? then patch.tags.value else s[i].tags))
  }

  // ---------------------------------------------------------------- deletion and completion

  /** `deleteTodo`: exactly the sub-sequence of items whose id differs. */
  function WithoutId(s: seq<Todo>, id: string): (r: seq<Todo>)
    ensures IsSubseq(r, s)
    ensures forall t :: t in r <==> t in s && t.id != id
    ensures forall t :: multiset(r)[t] == if t.id != id then multiset(s)[t] else 0
    ensures Fresh(s, id) <==> r == s
  {
    var p := (t: Todo) => t.id != id;
    KeepIsSubseq(s, p);
    KeepAll(s, p);
    assert Fresh(s, id) <==> forall i :: 0 <= i < |s| ==> p(s[i]);
    Keep(s, p)
  }

  /** `deleteCompleted`: exactly the sub-sequence of active items, in their order. */
  function WithoutCompleted(s: seq<Todo>): (r: seq<Todo>)
    ensures IsSubseq(r, s)
    ensures forall t :: t in r <==> t in s && !t.completed
    ensures forall t :: multiset(r)[t] == if !t.completed then multiset(s)[t] else 0
  {
    KeepIsSubseq(s, (t: Todo) => !t.completed);
    Keep(s, (t: Todo) => !t.completed)
  }

  /** `completeAll`: every item ends completed; already completed items are kept
      as they are, the others get today's `completedAt`. */
  function CompletedAll(s: seq<Todo>, today: string): (r: seq<Todo>)
    ensures |r| == |s|
    ensures forall i :: 0 <= i < |r| ==> r[i].completed
    ensures forall i :: 0 <= i < |s| && s[i].completed ==> r[i] == s[i]
    ensures forall i :: 0 <= i < |s| && !s[i].completed ==>
      SameExceptCompletion(r[i], s[i]) && r[i].completedAt == Some(today)
  {
    seq(|s|, i requires 0 <= i < |s| =>
      if s[i].completed then s[i] else s[i].(completed := true, completedAt := Some(today)))
  }

  /** `completeAll` is idempotent: a second call, on any day, changes nothing. */
  lemma CompleteAllIdempotent(s: seq<Todo>, d1: string, d2: string)
    ensures CompletedAll(CompletedAll(s, d1), d2) == CompletedAll(s, d1)
  {
  }

  // ---------------------------------------------------------------- undo stack

  /** Keeps the last `n` elements of `s` (all of them when there are fewer). */
  function Last<T>(s: seq<T>, n: nat): seq<T> {
    if |s| <= n then s else s[|s| - n..]
  }

  const UndoLimit: nat := 20

  /** `pushUndo`: keep the last 19 snapshots (`slice(-19)`) and put `snapshot` on top. */
  function Checkpoint<T>(stack: seq<T>, snapshot: T): (r: seq<T>)
    ensures 1 <= |r| <= UndoLimit && r[|r| - 1] == snapshot
    ensures |stack| < UndoLimit ==> r == stack + [snapshot]
    ensures |stack| == UndoLimit ==> r == stack[1..] + [snapshot]
    ensures r == Last(stack + [snapshot], UndoLimit)
  {
    var r := Last(stack, UndoLimit - 1) + [snapshot];
    assert |stack| >= UndoLimit ==> r == (stack + [snapshot])[|stack| + 1 - UndoLimit..];
    r
  }

  /** A run of checkpoints, one per snapshot in the order they are taken. */
  function CheckpointAll<T>(stack: seq<T>, snapshots: seq<T>): seq<T>
    decreases |snapshots|
  {
    if snapshots == [] then stack
    else CheckpointAll(Checkpoint(stack, snapshots[0]), snapshots[1..])
  }

  lemma LastOfLast<T>(s: seq<T>, t: seq<T>, n: nat)
    ensures Last(Last(s, n) + t, n) == Last(s + t, n)
  {
    var u := Last(s, n);
    assert u + t == (s + t)[|s| - |u|..];
  }

  /** Whatever the number of checkpoints, the stack holds exactly the last 20
      snapshots taken: after 21 checkpoints the first one cannot be undone. */
  lemma {:induction false} CheckpointAllKeepsLast<T>(stack: seq<T>, snapshots: seq<T>)
    requires |stack| <= UndoLimit
    ensures CheckpointAll(stack, snapshots) == Last(stack + snapshots, UndoLimit)
    decreases |snapshots|
  {
    if snapshots != [] {
      var first, rest := stack + [snapshots[0]], snapshots[1..];
      assert first + rest == stack + snapshots by {
        assert snapshots == [snapshots[0]] + rest;
      }
      CheckpointAllKeepsLast(Checkpoint(stack, snapshots[0]), rest);
      LastOfLast(first, rest, UndoLimit);
    }
  }

  // ---------------------------------------------------------------- reorder

  /** `findIndex` on the id: the first index carrying `id`, or -1. */
  function IndexOfId(s: seq<Todo>, id: string): (r: int)
    ensures -1 <= r < |s|
    ensures r == -1 <==> Fresh(s, id)
    ensures r >= 0 ==> s[r].id == id && forall k :: 0 <= k < r ==> s[k].id != id
  {
    if s == [] then -1
    else if s[0].id == id then 0
    else
      var k := IndexOfId(s[1..], id);
      assert forall j :: 1 <= j < |s| ==> s[j] == s[1..][j - 1];
      if k == -1 then -1 else k + 1
  }

  /** `reorderTodos`: the item with `activeId` is taken out and put back at the
      index where `overId` was; nothing happens when either id is absent. */
  function Reordered(s: seq<Todo>, activeId: string, overId: string): (r: seq<Todo>)
    ensures |r| == |s| && multiset(r) == multiset(s)
    ensures Fresh(s, activeId) || Fresh(s, overId) ==> r == s
    ensures var from, to := IndexOfId(s, activeId), IndexOfId(s, overId);
      from >= 0 && to >= 0 ==>
        r[to] == s[from] && RemoveAt(r, to) == RemoveAt(s, from)
  {
    var from, to := IndexOfId(s, activeId), IndexOfId(s, overId);
    if from == -1 || to == -1 then s
    else
      var rest := RemoveAt(s, from);
      RemoveInserted(rest, to, s[from]);
      RemoveAtMultiset(s, from);
      InsertAtMultiset(rest, to, s[from]);
      InsertAt(rest, to, s[from])
  }

  lemma RemoveKeepsUniqueIds(s: seq<Todo>, k: nat)
    requires UniqueIds(s) && k < |s|
    ensures UniqueIds(RemoveAt(s, k)) && Fresh(RemoveAt(s, k), s[k].id)
  {
    var rest := RemoveAt(s, k);
    forall i, j | 0 <= i < j < |rest| ensures rest[i].id != rest[j].id {
      assert rest[i] == s[if i < k then i else i + 1];
      assert rest[j] == s[if j < k then j else j + 1];
    }
  }

  lemma InsertKeepsUniqueIds(s: seq<Todo>, k: nat, x: Todo)
    requires UniqueIds(s) && Fresh(s, x.id) && k <= |s|
    ensures UniqueIds(InsertAt(s, k, x))
  {
    var r := InsertAt(s, k, x);
    forall i, j | 0 <= i < j < |r| ensures r[i].id != r[j].id {
      if j != k { assert r[j] == s[if j < k then j else j - 1]; }
      if i != k { assert r[i] == s[if i < k then i else i - 1]; }
    }
  }

  /** Reordering moves one item, so it keeps the ids unique. */
  lemma ReorderKeepsUniqueIds(s: seq<Todo>, activeId: string, overId: string)
    requires UniqueIds(s)
    ensures UniqueIds(Reordered(s, activeId, overId))
  {
    var from, to := IndexOfId(s, activeId), IndexOfId(s, overId);
    if from >= 0 && to >= 0 {
      RemoveKeepsUniqueIds(s, from);
      InsertKeepsUniqueIds(RemoveAt(s, from), to, s[from]);
    }
  }

  /** Moving an item onto itself changes nothing. */
  lemma ReorderSameId(s: seq<Todo>, id: string)
    ensures Reordered(s, id, id) == s
  {
    var k := IndexOfId(s, id);
    if k >= 0 {
      RemoveAtDetermines(Reordered(s, id, id), s, k);
    }
  }

  /** On two items with different ids, a reorder undone by the reorder with the
      arguments swapped restores the original order. */
  lemma ReorderSwapBack(s: seq<Todo>)
    requires |s| == 2 && s[0].id != s[1].id
    ensures Reordered(s, s[0].id, s[1].id) == [s[1], s[0]]
    ensures Reordered(Reordered(s, s[0].id, s[1].id), s[1].id, s[0].id) == s
  {
    var r := Reordered(s, s[0].id, s[1].id);
    assert IndexOfId(s, s[1].id) == 1;
    assert r == [s[1], s[0]];
    assert IndexOfId(r, s[0].id) == 1;
    assert IndexOfId(r, s[1].id) == 0;
  }

  /** A sub-sequence of a list with unique ids has unique ids. */
  lemma {:induction false} SubseqKeepsUniqueIds(r: seq<Todo>, s: seq<Todo>)
    requires UniqueIds(s) && IsSubseq(r, s)
    ensures UniqueIds(r)
    decreases |s|
  {
    if r != [] {
      if r[0] == s[0] {
        SubseqKeepsUniqueIds(r[1..], s[1..]);
        SubseqMembers(r[1..], s[1..]);
        forall j | 1 <= j < |r| ensures r[0].id != r[j].id {
          assert r[j] == r[1..][j - 1] && r[1..][j - 1] in r[1..];
          assert r[j] in s[1..];
          var k :| 0 <= k < |s[1..]| && s[1..][k] == r[j];
          assert s[k + 1] == r[j];
        }
      } else {
        SubseqKeepsUniqueIds(r, s[1..]);
      }
    }
  }

  lemma {:induction false} SubseqMembers<T>(r: seq<T>, s: seq<T>)
    requires IsSubseq(r, s)
    ensures forall x :: x in r ==> x in s
    decreases |s|
  {
    if r != [] {
      if r[0] == s[0] {
        SubseqMembers(r[1..], s[1..]);
        assert forall x :: x in r ==> x == r[0] || x in r[1..];
      } else {
        SubseqMembers(r, s[1..]);
      }
    }
  }

  /** Two lists of one length with the same id at every index. */
  predicate SameIds(s: seq<Todo>, r: seq<Todo>) {
    |s| == |r| && forall i :: 0 <= i < |s| ==> s[i].id == r[i].id
  }

  /** The field edits keep every id where it was, so they keep the ids unique. */
  lemma EditsKeepUniqueIds(s: seq<Todo>, id: string, today: string, date: string, patch: Patch)
    requires UniqueIds(s)
    ensures UniqueIds(Toggled(s, id, today))
    ensures UniqueIds(WithCompletedAt(s, id, date))
    ensures UniqueIds(Updated(s, id, patch))
    ensures UniqueIds(CompletedAll(s, today))
  {
    assert SameIds(s, Toggled(s, id, today));
    assert SameIds(s, WithCompletedAt(s, id, date));
    assert SameIds(s, Updated(s, id, patch));
    assert SameIds(s, CompletedAll(s, today));
  }

  /** The deletions keep a sub-sequence, so they keep the ids unique. */
  lemma DeletionsKeepUniqueIds(s: seq<Todo>, id: string)
    requires UniqueIds(s)
    ensures UniqueIds(WithoutId(s, id))
    ensures UniqueIds(WithoutCompleted(s))
  {
    SubseqKeepsUniqueIds(WithoutId(s, id), s);
    SubseqKeepsUniqueIds(WithoutCompleted(s), s);
  }

  /** The index of the first item carrying `id` is what `findIndex` returns. */
  lemma IndexOfIdAt(s: seq<Todo>, k: nat, id: string)
    requires k < |s| && s[k].id == id && forall j :: 0 <= j < k ==> s[j].id != id
    ensures IndexOfId(s, id) == k
  {
    assert !Fresh(s, id);
  }

  /** The reorder example of the hook's tests: [3, 2, 1] with 3 moved onto 1 gives [2, 1, 3]. */
  lemma ReorderExample(t3: Todo, t2: Todo, t1: Todo)
    requires t3.id != t2.id && t3.id != t1.id && t2.id != t1.id
    ensures Reordered([t3, t2, t1], t3.id, t1.id) == [t2, t1, t3]
  {
    var s := [t3, t2, t1];
    IndexOfIdAt(s, 0, t3.id);
    IndexOfIdAt(s, 2, t1.id);
    var r := Reordered(s, t3.id, t1.id);
    var rest := RemoveAt(r, 2);
    assert rest == RemoveAt(s, 0);
    assert rest[0] == t2 && rest[1] == t1;
    assert r[0] == t2 && r[1] == t1 && r[2] == t3;
  }

  // ---------------------------------------------------------------- derived view

  predicate StatusPasses(t: Todo, filter: Filter) {
    !(filter == Active && t.completed) && !(filter == Completed && !t.completed)
  }

  /** A selected tag that is null or the empty string filters nothing. */
  predicate TagPasses(t: Todo, selectedTag: Option<string>) {
    selectedTag == None || selectedTag == Some("") || selectedTag.value in t.tags
  }

  /** `query` is the already lower-cased search string; the empty query matches everything. */
  predicate SearchPasses(t: Todo, query: string) {
    query == "" || Contains(Lower(t.text), query)
  }

  predicate Passes(t: Todo, filter: Filter, selectedTag: Option<string>, query: string) {
    StatusPasses(t, filter) && TagPasses(t, selectedTag) && SearchPasses(t, query)
  }

  /** The filtering step of `filteredTodos`, before sorting. */
  function Visible(s: seq<Todo>, filter: Filter, selectedTag: Option<string>, searchQuery: string): (r: seq<Todo>)
    ensures IsSubseq(r, s)
    ensures forall t :: t in r <==>
      t in s && StatusPasses(t, filter) && TagPasses(t, selectedTag) && SearchPasses(t, Lower(searchQuery))
    ensures filter == All && (selectedTag == None || selectedTag == Some("")) && searchQuery == "" ==> r == s
  {
    var query := Lower(searchQuery);
    KeepIsSubseq(s, (t: Todo) => Passes(t, filter, selectedTag, query));
    KeepAll(s, (t: Todo) => Passes(t, filter, selectedTag, query));
    Keep(s, (t: Todo) => Passes(t, filter, selectedTag, query))
  }

  /** The single filter pass equals the status, then tag, then search pipeline. */
  lemma VisibleIsPipeline(s: seq<Todo>, filter: Filter, selectedTag: Option<string>, searchQuery: string)
    ensures var query := Lower(searchQuery);
      Visible(s, filter, selectedTag, searchQuery)
        == Keep(Keep(Keep(s, (t: Todo) => StatusPasses(t, filter)), (t: Todo) => TagPasses(t, selectedTag)),
                (t: Todo) => SearchPasses(t, query))
  {
    var query := Lower(searchQuery);
    KeepThree(s, (t: Todo) => Passes(t, filter, selectedTag, query),
      (t: Todo) => StatusPasses(t, filter), (t: Todo) => TagPasses(t, selectedTag), (t: Todo) => SearchPasses(t, query));
  }

  /** The order a sort key asks for: may `x` come before `y`? `collate` stands for
      the Japanese-locale `localeCompare(a, b) <= 0` of the text sorts. */
  predicate InOrder(x: Todo, y: Todo, key: SortKey, collate: (string, string) -> bool) {
    match key
    case Manual => true
    case CreatedAtDesc => StrLeq(y.createdAt, x.createdAt)
    case CreatedAtAsc => StrLeq(x.createdAt, y.createdAt)
    case TextAsc => collate(x.text, y.text)
    case TextDesc => collate(y.text, x.text)
  }

  /** Every sort key orders the items by a total preorder, given one for the text collation. */
  lemma InOrderIsTotalPreorder(key: SortKey, collate: (string, string) -> bool, le: (Todo, Todo) -> bool)
    requires IsTotalPreorder(collate)
    requires forall x, y :: le(x, y) == InOrder(x, y, key, collate)
    ensures IsTotalPreorder(le)
  {
    forall x: Todo, y: Todo ensures InOrder(x, y, key, collate) || InOrder(y, x, key, collate) {
      StrLeqTotal(x.createdAt, y.createdAt);
    }
    forall x: Todo, y: Todo, z: Todo | InOrder(x, y, key, collate) && InOrder(y, z, key, collate)
      ensures InOrder(x, z, key, collate)
    {
      if key == CreatedAtAsc {
        StrLeqTransitive(x.createdAt, y.createdAt, z.createdAt);
      } else if key == CreatedAtDesc {
        StrLeqTransitive(z.createdAt, y.createdAt, x.createdAt);
      }
    }
  }

  /** The code-point order of strings is a total preorder. */
  lemma StrLeqIsTotalPreorder(le: (string, string) -> bool)
    requires forall a, b :: le(a, b) == StrLeq(a, b)
    ensures IsTotalPreorder(le)
  {
    forall a: string, b: string ensures StrLeq(a, b) || StrLeq(b, a) {
      StrLeqTotal(a, b);
    }
    forall a: string, b: string, c: string | StrLeq(a, b) && StrLeq(b, c) ensures StrLeq(a, c) {
      StrLeqTransitive(a, b, c);
    }
  }

  // ---------------------------------------------------------------- tags and counts

  /** The tags of all items of `s`. */
  function TagUnion(s: seq<Todo>): set<string> {
    if s == [] then {}
    else
      var tags := s[|s| - 1].tags;
      TagUnion(s[..|s| - 1]) + set k | 0 <= k < |tags| :: tags[k]
  }

  lemma {:induction false} TagUnionIff(s: seq<Todo>, g: string)
    ensures g in TagUnion(s) <==> exists i :: 0 <= i < |s| && g in s[i].tags
  {
    if s != [] {
      TagUnionIff(s[..|s| - 1], g);
      assert forall i :: 0 <= i < |s| - 1 ==> s[..|s| - 1][i] == s[i];
    }
  }

  /** `activeCount`: the number of items of the whole list that are not completed. */
  function ActiveCount(s: seq<Todo>): nat {
    |WithoutCompleted(s)|
  }

  function CompletedCount(s: seq<Todo>): nat {
    |Keep(s, (t: Todo) => t.completed)|
  }

  /** Every item is either active or completed. */
  lemma {:induction false} ActivePlusCompleted(s: seq<Todo>)
    ensures ActiveCount(s) + CompletedCount(s) == |s|
  {
    if s != [] {
      ActivePlusCompleted(s[1..]);
    }
  }

  /** No active item remains after `completeAll`, and all items are active after `deleteCompleted`. */
  lemma CountsAfterBulkOperations(s: seq<Todo>, today: string)
    ensures ActiveCount(CompletedAll(s, today)) == 0
    ensures ActiveCount(WithoutCompleted(s)) == |WithoutCompleted(s)|
  {
    var w := WithoutCompleted(s);
    KeepAll(w, (t: Todo) => !t.completed);
    assert forall i :: 0 <= i < |w| ==> w[i] in w;
  }

  /** Two additions of already trimmed texts put the newer item first, and both are active. */
  lemma AddTwiceNewestFirst(first: string, second: string, idA: string, idB: string, today: string)
    requires first != [] && !IsWhitespace(first[0]) && !IsWhitespace(first[|first| - 1])
    requires second != [] && !IsWhitespace(second[0]) && !IsWhitespace(second[|second| - 1])
    ensures var s := Added(Added([], idA, first, None, None, today), idB, second, None, None, today);
      |s| == 2 && s[0].text == second && s[1].text == first && ActiveCount(s) == 2
  {
    TrimmedIsFixed(first);
    TrimmedIsFixed(second);
    var s := Added(Added([], idA, first, None, None, today), idB, second, None, None, today);
    KeepAll(s, (t: Todo) => !t.completed);
  }

  /** A freshly added item toggled to completed and back: after the first toggle it
      is completed with today's date and none is active; after the second it is
      active again with a null `completedAt`. */
  lemma ToggleBackScenario(text: string, id: string, today: string, later: string)
    requires !AllWhitespace(text)
    ensures var s := Added([], id, text, None, None, today);
      var u := Toggled(s, id, later);
      var v := Toggled(u, id, later);
      && |u| == 1 && u[0].completed && u[0].completedAt == Some(later) && ActiveCount(u) == 0
      && |v| == 1 && !v[0].completed && v[0].completedAt == None && ActiveCount(v) == 1
  {
    var s := Added([], id, text, None, None, today);
    var u := Toggled(s, id, later);
    var v := Toggled(u, id, later);
    assert u[1..] == [] && v[1..] == [];
    assert WithoutCompleted(u) == [];
    assert WithoutCompleted(v) == [v[0]];
  }

  /** Selecting tag `x` keeps the item tagged `x` and the one tagged with both,
      in list order, and drops the one tagged only `y`. */
  lemma TagFilterScenario(a: Todo, b: Todo, c: Todo, x: string, y: string)
    requires x != "" && x != y
    requires a.tags == [x] && b.tags == [y] && c.tags == [x, y]
    ensures Visible([c, b, a], All, Some(x), "") == [c, a]
  {
    var p := (t: Todo) => Passes(t, All, Some(x), Lower(""));
    assert p(c) && !p(b) && p(a) by {
      assert c.tags[0] == x && a.tags[0] == x && b.tags[0] != x;
    }
    KeepOuterTwo(c, b, a, p);
    assert Visible([c, b, a], All, Some(x), "") == Keep([c, b, a], p);
  }

  /** The search ignores ASCII case on both sides: texts and queries that are equal
      up to case pass or fail together. */
  lemma SearchIgnoresCase(t: Todo, u: Todo, query: string, query': string)
    requires EqualIgnoringCase(t.text, u.text) && EqualIgnoringCase(query, query')
    ensures SearchPasses(t, Lower(query)) == SearchPasses(u, Lower(query'))
  {
    LowerEqualIff(t.text, u.text);
    LowerEqualIff(query, query');
  }

  /** Whatever the case of the query, an item is found when the query occurs in its text as typed. */
  lemma SearchFindsLiteral(t: Todo, query: string)
    requires Contains(t.text, query)
    ensures SearchPasses(t, Lower(query))
  {
    ContainsLower(t.text, query);
  }

  /** The lower-case query "hello" finds "Hello World" and not "Goodbye". */
  lemma SearchScenario(a: Todo, b: Todo)
    requires a.text == "Hello World" && b.text == "Goodbye"
    ensures Visible([b, a], All, None, "hello") == [a]
  {
    var p := (t: Todo) => Passes(t, All, None, Lower("hello"));
    assert Lower("hello") == "hello";
    assert Lower(a.text)[..5] == "hello";
    assert p(a);
    var g := Lower(b.text);
    assert g == "goodbye";
    if Contains(g, "hello") {
      ContainsFirst(g, "hello");
    }
    assert !p(b);
    KeepSecond(b, a, p);
    assert Visible([b, a], All, None, "hello") == Keep([b, a], p);
  }

  /** Typing the query in upper or lower case shows the same items. */
  lemma SearchQueryCase(s: seq<Todo>, filter: Filter, selectedTag: Option<string>, query: string, query': string)
    requires EqualIgnoringCase(query, query')
    ensures Visible(s, filter, selectedTag, query) == Visible(s, filter, selectedTag, query')
  {
    LowerEqualIff(query, query');
  }

  // ---------------------------------------------------------------- load

  /** The tag defaulting of `loadTodos`: each stored record is kept, and its tags
      become the empty list when they were not stored as an array. */
  function Normalised(stored: seq<StoredTodo>): (r: seq<Todo>)
    ensures |r| == |stored|
    ensures forall i :: 0 <= i < |r| ==>
      && r[i].id == stored[i].id && r[i].text == stored[i].text
      && r[i].completed == stored[i].completed && r[i].createdAt == stored[i].createdAt
      && r[i].completedAt == stored[i].completedAt
      && r[i].tags == (if stored[i].tags.Some? then stored[i].tags.value else [])
  {
    seq(|stored|, i requires 0 <= i < |stored| =>
      var x := stored[i];
      Todo(x.id, x.text, x.completed, x.createdAt, x.completedAt,
           if x.tags.Some? then x.tags.value else []))
  }

  /** `loadTodos`. The slot is what `localStorage` holds: `None` when it is empty, unreadable,
      not an array, or an array with a `null` element; all of these give the empty list. */
  function LoadTodos(slot: Option<seq<StoredTodo>>): (r: seq<Todo>)
    ensures slot == None ==> r == []
  {
    if slot.None? then [] else Normalised(slot.value)
  }

  /** What the save effect writes: every item, `tags` always an array. */
  function Stored(s: seq<Todo>): seq<StoredTodo> {
    seq(|s|, i requires 0 <= i < |s| =>
      var t := s[i];
      StoredTodo(t.id, t.text, t.completed, t.createdAt, t.completedAt, Some(t.tags)))
  }

  /** Loading what was saved gives back the same list. */
  lemma LoadStored(s: seq<Todo>)
    ensures LoadTodos(Some(Stored(s))) == s
  {
    var r := LoadTodos(Some(Stored(s)));
    assert forall i :: 0 <= i < |s| ==> r[i] == s[i];
  }
}
