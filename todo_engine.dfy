/** The `useTodos` hook: the canonical list, the undo stack of whole-list
    snapshots, the view settings, the mutations and the derived view. */
module TodoEngine {
  import opened TodoTypes
  import opened Text
  import opened Sequences
  import opened Sorting
  import opened TodoOps

  /** `sortTodos`: manual order returns the list itself; every other key sorts a copy. */
  method SortTodos(todos: seq<Todo>, key: SortKey, collate: (string, string) -> bool) returns (r: seq<Todo>)
    requires IsTotalPreorder(collate)
    ensures multiset(r) == multiset(todos)
    ensures forall i, j :: 0 <= i < j < |r| ==> InOrder(r[i], r[j], key, collate)
    ensures key == Manual ==> r == todos
  {
    if key == Manual {
      return todos;
    }
    var sorted := new Todo[|todos|](i requires 0 <= i < |todos| => todos[i]);
    assert sorted[..] == todos;
    var le := (x: Todo, y: Todo) => InOrder(x, y, key, collate);
    InOrderIsTotalPreorder(key, collate, le);
    SortInPlace(sorted, le);
    r := sorted[..];
  }

  class Engine {
    var todos: seq<Todo>
    var undoStack: seq<seq<Todo>>
    var canUndo: bool
    var filter: Filter
    var selectedTag: Option<string>
    var searchQuery: string
    var sortKey: SortKey

    /** The stack never holds more than 20 snapshots, and `canUndo` says whether it holds any. */
    predicate Valid()
      reads this`undoStack, this`canUndo
    {
      |undoStack| <= UndoLimit && canUndo == (undoStack != [])
    }

    /** A fresh engine over what `loadTodos` reads; the view starts unfiltered and in manual order. */
    constructor (slot: Option<seq<StoredTodo>>)
      ensures Valid()
      ensures todos == LoadTodos(slot) && undoStack == [] && !canUndo
      ensures filter == All && selectedTag == None && searchQuery == "" && sortKey == Manual
    {
      todos := LoadTodos(slot);
      undoStack := [];
      canUndo := false;
      filter := All;
      selectedTag := None;
      searchQuery := "";
      sortKey := Manual;
    }

    /** `pushUndo`: the current list goes on top of the stack, which keeps 20 entries at most. */
    method PushUndo()
      requires Valid()
      modifies this`undoStack, this`canUndo
      ensures Valid() && canUndo
      ensures undoStack == Checkpoint(old(undoStack), todos)
    {
      undoStack := Checkpoint(undoStack, todos);
      canUndo := true;
    }

    /** `addTodo`, with the generated id and today's date passed in. */
    method AddTodo(text: string, createdAt: Option<string>, tags: Option<seq<string>>, id: string, today: string)
      requires Fresh(todos, id)
      modifies this`todos
      ensures todos == Added(old(todos), id, text, createdAt, tags, today)
    {
      var trimmed := Trim(text);
      if trimmed == [] {
        return;
      }
      todos := [NewTodo(id, trimmed, createdAt, tags, today)] + todos;
    }

    /** `toggleTodo`: not checkpointed. */
    method ToggleTodo(id: string, today: string)
      modifies this`todos
      ensures todos == Toggled(old(todos), id, today)
    {
      todos := Toggled(todos, id, today);
    }

    /** `updateCompletedAt`: not checkpointed. */
    method UpdateCompletedAt(id: string, date: string)
      modifies this`todos
      ensures todos == WithCompletedAt(old(todos), id, date)
    {
      todos := WithCompletedAt(todos, id, date);
    }

    /** `updateTodo`: checkpoint, then patch. */
    method UpdateTodo(id: string, patch: Patch)
      requires Valid()
      modifies this`todos, this`undoStack, this`canUndo
      ensures Valid() && canUndo
      ensures undoStack == Checkpoint(old(undoStack), old(todos))
      ensures todos == Updated(old(todos), id, patch)
    {
      PushUndo();
      todos := Updated(todos, id, patch);
    }

    /** `deleteTodo`: checkpoint, then drop the items with `id`. */
    method DeleteTodo(id: string)
      requires Valid()
      modifies this`todos, this`undoStack, this`canUndo
      ensures Valid() && canUndo
      ensures undoStack == Checkpoint(old(undoStack), old(todos))
      ensures todos == WithoutId(old(todos), id)
    {
      PushUndo();
      todos := WithoutId(todos, id);
    }

    /** `deleteCompleted`: checkpoint, then keep the active items. */
    method DeleteCompleted()
      requires Valid()
      modifies this`todos, this`undoStack, this`canUndo
      ensures Valid() && canUndo
      ensures undoStack == Checkpoint(old(undoStack), old(todos))
      ensures todos == WithoutCompleted(old(todos))
    {
      PushUndo();
      todos := WithoutCompleted(todos);
    }

    /** `completeAll`: checkpoint, then complete every active item. */
    method CompleteAll(today: string)
      requires Valid()
      modifies this`todos, this`undoStack, this`canUndo
      ensures Valid() && canUndo
      ensures undoStack == Checkpoint(old(undoStack), old(todos))
      ensures todos == CompletedAll(old(todos), today)
    {
      PushUndo();
      todos := CompletedAll(todos, today);
    }

    /** `undo`: nothing on an empty stack; otherwise the top snapshot becomes the list and is popped. */
    method Undo()
      requires Valid()
      modifies this`todos, this`undoStack, this`canUndo
      ensures Valid()
      ensures old(undoStack) == [] ==> todos == old(todos) && undoStack == [] && !canUndo
      ensures old(undoStack) != [] ==>
        && todos == old(undoStack)[|old(undoStack)| - 1]
        && undoStack == old(undoStack)[..|old(undoStack)| - 1]
    {
      var stack := undoStack;
      if |stack| == 0 {
        return;
      }
      var prev := stack[|stack| - 1];
      undoStack := stack[..|stack| - 1];
      canUndo := |undoStack| > 0;
      todos := prev;
    }

    /** `reorderTodos`: not checkpointed. */
    method ReorderTodos(activeId: string, overId: string)
      modifies this`todos
      ensures todos == Reordered(old(todos), activeId, overId)
    {
      var oldIndex := IndexOfId(todos, activeId);
      var newIndex := IndexOfId(todos, overId);
      if oldIndex == -1 || newIndex == -1 {
        return;
      }
      var moved := todos[oldIndex];
      var next := RemoveAt(todos, oldIndex);
      next := InsertAt(next, newIndex, moved);
      todos := next;
    }

    method SetFilter(value: Filter)
      modifies this`filter
      ensures filter == value
    {
      filter := value;
    }

    method SetSelectedTag(value: Option<string>)
      modifies this`selectedTag
      ensures selectedTag == value
    {
      selectedTag := value;
    }

    method SetSearchQuery(value: string)
      modifies this`searchQuery
      ensures searchQuery == value
    {
      searchQuery := value;
    }

    method SetSortKey(value: SortKey)
      modifies this`sortKey
      ensures sortKey == value
    {
      sortKey := value;
    }

    /** `allTags`: every tag of every item of the whole list, once each, in code-point order. */
    method AllTags() returns (r: seq<string>)
      ensures NoDup(r)
      ensures forall i, j :: 0 <= i < j < |r| ==> StrLeq(r[i], r[j])
      ensures forall g :: g in r <==> exists i :: 0 <= i < |todos| && g in todos[i].tags
    {
      var tagSet: seq<string> := [];
      for i := 0 to |todos|
        invariant NoDup(tagSet)
        invariant forall g :: g in tagSet <==> g in TagUnion(todos[..i])
      {
        var tags := todos[i].tags;
        for k := 0 to |tags|
          invariant NoDup(tagSet)
          invariant forall g :: g in tagSet <==> g in TagUnion(todos[..i]) || g in tags[..k]
        {
          if tags[k] !in tagSet {
            tagSet := tagSet + [tags[k]];
          }
        }
        assert todos[..i + 1][..i] == todos[..i];
        assert tags[..|tags|] == tags;
      }
      assert todos[..|todos|] == todos;
      var sorted := new string[|tagSet|](i requires 0 <= i < |tagSet| => tagSet[i]);
      assert sorted[..] == tagSet;
      var le := (a: string, b: string) => StrLeq(a, b);
      StrLeqIsTotalPreorder(le);
      SortInPlace(sorted, le);
      r := sorted[..];
      PermutationKeepsNoDup(tagSet, r);
      forall g ensures g in r <==> exists i :: 0 <= i < |todos| && g in todos[i].tags {
        TagUnionIff(todos, g);
        assert g in r <==> g in multiset(r);
        assert g in tagSet <==> g in multiset(tagSet);
      }
    }

    /** `filteredTodos`: the items that pass the status, tag and search filters,
        ordered by the sort key. `collate` is the text collation of the text sorts. */
    method FilteredTodos(collate: (string, string) -> bool) returns (r: seq<Todo>)
      requires IsTotalPreorder(collate)
      ensures multiset(r) == multiset(Visible(todos, filter, selectedTag, searchQuery))
      ensures forall t :: t in r <==>
        t in todos && StatusPasses(t, filter) && TagPasses(t, selectedTag) && SearchPasses(t, Lower(searchQuery))
      ensures sortKey == Manual ==> r == Visible(todos, filter, selectedTag, searchQuery)
      ensures forall i, j :: 0 <= i < j < |r| ==> InOrder(r[i], r[j], sortKey, collate)
    {
      var result := Visible(todos, filter, selectedTag, searchQuery);
      r := SortTodos(result, sortKey, collate);
      assert forall t :: t in r <==> t in multiset(r);
      assert forall t :: t in result <==> t in multiset(result);
    }

    /** `activeCount`: the active items of the whole list; with the completed ones they make up the list. */
    function ActiveCount(): (r: nat)
      reads this
      ensures r + CompletedCount(todos) == |todos|
      ensures r == |WithoutCompleted(todos)|
    {
      ActivePlusCompleted(todos);
      TodoOps.ActiveCount(todos)
    }

    /** `totalCount`: the length of the whole list, which no filtered view exceeds. */
    function TotalCount(): (r: nat)
      reads this
      ensures r == |todos|
      ensures |Visible(todos, filter, selectedTag, searchQuery)| <= r
    {
      |todos|
    }
  }

  /** Deleting and then undoing gives back the exact list, and the stack as it
      was unless it was full. */
  method DeleteThenUndo(e: Engine, id: string)
    requires e.Valid()
    modifies e`todos, e`undoStack, e`canUndo
    ensures e.Valid()
    ensures e.todos == old(e.todos)
    ensures |old(e.undoStack)| < UndoLimit ==> e.undoStack == old(e.undoStack)
    ensures |old(e.undoStack)| == UndoLimit ==> e.undoStack == old(e.undoStack)[1..]
    ensures e.canUndo == (old(e.undoStack) != [])
  {
    e.DeleteTodo(id);
    e.Undo();
  }

  /** Editing and then undoing restores the list in the same way. */
  method UpdateThenUndo(e: Engine, id: string, patch: Patch)
    requires e.Valid()
    modifies e`todos, e`undoStack, e`canUndo
    ensures e.Valid()
    ensures e.todos == old(e.todos)
    ensures |old(e.undoStack)| < UndoLimit ==> e.undoStack == old(e.undoStack)
    ensures |old(e.undoStack)| == UndoLimit ==> e.undoStack == old(e.undoStack)[1..]
    ensures e.canUndo == (old(e.undoStack) != [])
  {
    e.UpdateTodo(id, patch);
    e.Undo();
  }
}
