# Todo state engine, modelled in Dafny

This project models the state engine of a personal todo-list application: the
`useTodos` hook in `src/hooks/use-todos.ts`, with the record shapes of
`src/types/todo.ts`. The engine owns the ordered list of todo items, a bounded
undo stack of whole-list snapshots, and four view settings: status filter,
selected tag, search query and sort key. Its mutations add, toggle, patch,
delete, bulk-complete, bulk-delete, reorder and undo. From the list it derives
the filtered and sorted view, the sorted set of all tags, and two counts.

Layout, one module per concern:

- `todo_types.dfy` (`TodoTypes`): `Todo`, `Filter`, `SortKey`, and `StoredTodo`, the record as it comes back from storage before its tags are normalised.
- `text.dfy` (`Text`): the JavaScript string operations the engine uses. These are `trim` over the exact ECMAScript whitespace set, ASCII `toLowerCase`, `includes`, and the code-point order that the default `sort` uses.
- `sequences.dfy` (`Sequences`): `filter` (`Keep`), sub-sequence, `splice` (`RemoveAt`, `InsertAt`), sortedness and duplicate-freedom.
- `sorting.dfy` (`Sorting`): `Array.prototype.sort`, modelled as an in-place insertion sort on an `array` under any total preorder.
- `todo_ops.dfy` (`TodoOps`): each mutation as a pure function from the old list to the new one, plus the undo-stack push, the filter predicates, the tag union, the counts and the load normalisation. The lemmas about them live here too.
- `todo_engine.dfy` (`TodoEngine`): the class `Engine` with the hook's state as fields. Each mutation is a method. Its postcondition is one of the `TodoOps` functions, except for `Undo`, which states the popped stack directly. `AllTags` collects the tags with nested loops and then sorts them in place. `FilteredTodos` applies `Visible` and sorts the result with `SortTodos`. Two client methods show delete-then-undo and edit-then-undo.

Today's date and the generated id are parameters. `AddTodo` requires the id to
be fresh, which stands for `crypto.randomUUID`. The Japanese-locale collation
of the text sorts is a parameter `collate`, required to be a total preorder.

Three behaviours of the code worth noting:

- `totalCount` is the length of the whole list (use-todos.ts:203), not of the filtered view.
- The stack keeps only the last 20 snapshots (`slice(-19)` then push). So 21 deletions followed by 21 undos give back the list as it was after the first deletion, not the original. This follows from `TodoOps.CheckpointAllKeepsLast` and `TodoEngine.Engine.Undo`.
- A selected tag equal to the empty string filters nothing, because of JavaScript truthiness at line 177.

## Model

| member | source | states |
|---|---|---|
| `Text.Trim` | src/hooks/use-todos.ts:73 | the result is a contiguous piece of the input; only whitespace lies before and after it, and it neither starts nor ends with whitespace |
| `Text.TrimEmptyIff` | src/hooks/use-todos.ts:73-74 | the trimmed text is empty exactly when every character is whitespace |
| `Text.TrimIdempotent` | src/hooks/use-todos.ts:73 | trimming twice equals trimming once |
| `Text.TrimmedIsFixed` | src/hooks/use-todos.ts:73 | a text with no whitespace at either end is left unchanged by trimming |
| `Text.LowerChar` | src/hooks/use-todos.ts:173-178 | an ASCII capital becomes its own small letter, anything else is kept, and no capital remains |
| `Text.Lower` | src/hooks/use-todos.ts:173-178 | lower-casing keeps the length; each ASCII capital becomes its own small letter (code point plus 32) and every other character is kept |
| `Text.LowerEqualIff` | src/hooks/use-todos.ts:173-178 | two strings lower-case alike exactly when they are equal up to ASCII case |
| `Text.EqualIgnoringCaseLower` | src/hooks/use-todos.ts:173-178 | every string equals its own lower case up to case |
| `Text.ContainsLower` | src/hooks/use-todos.ts:178 | a literal occurrence of the query remains an occurrence after lower-casing text and query |
| `Text.ContainsFirst` | src/hooks/use-todos.ts:178 | a text containing a non-empty query contains the query's first character |
| `Text.ContainsIff` | src/hooks/use-todos.ts:178 | `includes` holds exactly when the query occurs at some index of the text |
| `Text.StrLeqTotal` | src/hooks/use-todos.ts:169 | any two strings are comparable in code-point order |
| `Text.StrLeqTransitive` | src/hooks/use-todos.ts:169 | code-point order is transitive |
| `Text.StrLeqAntisymmetric` | src/hooks/use-todos.ts:169 | strings that are mutually below each other are equal |
| `Sequences.Keep` | src/hooks/use-todos.ts:124-129 | `filter` keeps exactly the passing elements, each with its full multiplicity |
| `Sequences.KeepIsSubseq` | src/hooks/use-todos.ts:124-129 | a filtered list is a sub-sequence of its input, so relative order is kept |
| `Sequences.KeepAll` | src/hooks/use-todos.ts:124-129 | filtering changes nothing exactly when every element passes |
| `Sequences.KeepThree` | src/hooks/use-todos.ts:174-180 | filtering by a three-way conjunction equals filtering by each predicate in turn |
| `Sequences.RemoveAt` | src/hooks/use-todos.ts:156 | `splice(i, 1)` removes one element and shifts the later ones down by one |
| `Sequences.RemoveAtMultiset` | src/hooks/use-todos.ts:156 | `splice(i, 1)` takes exactly one copy of the removed element out of the multiset |
| `Sequences.InsertAt` | src/hooks/use-todos.ts:157 | `splice(i, 0, x)` puts `x` at index `i` and shifts the later ones up by one |
| `Sequences.InsertAtMultiset` | src/hooks/use-todos.ts:157 | `splice(i, 0, x)` adds exactly one copy of `x` to the multiset |
| `Sequences.PermutationKeepsNoDup` | src/hooks/use-todos.ts:169 | sorting a duplicate-free sequence leaves it duplicate-free |
| `Sorting.SortInPlace` | src/hooks/use-todos.ts:29-43 | after the in-place sort the array is sorted under the comparator and is a permutation of the old contents |
| `TodoOps.Added` | src/hooks/use-todos.ts:72-86 | all-whitespace text leaves the list unchanged; otherwise one item is prepended, the old list follows unchanged, and the new item has the trimmed text, is active with null `completedAt`, defaults `createdAt` to today when it is absent or empty, and defaults tags to empty |
| `TodoOps.AddedKeepsUniqueIds` | src/hooks/use-todos.ts:77 | adding with a fresh id keeps the ids unique |
| `TodoOps.AddTwiceNewestFirst` | src/__tests__/use-todos.test.ts:253-265 | two additions put the newer item at index 0 and the older at index 1, both active |
| `TodoOps.Toggled` | src/hooks/use-todos.ts:88-100 | the length is kept and items with another id are unchanged; matching items flip `completed` and get today's `completedAt` when they become completed, null when they become active; their other fields are kept |
| `TodoOps.ToggleTwice` | src/hooks/use-todos.ts:88-100 | toggling twice restores `completed`; `completedAt` becomes null for an item that started active and the second day for one that started completed |
| `TodoOps.ToggleKeepsConsistent` | src/hooks/use-todos.ts:88-100 | toggling keeps "`completedAt` present exactly on completed items"; on such a list, toggling twice restores each item's null or non-null date |
| `TodoOps.ToggleBackScenario` | src/__tests__/use-todos.test.ts:65-89 | a freshly added item toggled once is completed with today's date and no item is active; toggled again it is active with a null date and the active count is one |
| `TodoOps.WithCompletedAt` | src/hooks/use-todos.ts:102-108 | only `completedAt` of the matching items changes, whatever their status; an unknown id changes nothing |
| `TodoOps.Updated` | src/hooks/use-todos.ts:110-120 | matching items get exactly the fields present in the patch; every other field and item is unchanged; an unknown id changes nothing |
| `TodoOps.WithoutId` | src/hooks/use-todos.ts:122-125 | the result is the sub-sequence of items whose id differs, with their multiplicities; it equals the input exactly when the id is absent |
| `TodoOps.WithoutCompleted` | src/hooks/use-todos.ts:127-130 | the result is the sub-sequence of active items, in order and with their multiplicities |
| `TodoOps.CompletedAll` | src/hooks/use-todos.ts:132-139 | every item ends completed; already-completed items are unchanged, including `completedAt`; the others get today's date and keep their other fields |
| `TodoOps.CompleteAllIdempotent` | src/hooks/use-todos.ts:132-139 | a second `completeAll`, on any day, changes nothing |
| `TodoOps.Checkpoint` | src/hooks/use-todos.ts:58-64 | the pushed stack holds 1 to 20 entries, has the snapshot on top, and is the last 20 of old stack plus snapshot; below 20 nothing is lost, and a full stack loses exactly its oldest entry |
| `TodoOps.CheckpointAllKeepsLast` | src/hooks/use-todos.ts:58-64 | after any run of pushes the stack holds exactly the last 20 snapshots taken |
| `TodoOps.IndexOfId` | src/hooks/use-todos.ts:152-153 | `findIndex` returns -1 exactly when the id is absent, and otherwise the first index that carries it |
| `TodoOps.Reordered` | src/hooks/use-todos.ts:150-160 | the result is a permutation of the same length; nothing changes when either id is absent; otherwise the moved item sits at the target index and the others keep their relative order |
| `TodoOps.ReorderKeepsUniqueIds` | src/hooks/use-todos.ts:150-160 | reordering keeps the ids unique |
| `TodoOps.ReorderSameId` | src/hooks/use-todos.ts:150-160 | moving an item onto itself changes nothing |
| `TodoOps.ReorderSwapBack` | src/hooks/use-todos.ts:150-160 | on two items, reorder swaps them, and reordering back with swapped arguments restores the list |
| `TodoOps.ReorderExample` | src/__tests__/use-todos.test.ts:652-671 | [3, 2, 1] with 3 moved onto 1 gives [2, 1, 3] |
| `TodoOps.EditsKeepUniqueIds` | src/hooks/use-todos.ts:88-139 | toggle, the two patches and completeAll keep the ids unique |
| `TodoOps.DeletionsKeepUniqueIds` | src/hooks/use-todos.ts:122-130 | both deletions keep the ids unique |
| `TodoOps.SubseqKeepsUniqueIds` | src/hooks/use-todos.ts:122-130 | a sub-sequence of a list with unique ids has unique ids |
| `TodoOps.Visible` | src/hooks/use-todos.ts:172-180 | the filtered list is a sub-sequence holding exactly the items that pass the status, tag and lower-cased search tests; with no filter set it is the whole list |
| `TodoOps.VisibleIsPipeline` | src/hooks/use-todos.ts:174-180 | the single filter pass equals status, then tag, then search |
| `TodoOps.TagFilterScenario` | src/__tests__/use-todos.test.ts:308-325 | of three items tagged `x`, `y` and both, selecting `x` keeps exactly the first and the last, in list order |
| `TodoOps.SearchIgnoresCase` | src/hooks/use-todos.ts:173-178 | texts and queries equal up to ASCII case pass or fail the search together |
| `TodoOps.SearchFindsLiteral` | src/hooks/use-todos.ts:173-178 | an item whose text contains the query as typed is found, whatever the case of either |
| `TodoOps.SearchQueryCase` | src/hooks/use-todos.ts:172-180 | queries equal up to case give the same filtered list |
| `TodoOps.SearchScenario` | src/__tests__/use-todos.test.ts:586-600 | the query "hello" keeps "Hello World" and drops "Goodbye" |
| `TodoOps.InOrderIsTotalPreorder` | src/hooks/use-todos.ts:27-45 | each sort key's comparator is a total preorder, given one for the text collation |
| `TodoOps.StrLeqIsTotalPreorder` | src/hooks/use-todos.ts:169 | the default string order of `sort` is a total preorder |
| `TodoOps.TagUnionIff` | src/hooks/use-todos.ts:162-168 | a tag is in the accumulated union exactly when some item carries it |
| `TodoOps.ActivePlusCompleted` | src/hooks/use-todos.ts:185 | the active count plus the completed count is the list length |
| `TodoOps.CountsAfterBulkOperations` | src/hooks/use-todos.ts:127-139 | after `completeAll` no item is active; after `deleteCompleted` every item is active |
| `TodoOps.Normalised` | src/hooks/use-todos.ts:18-21 | every stored field is kept; tags are kept when stored as an array and become empty otherwise |
| `TodoOps.LoadTodos` | src/hooks/use-todos.ts:12-25 | a missing or unreadable slot loads as the empty list |
| `TodoOps.LoadStored` | src/hooks/use-todos.ts:12-25 | loading the records the save effect writes gives back the same list |
| `TodoEngine.SortTodos` | src/hooks/use-todos.ts:27-45 | the result is a permutation sorted under the key's comparator; manual order returns the list itself |
| `TodoEngine.Engine.constructor` | src/hooks/use-todos.ts:48-57 | the list is what loading gives; the stack is empty with `canUndo` false; the view is unfiltered, untagged, unsearched and manual |
| `TodoEngine.Engine.PushUndo` | src/hooks/use-todos.ts:58-64 | the current list is checkpointed onto the stack and `canUndo` becomes true |
| `TodoEngine.Engine.AddTodo` | src/hooks/use-todos.ts:72-86 | the list becomes `Added` of the old list; nothing else changes |
| `TodoEngine.Engine.ToggleTodo` | src/hooks/use-todos.ts:88-100 | the list becomes `Toggled` of the old list; the undo stack is not touched |
| `TodoEngine.Engine.UpdateCompletedAt` | src/hooks/use-todos.ts:102-108 | the list becomes `WithCompletedAt` of the old list; the undo stack is not touched |
| `TodoEngine.Engine.UpdateTodo` | src/hooks/use-todos.ts:110-120 | the old list is checkpointed, then patched |
| `TodoEngine.Engine.DeleteTodo` | src/hooks/use-todos.ts:122-125 | the old list is checkpointed, then the id is deleted |
| `TodoEngine.Engine.DeleteCompleted` | src/hooks/use-todos.ts:127-130 | the old list is checkpointed, then the completed items are deleted |
| `TodoEngine.Engine.CompleteAll` | src/hooks/use-todos.ts:132-139 | the old list is checkpointed, then every active item is completed |
| `TodoEngine.Engine.Undo` | src/hooks/use-todos.ts:141-148 | on an empty stack nothing changes; otherwise the top snapshot becomes the list and is popped, and `canUndo` says whether snapshots remain |
| `TodoEngine.Engine.ReorderTodos` | src/hooks/use-todos.ts:150-160 | the list becomes `Reordered` of the old list; the undo stack is not touched |
| `TodoEngine.Engine.SetFilter` | src/hooks/use-todos.ts:49 | only the status filter changes |
| `TodoEngine.Engine.SetSelectedTag` | src/hooks/use-todos.ts:50 | only the selected tag changes |
| `TodoEngine.Engine.SetSearchQuery` | src/hooks/use-todos.ts:51 | only the search query changes |
| `TodoEngine.Engine.SetSortKey` | src/hooks/use-todos.ts:52 | only the sort key changes |
| `TodoEngine.Engine.AllTags` | src/hooks/use-todos.ts:162-170 | the result is duplicate-free, sorted in code-point order, and holds exactly the tags that some item carries |
| `TodoEngine.Engine.FilteredTodos` | src/hooks/use-todos.ts:172-183 | the result is a permutation of the filtered sub-sequence and holds exactly the passing items; under manual order it is that sub-sequence; under every key it is sorted by that key |
| `TodoEngine.Engine.ActiveCount` | src/hooks/use-todos.ts:185 | the number of active items of the whole list; with the completed items it makes up the list |
| `TodoEngine.Engine.TotalCount` | src/hooks/use-todos.ts:203 | the length of the whole list, which no filtered view exceeds |
| `TodoEngine.DeleteThenUndo` | src/__tests__/use-todos.test.ts:484-505 | delete then undo gives back the exact list; the stack is as it was, or loses its oldest snapshot when it was full; `canUndo` says whether snapshots remain; the view settings are untouched |
| `TodoEngine.UpdateThenUndo` | src/__tests__/use-todos.test.ts:507-527 | edit then undo gives back the exact list; the stack is as it was, or loses its oldest snapshot when it was full; `canUndo` says whether snapshots remain; the view settings are untouched |

## Left out

- React mechanics are left out: state hooks, memoisation, refs and effect timing. Each operation is one atomic step; where it checkpoints, the snapshot is pushed before the list changes.
- Storage I/O is left out: `localStorage` reads and writes, JSON parsing and serialisation, and the server-side-rendering guard. Reading becomes an optional list of already-parsed records. `None` stands for an empty slot, a parse failure, content that is not an array, or an array with a `null` element (reading its `tags` throws inside the `try`). `Stored` gives the shape of what the save effect writes.
- `crypto.randomUUID` and `new Date().toISOString()` are left out. The id and today's date are parameters.
- `TodoEngine.SortTodos`: the `localeCompare(…, "ja")` collation of the text sorts is not modelled. It is replaced by the `collate` parameter, which is only required to be a total preorder.
- `TodoEngine.SortTodos`: the `createdAt` sorts use code-point order rather than `localeCompare`. For fixed-width `YYYY-MM-DD` dates the two agree.
- `TodoEngine.SortTodos`: the sort is not stated to be stable, even though `Array.prototype.sort` is. The contract says sorted and a permutation only.
- `Sorting.SortInPlace`: the contract does not state stability either. Elements that compare equal are not promised to keep their input order, although `Array.prototype.sort` keeps it (use-todos.ts:32-41). Only sortedness and the permutation are proved.
- `TodoEngine.Engine.FilteredTodos`: for the same reason, the order of items with equal keys is not stated. Under the `createdAt` sorts, items added on the same day keep their list order in the source; the model does not promise this.
- `TodoEngine.Engine.AllTags`: strings are sequences of Unicode scalar values. The default `sort` compares UTF-16 code units. The two orders differ only for characters outside the Basic Multilingual Plane.
- `Text.Lower`: only ASCII letters are lower-cased. Unicode case mapping is foreign library semantics.
- `TodoOps.Updated`: a patch whose field is present but explicitly `undefined` is not modelled. In JavaScript such a field would overwrite the item's field with `undefined`. The patch type here has each field either present with a value or absent.
- Unique ids are not an invariant of `TodoEngine.Valid`, because loaded data is not checked for them. Instead, lemmas show that every mutation keeps unique ids unique.
- The remote API client and the route handlers are not called by this hook and are not modelled: `src/lib/api.ts`, `src/app/api/todos/*`, `src/lib/mongodb.ts`, `src/models/todo.ts`. The same goes for the UI components, including the float-based progress percentage, and the test setup.
- The `loaded` flag is always true in the hook, so it is not modelled.
