# Todos: a Dafny model of the list/todo domain

The application is a Sinatra app that keeps a user's todo lists in the
session. A session holds an ordered sequence of lists. Each list has a name
and an ordered sequence of todos. Each todo has a name and a `completed` flag.
Routes address lists and todos by position.

This project models the domain logic of `todos.rb` as pure Dafny functions over
immutable datatypes:

- `Domain`: the `Todo` and `TodoList` datatypes and Ruby's `nil` as `Option`.
- `Text`: `String#strip`, which every route applies to submitted names.
- `Status`: the view helpers `todos_count`, `todos_remaining_count`,
  `list_complete?` and `list_class`.
- `Ordering`: `sort_lists` and `sort_todos`. Both are one stable partition:
  incomplete elements first, then complete ones.
- `Validation`: `error_for_list_name` and `error_for_todo`, with their messages.
- `ArrayOps`: `Array#delete_at`, used by both delete routes.
- `Routes`: the collection edit inside each POST route. Each is a function
  from the session's lists before the request to the lists after it. A route
  that validates returns an `Outcome`: the new lists and the error it would
  flash. On an error the lists come back unchanged.
- `Invariants`: a valid session has stripped, unique list names of length
  1..100, and todos whose stripped text is 1..100 long. Every route preserves
  a valid session.
- `Scenarios`: worked examples, proved about the routes and helpers on small
  concrete sessions.

In three places the code does something a tidier design would not. The
model follows the code:

- Renaming checks the new name against every list, the renamed one
  included. So a list cannot be renamed to its own name.
- No route reports "not found". A list index past the end makes
  `session[:lists][id]` `nil`. Routes that then use that `nil` fail on it, so
  there the index is a precondition. Rename and add-todo report an invalid
  name for any index, because their error path never reads the list.
  `delete_at` with an index past the end is a no-op, and the delete routes
  model it that way.
- Adding a todo validates the stripped text but stores the parameter
  unstripped.

## Model

| member | source | states |
|---|---|---|
| Text.Strip | todos.rb:73 | the result has no leading or trailing whitespace, is an infix of the input, and everything around it is whitespace |
| Text.StripIdempotent | todos.rb:101 | stripping an already stripped name changes nothing |
| Status.CountIncomplete | todos.rb:21 | the count of todos with `completed == false` is at most the length; it is 0 iff all are completed, and the full length iff none is |
| Status.CountIncompleteUpdate | todos.rb:21 | replacing one todo changes the count by exactly the difference of the old and new todo's contributions |
| Status.TodosCount | todos.rb:24-26 | the total count is never below the remaining count and is 0 exactly for a list without todos |
| Status.TodosRemainingCount | todos.rb:20-22 | the remaining count is at most the total, and 0 iff every todo is completed |
| Status.IsListComplete | todos.rb:12-14 | a list is complete iff it has at least one todo and every todo is completed; an empty list is never complete |
| Status.ListClass | todos.rb:16-18 | the class is `"complete"` exactly for complete lists and `nil` otherwise |
| Ordering.Select | todos.rb:29 | each half of `partition` holds only elements on its side of the predicate and is no longer than the input |
| Ordering.StablePartition | todos.rb:28-40 | the result is a permutation of the input; every failing element precedes every satisfying one; each group keeps its original order |
| Ordering.StablePartitionUnique | todos.rb:28-40 | any sequence ordered that way and keeping both groups' order is exactly the stable partition |
| Ordering.SortLists | todos.rb:28-33 | the lists are permuted so that incomplete lists come before complete ones, with the order within each group kept |
| Ordering.SortTodos | todos.rb:35-40 | the todos are permuted so that open todos come before completed ones, with the order within each group kept |
| Ordering.RemainingCountIsOpenTodos | todos.rb:20-22 | the remaining count equals the number of open todos that `sort_todos` shows first |
| Validation.NameTaken | todos.rb:67 | true iff some list in the session has exactly this name |
| Validation.ErrorForListName | todos.rb:64-70 | length error iff the size is outside 1..100; otherwise a uniqueness error iff some list has exactly that name; otherwise no error |
| Validation.ErrorForTodo | todos.rb:123-127 | length error iff the size is outside 1..100, otherwise no error |
| Validation.Message | todos.rb:64-70 | the list-name and todo length messages (todos.rb:66, 125) both end with the range text "between 1 and 100 characters."; the uniqueness message (todos.rb:68) does not |
| Validation.MessagesDistinct | todos.rb:123-127 | the three flash messages of the two validators are pairwise different |
| Validation.LengthRuleShared | todos.rb:123-127 | the todo validator and the list-name validator reject on length for exactly the same names, whatever lists exist |
| ArrayOps.DeleteAt | todos.rb:118 | an in-range index removes exactly that element and shifts later ones down by one; an index past the end changes nothing |
| ArrayOps.DeleteAtInverse | todos.rb:118 | inserting the removed element back at its index restores the original sequence |
| ArrayOps.DeleteAtMultiset | todos.rb:118 | deleting removes exactly one occurrence of the deleted element and nothing else |
| Routes.CreateList | todos.rb:72-84 | succeeds iff the stripped name is 1..100 long and used by no list; then exactly one empty list with the stripped name is appended and earlier lists are unchanged; on an error nothing changes |
| Routes.RenameList | todos.rb:100-114 | reports the list-name validator's error for the stripped name; on success only the name at the index changes, its todos and all other lists are untouched; on an error nothing changes, whatever the index |
| Routes.RenameToOwnNameRejected | todos.rb:100-114 | renaming a list to its current name (up to surrounding whitespace) is rejected and changes nothing |
| Routes.DeleteList | todos.rb:116-121 | an in-range index removes exactly that list with later lists shifted down; an index past the end changes nothing |
| Routes.AddTodo | todos.rb:129-143 | fails iff the stripped text is not 1..100 long, changing nothing whatever the index; on success exactly one open todo with the unstripped text is appended to the target list and nothing else changes |
| Routes.AddTodoRemaining | todos.rb:129-143 | after a successful add the target list has one more remaining todo and is not complete |
| Scenarios.AddTodoKeepsWhitespace | todos.rb:132-139 | text `" milk "` passes validation and is stored with its surrounding spaces |
| Routes.DeleteTodo | todos.rb:145-153 | an in-range todo index removes exactly that todo with later todos shifted down; the list's name and all other lists are unchanged; an index past the end changes nothing |
| Routes.SetTodoCompleted | todos.rb:156-166 | only the flag of the addressed todo changes, to the given value; names, count, order and all other lists are untouched |
| Routes.SetTodoCompletedUndo | todos.rb:156-166 | setting the flag back to its previous value restores the session |
| Routes.SetTodoCompletedRemaining | todos.rb:156-166 | checking an open todo lowers the remaining count by one, unchecking raises it by one, and re-setting the same value keeps it |
| Routes.CompleteTodos | todos.rb:173-175 | every todo comes out completed with its name, and the count and order are kept |
| Routes.CompleteAll | todos.rb:169-179 | every todo of the addressed list is completed; names, count, order and all other lists are unchanged |
| Routes.CompleteAllCompletes | todos.rb:169-179 | afterwards the list has no remaining todos, and it is complete iff it has at least one todo |
| Routes.CompleteAllIdempotent | todos.rb:169-179 | completing all twice gives the same session as once |
| Invariants.EmptySessionValid | todos.rb:47-49 | the initial empty session is valid |
| Invariants.CreateListPreserves | todos.rb:72-84 | creating a list keeps a valid session valid, names included |
| Invariants.RenameListPreserves | todos.rb:100-114 | renaming keeps a valid session valid, for any index on the error path: the new name matched no list |
| Invariants.DeleteListPreserves | todos.rb:116-121 | deleting a list keeps a valid session valid |
| Invariants.AddTodoPreserves | todos.rb:129-143 | adding a todo keeps a valid session valid, for any index on the error path, although the text is stored unstripped |
| Invariants.DeleteTodoPreserves | todos.rb:145-153 | deleting a todo keeps a valid session valid |
| Invariants.SetTodoCompletedPreserves | todos.rb:156-166 | updating a flag keeps a valid session valid |
| Invariants.CompleteAllPreserves | todos.rb:169-179 | completing all keeps a valid session valid |
| Scenarios.SortListsExample | todos.rb:28-33 | lists `[complete, empty, open, complete]` are shown as `[empty, open, complete, complete]` |
| Scenarios.UniquenessIsCaseSensitive | todos.rb:67 | `"Groceries"` clashes with an existing `"Groceries"`, `"groceries"` does not |
| Scenarios.DeleteFirstList | todos.rb:118 | deleting index 0 of two lists leaves the second at index 0 |
| Scenarios.CreateChores | todos.rb:72-84 | creating `"Chores"` in an empty session yields exactly one empty list |
| Scenarios.AddMilk | todos.rb:129-143 | adding `"Buy milk"` appends one open todo |
| Scenarios.CompleteChores | todos.rb:169-179 | completing all then makes that list complete |

## Left out

- Routing, redirects, the `configure` and `before` blocks, ERB rendering and
  the `session[:success]`/`session[:error]` flash are not modelled. The
  validators return a `ValidationError`, and `Validation.Message` gives its
  text. The view an error path renders is not modelled either.
- Parameter decoding is not modelled: `params[...].to_i` becomes a `nat` index
  and `params[:completed] == "true"` becomes a `bool`. Negative indices, which
  Ruby counts from the end, cannot be expressed.
- A list index past the end is a precondition where the Ruby code then uses
  `nil`: the success paths of rename (`nil[:name] =`) and add-todo
  (`nil[:todos]`), and delete-todo, the checkbox route and complete-all. A
  todo index past the end is a precondition of the checkbox route, which
  fails on `nil[:completed]`.
- `search_index` (todos.rb:42-44) is a one-line wrapper over `Array#index`
  that no modelled route uses.
- `sort_lists` and `sort_todos` yield to a block. Here they return the
  ordered sequence. The datatypes are values, so the input is never altered.
- `strip` removes NUL, tab, line feed, vertical tab, form feed, carriage
  return and space. String encodings are not modelled, and `name.size` is the
  number of characters of a `seq<char>`.
- `todo.rb` is an earlier prototype made only of routes. It has no logic of
  its own.
