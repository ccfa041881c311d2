/**
 The collection edits performed by the POST routes, each as a pure function
 from the session's lists before the request to the lists after it. Routing,
 redirects, rendering and flash messages are not part of this model; a route
 that validates reports the validation error it would flash.

 A list index past the end makes `session[:lists][id]` `nil`. The routes
 that then touch that `nil` fail on it, so for them the index is in range by
 precondition: the success paths of rename and add-todo, and delete-todo,
 the checkbox route and complete-all. The error paths of rename and add-todo
 only set the flash and render a view, which is not modelled; they are
 allowed any index and leave the lists unchanged. Create-list takes no index
 and delete-list uses `delete_at`, which ignores an index past the end.
 */
module Routes {
  import opened Domain
  import opened Text
  import opened Validation
  import opened ArrayOps
  import Status

  /** The lists after a validating route, with the error it reported, if any. */
  datatype Outcome = Outcome(lists: seq<TodoList>, error: Option<ValidationError>)

  /** `post "/lists"`: strips the name, validates it and on success appends
      a new empty list; on an error the lists are left as they were. */
  function CreateList(lists: seq<TodoList>, listName: string): (out: Outcome)
    ensures out.error == ErrorForListName(lists, Strip(listName))
    ensures out.error.None? <==>
              1 <= |Strip(listName)| <= 100 && forall i :: 0 <= i < |lists| ==> lists[i].name != Strip(listName)
    ensures out.error.Some? ==> out.lists == lists
    ensures out.error.None? ==> |out.lists| == |lists| + 1
    ensures out.error.None? ==> out.lists[..|lists|] == lists
    ensures out.error.None? ==> out.lists[|lists|] == TodoList(Strip(listName), [])
  {
    var name := Strip(listName);
    match ErrorForListName(lists, name)
    case Some(e) => Outcome(lists, Some(e))
    case None => Outcome(lists + [TodoList(name, [])], None)
  }

  /** `post "/lists/:id"`: strips the new name, validates it against every
      list, the renamed one included, and on success replaces only the name
      of list `id`. An invalid name is reported for any `id`, since that
      path never reads the list. */
  function RenameList(lists: seq<TodoList>, id: nat, listName: string): (out: Outcome)
    requires id < |lists| || ErrorForListName(lists, Strip(listName)).Some?
    ensures out.error == ErrorForListName(lists, Strip(listName))
    ensures out.error.Some? ==> out.lists == lists
    ensures out.error.None? ==> |out.lists| == |lists|
    ensures out.error.None? ==> out.lists[id].name == Strip(listName)
    ensures out.error.None? ==> out.lists[id].todos == lists[id].todos
    ensures out.error.None? ==> forall j :: 0 <= j < |lists| && j != id ==> out.lists[j] == lists[j]
  {
    var name := Strip(listName);
    match ErrorForListName(lists, name)
    case Some(e) => Outcome(lists, Some(e))
    case None => Outcome(lists[id := lists[id].(name := name)], None)
  }

  /** Renaming a list to its own current name, give or take surrounding
      whitespace, is rejected and changes nothing: the uniqueness check
      finds the list itself. */
  lemma RenameToOwnNameRejected(lists: seq<TodoList>, id: nat, listName: string)
    requires id < |lists|
    requires Strip(listName) == lists[id].name
    ensures RenameList(lists, id, listName).lists == lists
    ensures 1 <= |lists[id].name| <= 100 ==> RenameList(lists, id, listName).error == Some(ListNameNotUnique)
    ensures !(1 <= |lists[id].name| <= 100) ==> RenameList(lists, id, listName).error == Some(ListNameLength)
  {
  }

  /** `post "/lists/:id/destroy"`: `session[:lists].delete_at(id)`. */
  function DeleteList(lists: seq<TodoList>, id: nat): (r: seq<TodoList>)
    ensures id >= |lists| ==> r == lists
    ensures id < |lists| ==> |r| == |lists| - 1
    ensures id < |lists| ==> forall j :: 0 <= j < id ==> r[j] == lists[j]
    ensures id < |lists| ==> forall j :: id <= j < |r| ==> r[j] == lists[j + 1]
    ensures id < |lists| ==> multiset(r) == multiset(lists) - multiset{lists[id]}
  {
    if id < |lists| then DeleteAtMultiset(lists, id); DeleteAt(lists, id)
    else DeleteAt(lists, id)
  }

  /** `post "/lists/:list_id/todos"`: validates the stripped text but, on
      success, appends a todo carrying the text exactly as submitted. Invalid
      text is reported for any `listId`, since that path never reads the list. */
  function AddTodo(lists: seq<TodoList>, listId: nat, todo: string): (out: Outcome)
    requires listId < |lists| || ErrorForTodo(Strip(todo)).Some?
    ensures out.error.Some? <==> !(1 <= |Strip(todo)| <= 100)
    ensures out.error.Some? ==> out.error == Some(TodoLength) && out.lists == lists
    ensures out.error.None? ==> |out.lists| == |lists|
    ensures out.error.None? ==> out.lists[listId].name == lists[listId].name
    ensures out.error.None? ==> out.lists[listId].todos == lists[listId].todos + [Todo(todo, false)]
    ensures out.error.None? ==> forall j :: 0 <= j < |lists| && j != listId ==> out.lists[j] == lists[j]
  {
    var text := Strip(todo);
    match ErrorForTodo(text)
    case Some(e) => Outcome(lists, Some(e))
    case None =>
      var list := lists[listId];
      Outcome(lists[listId := list.(todos := list.todos + [Todo(todo, false)])], None)
  }

  /** A todo that was added leaves one more remaining and the list incomplete. */
  lemma AddTodoRemaining(lists: seq<TodoList>, listId: nat, todo: string)
    requires listId < |lists|
    requires 1 <= |Strip(todo)| <= 100
    ensures var after := AddTodo(lists, listId, todo).lists[listId];
            && Status.TodosRemainingCount(after) == Status.TodosRemainingCount(lists[listId]) + 1
            && !Status.IsListComplete(after)
  {
    var todos := lists[listId].todos;
    Status.CountIncompleteAppend(todos, [Todo(todo, false)]);
    assert Status.CountIncomplete([Todo(todo, false)]) == 1;
  }

  /** `post "/lists/:list_id/todos/:id/destroy"`: `delete_at(todo_id)` on
      the todos of one list; an index past its end changes nothing. */
  function DeleteTodo(lists: seq<TodoList>, listId: nat, todoId: nat): (r: seq<TodoList>)
    requires listId < |lists|
    ensures |r| == |lists|
    ensures forall j :: 0 <= j < |lists| && j != listId ==> r[j] == lists[j]
    ensures r[listId].name == lists[listId].name
    ensures todoId >= |lists[listId].todos| ==> r == lists
    ensures todoId < |lists[listId].todos| ==>
              var before, after := lists[listId].todos, r[listId].todos;
              && |after| == |before| - 1
              && (forall k :: 0 <= k < todoId ==> after[k] == before[k])
              && (forall k :: todoId <= k < |after| ==> after[k] == before[k + 1])
  {
    var list := lists[listId];
    if todoId < |list.todos| then lists[listId := list.(todos := DeleteAt(list.todos, todoId))]
    else lists
  }

  /** `post "/lists/:list_id/todos/:id"`: sets the completed flag of one
      todo, which must exist. */
  function SetTodoCompleted(lists: seq<TodoList>, listId: nat, todoId: nat, completed: bool): (r: seq<TodoList>)
    requires listId < |lists| && todoId < |lists[listId].todos|
    ensures |r| == |lists|
    ensures forall j :: 0 <= j < |lists| && j != listId ==> r[j] == lists[j]
    ensures r[listId].name == lists[listId].name
    ensures |r[listId].todos| == |lists[listId].todos|
    ensures r[listId].todos[todoId] == Todo(lists[listId].todos[todoId].name, completed)
    ensures forall k :: 0 <= k < |r[listId].todos| && k != todoId ==> r[listId].todos[k] == lists[listId].todos[k]
  {
    var list := lists[listId];
    var todo := list.todos[todoId];
    lists[listId := list.(todos := list.todos[todoId := todo.(completed := completed)])]
  }

  /** Setting the flag back to its previous value undoes the update. */
  lemma SetTodoCompletedUndo(lists: seq<TodoList>, listId: nat, todoId: nat, completed: bool)
    requires listId < |lists| && todoId < |lists[listId].todos|
    ensures var old_flag := lists[listId].todos[todoId].completed;
            SetTodoCompleted(SetTodoCompleted(lists, listId, todoId, completed), listId, todoId, old_flag) == lists
  {
    var r := SetTodoCompleted(SetTodoCompleted(lists, listId, todoId, completed), listId, todoId,
                              lists[listId].todos[todoId].completed);
    assert r[listId].todos == lists[listId].todos;
  }

  /** Checking an unchecked todo leaves one fewer remaining; unchecking a
      checked one leaves one more. */
  lemma SetTodoCompletedRemaining(lists: seq<TodoList>, listId: nat, todoId: nat, completed: bool)
    requires listId < |lists| && todoId < |lists[listId].todos|
    ensures var before := Status.TodosRemainingCount(lists[listId]);
            var after := Status.TodosRemainingCount(SetTodoCompleted(lists, listId, todoId, completed)[listId]);
            var was := lists[listId].todos[todoId].completed;
            && (was == completed ==> after == before)
            && (!was && completed ==> after == before - 1)
            && (was && !completed ==> after == before + 1)
  {
    var todos := lists[listId].todos;
    Status.CountIncompleteUpdate(todos, todoId, todos[todoId].(completed := completed));
    assert SetTodoCompleted(lists, listId, todoId, completed)[listId].todos
        == todos[todoId := todos[todoId].(completed := completed)];
  }

  /** The todos with every flag set: the loop `todo[:completed] = true`. */
  function CompleteTodos(todos: seq<Todo>): (r: seq<Todo>)
    ensures |r| == |todos|
    ensures forall k :: 0 <= k < |r| ==> r[k] == Todo(todos[k].name, true)
  {
    if todos == [] then [] else [todos[0].(completed := true)] + CompleteTodos(todos[1..])
  }

  /** `post "/lists/:id/complete_all"`: marks every todo of one list
      completed, keeping names, count and order. */
  function CompleteAll(lists: seq<TodoList>, listId: nat): (r: seq<TodoList>)
    requires listId < |lists|
    ensures |r| == |lists|
    ensures forall j :: 0 <= j < |lists| && j != listId ==> r[j] == lists[j]
    ensures r[listId].name == lists[listId].name
    ensures |r[listId].todos| == |lists[listId].todos|
    ensures forall k :: 0 <= k < |r[listId].todos| ==>
              r[listId].todos[k].name == lists[listId].todos[k].name && r[listId].todos[k].completed
  {
    var list := lists[listId];
    lists[listId := list.(todos := CompleteTodos(list.todos))]
  }

  /** After completing all, the list is complete exactly when it has a todo. */
  lemma CompleteAllCompletes(lists: seq<TodoList>, listId: nat)
    requires listId < |lists|
    ensures Status.IsListComplete(CompleteAll(lists, listId)[listId]) <==> |lists[listId].todos| > 0
    ensures Status.TodosRemainingCount(CompleteAll(lists, listId)[listId]) == 0
  {
  }

  /** Completing all twice is the same as once. */
  lemma CompleteAllIdempotent(lists: seq<TodoList>, listId: nat)
    requires listId < |lists|
    ensures CompleteAll(CompleteAll(lists, listId), listId) == CompleteAll(lists, listId)
  {
    var once := CompleteAll(lists, listId);
    assert CompleteAll(once, listId)[listId].todos == once[listId].todos;
  }
}
