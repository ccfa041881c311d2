/**
 The shape the routes keep the session in: list names are stripped, of valid
 length and pairwise distinct, and every todo's text is of valid length once
 stripped. Each route that can run on a session of this shape leaves one.
 */
module Invariants {
  import opened Domain
  import opened Text
  import opened Validation
  import opened Routes
  import ArrayOps

  predicate ValidTodo(todo: Todo) {
    HasValidLength(Strip(todo.name))
  }

  predicate ValidList(list: TodoList) {
    && HasValidLength(list.name)
    && IsStripped(list.name)
    && forall k :: 0 <= k < |list.todos| ==> ValidTodo(list.todos[k])
  }

  predicate UniqueNames(lists: seq<TodoList>) {
    forall i, j :: 0 <= i < |lists| && 0 <= j < |lists| && i != j ==> lists[i].name != lists[j].name
  }

  predicate ValidSession(lists: seq<TodoList>) {
    && UniqueNames(lists)
    && forall i :: 0 <= i < |lists| ==> ValidList(lists[i])
  }

  /** The session starts as `[]`, which is valid. */
  lemma EmptySessionValid()
    ensures ValidSession([])
  {
  }

  lemma CreateListPreserves(lists: seq<TodoList>, listName: string)
    requires ValidSession(lists)
    ensures ValidSession(CreateList(lists, listName).lists)
  {
    var out := CreateList(lists, listName);
    if out.error.None? {
      var n := |lists|;
      assert IsStripped(out.lists[n].name);
      forall i, j | 0 <= i < |out.lists| && 0 <= j < |out.lists| && i != j
        ensures out.lists[i].name != out.lists[j].name
      {
        if i < n && j < n {
          assert out.lists[i] == lists[i] && out.lists[j] == lists[j];
        } else if i < n {
          assert out.lists[i] == lists[i];
        } else {
          assert out.lists[j] == lists[j];
        }
      }
      forall i | 0 <= i < |out.lists|
        ensures ValidList(out.lists[i])
      {
        if i < n {
          assert out.lists[i] == lists[i];
        }
      }
    }
  }

  /** A successful rename keeps names unique because the new name matched
      no list at all, the renamed one included. */
  lemma RenameListPreserves(lists: seq<TodoList>, id: nat, listName: string)
    requires ValidSession(lists)
    requires id < |lists| || ErrorForListName(lists, Strip(listName)).Some?
    ensures ValidSession(RenameList(lists, id, listName).lists)
  {
    var out := RenameList(lists, id, listName);
    if out.error.None? {
      forall i, j | 0 <= i < |out.lists| && 0 <= j < |out.lists| && i != j
        ensures out.lists[i].name != out.lists[j].name
      {
        if i != id && j != id {
          assert out.lists[i] == lists[i] && out.lists[j] == lists[j];
        } else if i != id {
          assert out.lists[i] == lists[i];
        } else {
          assert out.lists[j] == lists[j];
        }
      }
      forall i | 0 <= i < |out.lists|
        ensures ValidList(out.lists[i])
      {
        if i != id {
          assert out.lists[i] == lists[i];
        } else {
          assert out.lists[i].todos == lists[id].todos;
        }
      }
    }
  }

  lemma DeleteListPreserves(lists: seq<TodoList>, id: nat)
    requires ValidSession(lists)
    ensures ValidSession(DeleteList(lists, id))
  {
    var r := DeleteList(lists, id);
    if id < |lists| {
      assert forall i :: 0 <= i < |r| ==> r[i] == lists[if i < id then i else i + 1];
    }
  }

  /** Replacing one list by a valid list of the same name keeps a valid
      session valid: the shape of every todo-level route. */
  lemma ReplaceListPreserves(lists: seq<TodoList>, listId: nat, list: TodoList)
    requires ValidSession(lists) && listId < |lists|
    requires ValidList(list) && list.name == lists[listId].name
    ensures ValidSession(lists[listId := list])
  {
    var r := lists[listId := list];
    forall i | 0 <= i < |r|
      ensures ValidList(r[i])
    {
      if i != listId {
        assert r[i] == lists[i];
      }
    }
    forall i, j | 0 <= i < |r| && 0 <= j < |r| && i != j
      ensures r[i].name != r[j].name
    {
      assert r[i].name == lists[i].name && r[j].name == lists[j].name;
    }
  }

  /** A successful add stores text that is valid once stripped, although
      it is not stored stripped. */
  lemma AddTodoPreserves(lists: seq<TodoList>, listId: nat, todo: string)
    requires ValidSession(lists)
    requires listId < |lists| || ErrorForTodo(Strip(todo)).Some?
    ensures ValidSession(AddTodo(lists, listId, todo).lists)
  {
    var out := AddTodo(lists, listId, todo);
    if out.error.None? {
      var list := lists[listId];
      var updated := list.(todos := list.todos + [Todo(todo, false)]);
      forall k | 0 <= k < |updated.todos|
        ensures ValidTodo(updated.todos[k])
      {
        if k < |list.todos| {
          assert updated.todos[k] == list.todos[k];
        }
      }
      ReplaceListPreserves(lists, listId, updated);
      assert out.lists == lists[listId := updated];
    }
  }

  lemma DeleteTodoPreserves(lists: seq<TodoList>, listId: nat, todoId: nat)
    requires ValidSession(lists) && listId < |lists|
    ensures ValidSession(DeleteTodo(lists, listId, todoId))
  {
    var list := lists[listId];
    if todoId < |list.todos| {
      var updated := list.(todos := ArrayOps.DeleteAt(list.todos, todoId));
      forall k | 0 <= k < |updated.todos|
        ensures ValidTodo(updated.todos[k])
      {
        assert updated.todos[k] == list.todos[if k < todoId then k else k + 1];
      }
      ReplaceListPreserves(lists, listId, updated);
    }
  }

  lemma SetTodoCompletedPreserves(lists: seq<TodoList>, listId: nat, todoId: nat, completed: bool)
    requires ValidSession(lists) && listId < |lists| && todoId < |lists[listId].todos|
    ensures ValidSession(SetTodoCompleted(lists, listId, todoId, completed))
  {
    var list := lists[listId];
    var updated := SetTodoCompleted(lists, listId, todoId, completed)[listId];
    forall k | 0 <= k < |updated.todos|
      ensures ValidTodo(updated.todos[k])
    {
      assert updated.todos[k].name == list.todos[k].name;
      assert ValidTodo(list.todos[k]);
    }
    ReplaceListPreserves(lists, listId, updated);
    assert SetTodoCompleted(lists, listId, todoId, completed) == lists[listId := updated];
  }

  lemma CompleteAllPreserves(lists: seq<TodoList>, listId: nat)
    requires ValidSession(lists) && listId < |lists|
    ensures ValidSession(CompleteAll(lists, listId))
  {
    var list := lists[listId];
    var updated := CompleteAll(lists, listId)[listId];
    forall k | 0 <= k < |updated.todos|
      ensures ValidTodo(updated.todos[k])
    {
      assert updated.todos[k].name == list.todos[k].name;
      assert ValidTodo(list.todos[k]);
    }
    ReplaceListPreserves(lists, listId, updated);
    assert CompleteAll(lists, listId) == lists[listId := updated];
  }
}
