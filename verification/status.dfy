/**
 The derived status of a list shown on the index and list pages:
 `todos_count`, `todos_remaining_count`, `list_complete?` and `list_class`.
 */
module Status {
  import opened Domain

  /** Number of todos whose `completed` flag is false. */
  function CountIncomplete(todos: seq<Todo>): (n: nat)
    ensures n <= |todos|
    ensures n == 0 <==> forall i :: 0 <= i < |todos| ==> todos[i].completed
    ensures n == |todos| <==> forall i :: 0 <= i < |todos| ==> !todos[i].completed
  {
    if todos == [] then 0
    else (if todos[0].completed == false then 1 else 0) + CountIncomplete(todos[1..])
  }

  /** Counting over a concatenation adds up. */
  lemma {:induction false} CountIncompleteAppend(a: seq<Todo>, b: seq<Todo>)
    ensures CountIncomplete(a + b) == CountIncomplete(a) + CountIncomplete(b)
  {
    if a == [] {
      assert a + b == b;
    } else {
      assert (a + b)[1..] == a[1..] + b;
      CountIncompleteAppend(a[1..], b);
    }
  }

  /** Replacing one todo changes the count only by that todo's contribution. */
  lemma {:induction false} CountIncompleteUpdate(todos: seq<Todo>, k: nat, t: Todo)
    requires k < |todos|
    ensures CountIncomplete(todos[k := t])
         == CountIncomplete(todos) - (if todos[k].completed then 0 else 1) + (if t.completed then 0 else 1)
  {
    if k == 0 {
      assert todos[k := t][1..] == todos[1..];
    } else {
      assert todos[k := t][1..] == todos[1..][k - 1 := t];
      CountIncompleteUpdate(todos[1..], k - 1, t);
    }
  }

  /** `todos_count(list)`: the total number of todos; never below the
      number remaining. */
  function TodosCount(list: TodoList): (n: nat)
    ensures TodosRemainingCount(list) <= n
    ensures n == 0 <==> list.todos == []
  {
    |list.todos|
  }

  /** `todos_remaining_count(list)`: how many todos are not completed. */
  function TodosRemainingCount(list: TodoList): (n: nat)
    ensures n <= |list.todos|
    ensures n == 0 <==> forall i :: 0 <= i < |list.todos| ==> list.todos[i].completed
  {
    CountIncomplete(list.todos)
  }

  /** `list_complete?(list)`: at least one todo and none remaining. */
  function IsListComplete(list: TodoList): (complete: bool)
    ensures complete <==> |list.todos| > 0 && forall i :: 0 <= i < |list.todos| ==> list.todos[i].completed
    ensures |list.todos| == 0 ==> !complete
  {
    TodosCount(list) > 0 && TodosRemainingCount(list) == 0
  }

  /** `list_class(list)`: the CSS class `"complete"` for a complete list, `nil` otherwise. */
  function ListClass(list: TodoList): (cls: Option<string>)
    ensures cls.Some? <==> |list.todos| > 0 && forall i :: 0 <= i < |list.todos| ==> list.todos[i].completed
    ensures cls.Some? ==> cls.value == "complete"
  {
    if IsListComplete(list) then Some("complete") else None
  }
}
