/**
 Worked examples of the routes and helpers on small concrete sessions.
 */
module Scenarios {
  import opened Domain
  import opened Text
  import opened Validation
  import opened Routes
  import Status
  import Ordering

  const Done := TodoList("A", [Todo("a", true)])
  const Empty := TodoList("B", [])
  const Open := TodoList("C", [Todo("c", false)])
  const AlsoDone := TodoList("D", [Todo("d", true), Todo("e", true)])

  /** Which of the four sample lists are complete. */
  lemma SampleStatus()
    ensures Status.IsListComplete(Done) && Status.IsListComplete(AlsoDone)
    ensures !Status.IsListComplete(Empty) && !Status.IsListComplete(Open)
  {
  }

  /** The incomplete half of the sample partition. */
  lemma SampleIncomplete()
    ensures Ordering.Select([Done, Empty, Open, AlsoDone], Status.IsListComplete, false) == [Empty, Open]
  {
    var p := Status.IsListComplete;
    SampleStatus();
    assert Ordering.Select([AlsoDone], p, false) == [];
    assert Ordering.Select([Open, AlsoDone], p, false) == [Open];
    assert Ordering.Select([Empty, Open, AlsoDone], p, false) == [Empty, Open];
  }

  /** The complete half of the sample partition. */
  lemma SampleComplete()
    ensures Ordering.Select([Done, Empty, Open, AlsoDone], Status.IsListComplete, true) == [Done, AlsoDone]
  {
    var p := Status.IsListComplete;
    SampleStatus();
    assert Ordering.Select([AlsoDone], p, true) == [AlsoDone];
    assert Ordering.Select([Open, AlsoDone], p, true) == [AlsoDone];
    assert Ordering.Select([Empty, Open, AlsoDone], p, true) == [AlsoDone];
  }

  /** An empty list and a list with an open todo sort before complete
      lists; each group keeps its order. */
  lemma SortListsExample()
    ensures Ordering.SortLists([Done, Empty, Open, AlsoDone]) == [Empty, Open, Done, AlsoDone]
  {
    SampleIncomplete();
    SampleComplete();
  }

  /** The uniqueness check is case-sensitive. */
  lemma UniquenessIsCaseSensitive()
    ensures ErrorForListName([TodoList("Groceries", [])], "Groceries") == Some(ListNameNotUnique)
    ensures ErrorForListName([TodoList("Groceries", [])], "groceries") == None
  {
    assert "Groceries"[0] != "groceries"[0];
  }

  /** Deleting the first of two lists leaves the second at index 0. */
  lemma DeleteFirstList()
    ensures DeleteList([Done, Empty], 0) == [Empty]
  {
  }

  /** Creating "Chores" in an empty session. */
  lemma CreateChores()
    ensures CreateList([], "Chores") == Outcome([TodoList("Chores", [])], None)
  {
    var chores := "Chores";
    assert chores[0] == 'C' && chores[|chores| - 1] == 's';
    Text.StripStripped(chores);
  }

  /** Adding "Buy milk" to it. */
  lemma AddMilk()
    ensures AddTodo([TodoList("Chores", [])], 0, "Buy milk")
         == Outcome([TodoList("Chores", [Todo("Buy milk", false)])], None)
  {
    var milk := "Buy milk";
    assert milk[0] == 'B' && milk[|milk| - 1] == 'k';
    Text.StripStripped(milk);
    assert |milk| == 8;
    var added := AddTodo([TodoList("Chores", [])], 0, milk);
    assert added.lists[0] == TodoList("Chores", [Todo(milk, false)]);
  }

  /** Completing all then makes the list complete. */
  lemma CompleteChores()
    ensures CompleteAll([TodoList("Chores", [Todo("Buy milk", false)])], 0)
         == [TodoList("Chores", [Todo("Buy milk", true)])]
    ensures Status.IsListComplete(TodoList("Chores", [Todo("Buy milk", true)]))
  {
    var after := CompleteAll([TodoList("Chores", [Todo("Buy milk", false)])], 0);
    assert after[0].todos == [Todo("Buy milk", true)];
  }

  /** `" milk ".strip` is `"milk"`. */
  lemma StripMilk()
    ensures Strip(" milk ") == "milk"
  {
    StripMilkLeft();
    StripMilkRight();
  }

  /** The leading space of `" milk "` is trimmed. */
  lemma StripMilkLeft()
    ensures TrimLeft(" milk ") == "milk "
  {
    var raw, left := " milk ", "milk ";
    assert TrimLeft(left) == left by {
      assert left[0] == 'm';
    }
    assert raw[0] == ' ' && raw[1..] == left;
  }

  /** The trailing space of `"milk "` is trimmed. */
  lemma StripMilkRight()
    ensures TrimRight("milk ") == "milk"
  {
    var left, text := "milk ", "milk";
    assert TrimRight(text) == text by {
      assert text[|text| - 1] == 'k';
    }
    assert left[|left| - 1] == ' ' && left[..|left| - 1] == text;
  }

  /** The stored todo name is the raw parameter: text with surrounding
      whitespace passes validation and is kept with that whitespace. */
  lemma AddTodoKeepsWhitespace()
    ensures AddTodo([TodoList("Chores", [])], 0, " milk ").lists
         == [TodoList("Chores", [Todo(" milk ", false)])]
  {
    StripMilk();
    assert |"milk"| == 4;
    var out := AddTodo([TodoList("Chores", [])], 0, " milk ");
    assert out.error == None;
    assert out.lists[0] == TodoList("Chores", [Todo(" milk ", false)]);
  }
}
