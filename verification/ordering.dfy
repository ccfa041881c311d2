/**
 Display ordering: `sort_lists` and `sort_todos` partition their input with
 Ruby's `Enumerable#partition` and yield the incomplete group before the
 complete one. Both are one stable partition, instantiated twice.
 */
module Ordering {
  import opened Domain
  import Status

  /** The elements `x` of `s` with `p(x) == want`, in their original order:
      one half of `s.partition(&p)`. */
  function Select<T>(s: seq<T>, p: T -> bool, want: bool): (r: seq<T>)
    ensures |r| <= |s|
    ensures forall i :: 0 <= i < |r| ==> p(r[i]) == want
  {
    if s == [] then []
    else if p(s[0]) == want then [s[0]] + Select(s[1..], p, want)
    else Select(s[1..], p, want)
  }

  /** Selecting from a concatenation selects from each part. */
  lemma {:induction false} SelectAppend<T>(a: seq<T>, b: seq<T>, p: T -> bool, want: bool)
    ensures Select(a + b, p, want) == Select(a, p, want) + Select(b, p, want)
  {
    if a == [] {
      assert a + b == b;
    } else {
      assert (a + b)[1..] == a[1..] + b;
      SelectAppend(a[1..], b, p, want);
    }
  }

  /** A sequence whose elements all have `p == want` is kept whole by one
      selection and emptied by the other. */
  lemma {:induction false} SelectUniform<T>(s: seq<T>, p: T -> bool, want: bool)
    requires forall i :: 0 <= i < |s| ==> p(s[i]) == want
    ensures Select(s, p, want) == s
    ensures Select(s, p, !want) == []
  {
    if s != [] {
      SelectUniform(s[1..], p, want);
    }
  }

  /** The two halves of a partition together hold exactly the elements of `s`. */
  lemma {:induction false} SelectMultiset<T>(s: seq<T>, p: T -> bool)
    ensures multiset(Select(s, p, false)) + multiset(Select(s, p, true)) == multiset(s)
  {
    if s != [] {
      SelectMultiset(s[1..], p);
      assert s == [s[0]] + s[1..];
    }
  }

  /** The sequence `sort_lists`/`sort_todos` yield: elements failing `p`
      first, then those satisfying it. */
  function StablePartition<T>(s: seq<T>, p: T -> bool): (r: seq<T>)
    ensures multiset(r) == multiset(s)
    ensures |r| == |s|
    ensures forall i, j :: 0 <= i < |r| && 0 <= j < |r| && !p(r[i]) && p(r[j]) ==> i < j
    ensures Select(r, p, false) == Select(s, p, false)
    ensures Select(r, p, true) == Select(s, p, true)
  {
    var incomplete := Select(s, p, false);
    var complete := Select(s, p, true);
    SelectMultiset(s, p);
    SelectAppend(incomplete, complete, p, false);
    SelectAppend(incomplete, complete, p, true);
    SelectUniform(incomplete, p, false);
    SelectUniform(complete, p, true);
    assert |multiset(incomplete + complete)| == |incomplete + complete|;
    incomplete + complete
  }

  /** Length of the longest prefix of `r` whose elements all fail `p`. */
  function FailingPrefix<T>(r: seq<T>, p: T -> bool): (k: nat)
    ensures k <= |r|
    ensures forall i :: 0 <= i < k ==> !p(r[i])
    ensures k < |r| ==> p(r[k])
  {
    if r == [] || p(r[0]) then 0 else 1 + FailingPrefix(r[1..], p)
  }

  /** In a sequence that puts failing elements first, everything from the
      end of the failing prefix on satisfies `p`. */
  lemma OrderedSuffix<T>(r: seq<T>, p: T -> bool)
    requires forall i, j :: 0 <= i < |r| && 0 <= j < |r| && !p(r[i]) && p(r[j]) ==> i < j
    ensures forall i :: FailingPrefix(r, p) <= i < |r| ==> p(r[i])
  {
    var k := FailingPrefix(r, p);
    forall i | k <= i < |r|
      ensures p(r[i])
    {
      assert p(r[k]);
    }
  }

  /** A failing block followed by a satisfying block is split back into
      those blocks by the two selections. */
  lemma SelectSplit<T>(front: seq<T>, back: seq<T>, p: T -> bool)
    requires forall i :: 0 <= i < |front| ==> !p(front[i])
    requires forall i :: 0 <= i < |back| ==> p(back[i])
    ensures Select(front + back, p, false) == front
    ensures Select(front + back, p, true) == back
  {
    SelectUniform(front, p, false);
    SelectUniform(back, p, true);
    SelectAppend(front, back, p, false);
    SelectAppend(front, back, p, true);
  }

  /** The stable partition is the only sequence that puts every failing
      element before every satisfying one and keeps each group in its
      original order. */
  lemma StablePartitionUnique<T>(s: seq<T>, p: T -> bool, r: seq<T>)
    requires forall i, j :: 0 <= i < |r| && 0 <= j < |r| && !p(r[i]) && p(r[j]) ==> i < j
    requires Select(r, p, false) == Select(s, p, false)
    requires Select(r, p, true) == Select(s, p, true)
    ensures r == StablePartition(s, p)
  {
    var k := FailingPrefix(r, p);
    OrderedSuffix(r, p);
    var front, back := r[..k], r[k..];
    assert r == front + back;
    SelectSplit(front, back, p);
    assert StablePartition(s, p) == Select(s, p, false) + Select(s, p, true);
  }

  /** `sort_lists(lists)`: incomplete lists first, then complete ones, each
      group in its original order, as a rearrangement of `lists`. */
  function SortLists(lists: seq<TodoList>): (r: seq<TodoList>)
    ensures multiset(r) == multiset(lists)
    ensures forall i, j :: 0 <= i < |r| && 0 <= j < |r| && !Status.IsListComplete(r[i]) && Status.IsListComplete(r[j]) ==> i < j
    ensures Select(r, Status.IsListComplete, false) == Select(lists, Status.IsListComplete, false)
    ensures Select(r, Status.IsListComplete, true) == Select(lists, Status.IsListComplete, true)
  {
    StablePartition(lists, Status.IsListComplete)
  }

  /** Whether a todo is done: the block `todo[:completed]` of `sort_todos`. */
  function IsDone(todo: Todo): bool {
    todo.completed
  }

  /** `sort_todos(todos)`: incomplete todos first, then completed ones, each
      group in its original order, as a rearrangement of `todos`. */
  function SortTodos(todos: seq<Todo>): (r: seq<Todo>)
    ensures multiset(r) == multiset(todos)
    ensures forall i, j :: 0 <= i < |r| && 0 <= j < |r| && !r[i].completed && r[j].completed ==> i < j
    ensures Select(r, IsDone, false) == Select(todos, IsDone, false)
    ensures Select(r, IsDone, true) == Select(todos, IsDone, true)
  {
    StablePartition(todos, IsDone)
  }

  /** The remaining count of a list is the number of open todos that
      `sort_todos` shows first. */
  lemma {:induction false} RemainingCountIsOpenTodos(todos: seq<Todo>)
    ensures Status.CountIncomplete(todos) == |Select(todos, IsDone, false)|
  {
    if todos != [] {
      RemainingCountIsOpenTodos(todos[1..]);
    }
  }
}
