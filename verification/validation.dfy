/**
 The two validators, `error_for_list_name` and `error_for_todo`. Each answers
 `nil` for an acceptable name or one of the error messages.
 */
module Validation {
  import opened Domain

  /** Bounds of the range `(1..100)` a name's size must fall in. */
  const MinNameLength := 1
  const MaxNameLength := 100

  /** `(1..100).cover? name.size` */
  predicate HasValidLength(name: string) {
    MinNameLength <= |name| <= MaxNameLength
  }

  datatype ValidationError = ListNameLength | ListNameNotUnique | TodoLength

  /** The range text the length messages end with. */
  const RangeText := "between 1 and 100 characters."

  predicate EndsWith(s: string, suffix: string) {
    |suffix| <= |s| && s[|s| - |suffix|..] == suffix
  }

  /** The message each error puts in the flash: the two length errors quote
      the range `HasValidLength` checks, the uniqueness error does not. */
  function Message(e: ValidationError): (msg: string)
    ensures EndsWith(msg, RangeText) <==> e != ListNameNotUnique
  {
    match e
    case ListNameLength => "The list name must be between 1 and 100 characters."
    case ListNameNotUnique => "List name must be unique."
    case TodoLength => "Todo must be between 1 and 100 characters."
  }

  /** `lists.any? { |list| list[:name] == name }` */
  function NameTaken(lists: seq<TodoList>, name: string): (taken: bool)
    ensures taken <==> exists i :: 0 <= i < |lists| && lists[i].name == name
  {
    if lists == [] then false
    else if lists[0].name == name then true
    else
      assert forall i :: 1 <= i < |lists| ==> lists[i] == lists[1..][i - 1];
      NameTaken(lists[1..], name)
  }

  /** `error_for_list_name(name)` against the lists of the session: the
      length error takes precedence; the uniqueness error is reported only
      for a name of valid length that some list already carries exactly. */
  function ErrorForListName(lists: seq<TodoList>, name: string): (err: Option<ValidationError>)
    ensures err == Some(ListNameLength) <==> !(1 <= |name| <= 100)
    ensures err == Some(ListNameNotUnique)
        <==> 1 <= |name| <= 100 && exists i :: 0 <= i < |lists| && lists[i].name == name
    ensures err == None <==> 1 <= |name| <= 100 && forall i :: 0 <= i < |lists| ==> lists[i].name != name
  {
    if !HasValidLength(name) then Some(ListNameLength)
    else if NameTaken(lists, name) then Some(ListNameNotUnique)
    else None
  }

  /** `error_for_todo(name)`: only the length is checked. */
  function ErrorForTodo(name: string): (err: Option<ValidationError>)
    ensures err == Some(TodoLength) <==> !(1 <= |name| <= 100)
    ensures err == None <==> 1 <= |name| <= 100
  {
    if !HasValidLength(name) then Some(TodoLength) else None
  }

  /** Both validators reject on length for exactly the same names, whatever
      lists the session holds. */
  lemma LengthRuleShared(lists: seq<TodoList>, name: string)
    ensures ErrorForTodo(name) == Some(TodoLength) <==> ErrorForListName(lists, name) == Some(ListNameLength)
  {
  }

  /** Every error has its own message, so the flash tells them apart. */
  lemma MessagesDistinct(e1: ValidationError, e2: ValidationError)
    requires e1 != e2
    ensures Message(e1) != Message(e2)
  {
  }
}
