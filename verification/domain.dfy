/**
 The data held in a user's session: an ordered sequence of todo lists, each
 with a name and an ordered sequence of todos. Positions in these sequences
 are the identifiers the routes use.
 */
module Domain {

  /** Ruby's `nil` or a value. */
  datatype Option<+T> = None | Some(value: T)

  /** One todo item: `{name:, completed:}`. */
  datatype Todo = Todo(name: string, completed: bool)

  /** One list: `{name:, todos:}`. */
  datatype TodoList = TodoList(name: string, todos: seq<Todo>)

  /** The contents of `session[:lists]`. */
  type Session = seq<TodoList>
}
