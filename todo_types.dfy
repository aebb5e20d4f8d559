/** The records of the todo application: one item, and the transient view settings. */
module TodoTypes {

  datatype Option<+T> = None | Some(value: T)

  /** One todo item. `completedAt` is `None` where the application stores `null`. */
  datatype Todo = Todo(
    id: string,
    text: string,
    completed: bool,
    createdAt: string,
    completedAt: Option<string>,
    tags: seq<string>
  )

  /** The status filter of the view. */
  datatype Filter = All | Active | Completed

  /** The sort keys of the view: manual keeps the list order. */
  datatype SortKey = Manual | CreatedAtDesc | CreatedAtAsc | TextAsc | TextDesc

  /** A record as read back from storage, before normalisation: `tags` is `None`
      when the stored field is missing or is not an array. */
  datatype StoredTodo = StoredTodo(
    id: string,
    text: string,
    completed: bool,
    createdAt: string,
    completedAt: Option<string>,
    tags: Option<seq<string>>
  )
}
