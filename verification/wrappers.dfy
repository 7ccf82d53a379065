/** Optional values: a TypeScript optional property (`dueDate?: Date`) or a key that a
    `Partial<Todo>` may leave out. */
module Wrappers {

  datatype Option<+T> = None | Some(value: T) {

    /** The wrapped value, or `default` when absent. */
    function GetOr(default: T): T {
      match this
      case Some(v) => v
      case None => default
    }
  }
}
