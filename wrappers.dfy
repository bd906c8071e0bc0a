/** The "no answer" sentinel of both solvers: Python's None, kept apart from
    an empty assignment. */
module Wrappers {

  datatype Option<+T> = None | Some(value: T)
}
