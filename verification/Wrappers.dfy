/** Optional values, results that carry an error, and operations that may fail, shared by every component. */
module Wrappers {

  datatype Option<+T> = None | Some(value: T)

  datatype Result<+T, +E> = Ok(value: T) | Err(error: E)

  /** What happens to one file operation: it works, it has no effect and fails, or it takes effect and yet
      fails (a rename whose directory sync is refused). A crash at step n is a fault that loses every operation
      from n on. */
  datatype Fault = Clean | Lost | Late

  type Faults = nat -> Fault

  const NO_FAULTS: Faults := step => Clean
}
