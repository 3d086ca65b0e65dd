/** Values that stand for Rust's `Option` and for the panics the model represents. */
module Outcomes {

  datatype Option<+T> = None | Some(value: T)

  /** The two panics the model represents: indexing a `Vec` past its end, and
      subtracting below zero on `usize` in an overflow-checked build. (The
      `.lock().unwrap()` calls can also panic, on a poisoned mutex, if panics
      unwind; the model has no locks.) */
  datatype Panic = IndexOutOfBounds | SubtractOverflow

  /** A value, or the panic that took its place. */
  datatype Result<+T> = Ok(value: T) | Err(panic: Panic)

  /** How one step of a thread ended: it did its work, it is still blocked
      waiting for a message, or it panicked. */
  datatype Outcome = Done | Waiting | Panicked(reason: Panic)
}
