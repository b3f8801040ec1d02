/** spin_lock of include/relis/spinlock.h, one access to the lock word at a time. */
module Spinlock {
  import opened Wrappers

  datatype Waiting =
    | Exchange  // about to exchange the word with 1
    | Spin      // waiting for the word to read 0

  // The lock word after the access, and where the thread stands; none is inside.
  function Acquire(lock: bool, w: Waiting): (bool, Option<Waiting>) {
    match w
    case Exchange => (true, if lock then Some(Spin) else None)
    case Spin => (lock, Some(if lock then Spin else Exchange))
  }
}
