/** Sealed predicates. A predicate with the body `forall k {:trigger Key(k)} :: Key(k) ==> P` means `P`, but a
    proof looks inside only if it names a key. */
module Seals {
  predicate Key(k: nat) { true }

  datatype Option<+T> = None | Some(value: T)
}
