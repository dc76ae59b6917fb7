/** Invariants that stay folded in the prover until a proof names them. */
module Folding {

  /** What can be folded: the invariants of a size class and of the packet pool, the pool's
      state, the invariants of the list's parts, the state of a walk and of a ring operation, the
      duplicate window's image, the loss meter's picture, one side of a session, a record of
      the list's books. */
  datatype Fold = Class | Pool | States | Parts | Walking | Ring | Window | Picture | Sides | Record

  /** Always true.  A folded invariant is stated for every k with Open(fold, k), so that
      asserting Open(fold, 0) unfolds it. */
  ghost predicate Open(fold: Fold, k: nat) { true }
}
