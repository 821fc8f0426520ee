/** The elaborator's append-only expression arena. */
module Emitter {
  import opened Bits
  import opened Ir

  class Elaborator {
    var exprs: Arena
    /** How many diagnostics were reported. */
    var errors: nat
    const design: Design

    constructor (d: Design)
      ensures design == d && exprs == [] && errors == 0
    {
      design, exprs, errors := d, [], 0;
    }

    method Push(e: Expr) returns (id: nat)
      requires OperandsBelow(e, |exprs|)
      modifies this`exprs
      ensures id == |old(exprs)| && exprs == old(exprs) + [e] && Extends(old(exprs), exprs)
    {
      id := |exprs|;
      exprs := exprs + [e];
    }

    /** An unsigned literal of `w` bits. */
    method ConstU32(n: nat, w: nat) returns (id: nat)
      modifies this`exprs
      ensures id == |old(exprs)| && exprs == old(exprs) + [Const(FromNat(n, w), false)]
      ensures Extends(old(exprs), exprs)
    {
      id := Push(Const(FromNat(n, w), false));
    }

    method Error()
      modifies this`errors
      ensures errors == old(errors) + 1
    {
      errors := errors + 1;
    }
  }
}
