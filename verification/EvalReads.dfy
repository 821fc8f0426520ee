/** A node's value depends on the nets it reads and on nothing else in the cells. */
module EvalReads {
  import opened Bits
  import opened Ir
  import opened ReadSet

  /** Two stores agree on some nets, and on every node the evaluator leaves uninterpreted. */
  ghost predicate AgreeOn(nets: set<nat>, x: Store, y: Store) {
    x.other == y.other
    && forall n: nat :: n in nets ==> (n in x.cells <==> n in y.cells) && (n in x.cells ==> x.cells[n] == y.cells[n])
  }

  lemma {:induction false} EvalAgrees(a: Arena, d: Design, x: Store, y: Store, e: nat, w: nat, signed: bool)
    requires e < |a| && AgreeOn(Reads(a, e), x, y)
    ensures Eval(a, d, x, e, w, signed) == Eval(a, d, y, e, w, signed)
    decreases e, 1
  {
    hide Resize, Arith, Compare, Truth, Merge, Copies, SelectBits;
    var W := Max(ShapeOf(a, d, e).width, w);
    var S := ShapeOf(a, d, e).signed && signed;
    match a[e]
    case Signal(net, word) =>
      if word.Some? { EvalSelfAgrees(a, d, x, y, word.value); }
    case Select(base, offset, width, kind) =>
      EvalSelfAgrees(a, d, x, y, base);
      EvalSelfAgrees(a, d, x, y, offset);
    case Concat(parts) => EvalPartsAgree(a, d, x, y, parts, e);
    case Replicate(count, value) => EvalSelfAgrees(a, d, x, y, value);
    case Binary(op, lhs, rhs) => BinaryAgrees(a, d, x, y, e, w, signed);
    case Ternary(cond, thenE, elseE) =>
      EvalSelfAgrees(a, d, x, y, cond);
      EvalAgrees(a, d, x, y, thenE, W, S);
      EvalAgrees(a, d, x, y, elseE, W, S);
    case SysFunc(which, args) => SysFuncAgrees(a, d, x, y, e, w, signed);
    case _ =>
  }

  lemma {:induction false} SysFuncAgrees(a: Arena, d: Design, x: Store, y: Store, e: nat, w: nat, signed: bool)
    requires e < |a| && a[e].SysFunc? && AgreeOn(Reads(a, e), x, y)
    ensures Eval(a, d, x, e, w, signed) == Eval(a, d, y, e, w, signed)
    decreases e, 0
  {
    hide Resize;
    if |a[e].args| == 1 {
      assert Reads(a, a[e].args[0]) <= Reads(a, e);
      EvalSelfAgrees(a, d, x, y, a[e].args[0]);
    }
  }

  lemma {:induction false} BinaryAgrees(a: Arena, d: Design, x: Store, y: Store, e: nat, w: nat, signed: bool)
    requires e < |a| && a[e].Binary? && AgreeOn(Reads(a, e), x, y)
    ensures Eval(a, d, x, e, w, signed) == Eval(a, d, y, e, w, signed)
    decreases e, 0
  {
    hide Resize, Arith, Compare, Truth;
    var W := Max(ShapeOf(a, d, e).width, w);
    var S := ShapeOf(a, d, e).signed && signed;
    var op, lhs, rhs := a[e].op, a[e].lhs, a[e].rhs;
    if op.LogAnd? {
      EvalSelfAgrees(a, d, x, y, lhs);
      EvalSelfAgrees(a, d, x, y, rhs);
    } else if op.Lt? || op.Le? || op.Ge? {
      var cw := Max(ShapeOf(a, d, lhs).width, ShapeOf(a, d, rhs).width);
      var cs := ShapeOf(a, d, lhs).signed && ShapeOf(a, d, rhs).signed;
      EvalAgrees(a, d, x, y, lhs, cw, cs);
      EvalAgrees(a, d, x, y, rhs, cw, cs);
    } else if !op.OtherBin? {
      EvalAgrees(a, d, x, y, lhs, W, S);
      EvalAgrees(a, d, x, y, rhs, W, S);
    }
  }

  lemma {:induction false} EvalSelfAgrees(a: Arena, d: Design, x: Store, y: Store, e: nat)
    requires e < |a| && AgreeOn(Reads(a, e), x, y)
    ensures EvalSelf(a, d, x, e) == EvalSelf(a, d, y, e)
    decreases e, 2
  {
    EvalAgrees(a, d, x, y, e, ShapeOf(a, d, e).width, ShapeOf(a, d, e).signed);
  }

  lemma {:induction false} EvalPartsAgree(a: Arena, d: Design, x: Store, y: Store, parts: seq<nat>, bound: nat)
    requires bound <= |a| && Below(parts, bound) && AgreeOn(ListReads(a, parts, bound), x, y)
    ensures EvalParts(a, d, x, parts, bound) == EvalParts(a, d, y, parts, bound)
    decreases bound, 0, |parts|
  {
    if parts != [] {
      EvalSelfAgrees(a, d, x, y, parts[0]);
      EvalPartsAgree(a, d, x, y, parts[1..], bound);
    }
  }
}
