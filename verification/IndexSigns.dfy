/** When a sealed index means its own self-determined value: address arithmetic is unsigned, so an index whose
    value depends on the sign of what is around it means another number there. */
module IndexSigns {
  import opened Bits
  import opened Wrappers
  import opened Ir
  import opened RowMajor
  import opened Words
  import opened IndexSeal

  /** The node's value in a context of at least `w` bits is the same in signed and in unsigned arithmetic. An
      unsigned node always is; a signed one when nothing in it is extended to the context but a literal
      without a sign bit, and nothing in it divides. */
  predicate Stable(a: Arena, d: Design, e: nat, w: nat)
    requires e < |a|
    decreases e
  {
    var W := Max(ShapeOf(a, d, e).width, w);
    !ShapeOf(a, d, e).signed ||
    match a[e]
    case Const(bits, _) => |bits| >= W || bits == [] || bits[|bits| - 1] == B0
    case Signal(net, _) => NetShape(d, net).width >= W
    case Binary(op, lhs, rhs) => (op.Add? || op.Sub? || op.Mul?) && Stable(a, d, lhs, W) && Stable(a, d, rhs, W)
    case Ternary(_, thenE, elseE) => Stable(a, d, thenE, W) && Stable(a, d, elseE, W)
    case SysFunc(which, args) => !which.OtherFunc? && |args| == 1 && ShapeOf(a, d, args[0]).width >= W
    case _ => false
  }

  lemma {:induction false} StableHolds(a: Arena, d: Design, st: Store, e: nat, w: nat)
    requires e < |a| && Stable(a, d, e, w)
    ensures Eval(a, d, st, e, w, false) == Eval(a, d, st, e, w, true)
    decreases e
  {
    hide ToNat, FromNat, Pow2, Truth, Merge, Copies, SelectBits, Compare;
    if ShapeOf(a, d, e).signed {
      var W := Max(ShapeOf(a, d, e).width, w);
      match a[e]
      case Const(bits, _) =>
      case Signal(net, word) =>
      case Binary(op, lhs, rhs) => StableSum(a, d, st, e, w);
      case Ternary(_, thenE, elseE) =>
        StableHolds(a, d, st, thenE, W);
        StableHolds(a, d, st, elseE, W);
      case SysFunc(which, args) =>
      case _ =>
    }
  }

  lemma {:induction false} StableSum(a: Arena, d: Design, st: Store, e: nat, w: nat)
    requires e < |a| && a[e].Binary? && Stable(a, d, e, w) && ShapeOf(a, d, e).signed
    ensures Eval(a, d, st, e, w, false) == Eval(a, d, st, e, w, true)
    decreases e, 0
  {
    hide ToNat, FromNat, Pow2, Resize;
    var W := Max(ShapeOf(a, d, e).width, w);
    StableHolds(a, d, st, a[e].lhs, W);
    StableHolds(a, d, st, a[e].rhs, W);
  }

  /** For literals and for nets and array words the condition is exact. */
  lemma {:induction false} LeafStableExactly(a: Arena, d: Design, e: nat, w: nat)
    requires e < |a| && (a[e].Const? || a[e].Signal?)
    ensures Stable(a, d, e, w)
       <==> forall st: Store :: Eval(a, d, st, e, w, false) == Eval(a, d, st, e, w, true)
  {
    hide Stable, Eval;
    if Stable(a, d, e, w) {
      forall st: Store ensures Eval(a, d, st, e, w, false) == Eval(a, d, st, e, w, true) { StableHolds(a, d, st, e, w); }
    } else {
      var st := LeafUnstable(a, d, e, w);
    }
  }

  lemma {:induction false} LeafUnstable(a: Arena, d: Design, e: nat, w: nat) returns (st: Store)
    requires e < |a| && (a[e].Const? || a[e].Signal?) && !Stable(a, d, e, w)
    ensures Eval(a, d, st, e, w, false) != Eval(a, d, st, e, w, true)
  {
    hide ToNat, FromNat, Pow2;
    st := Store(map[], (_, _, _) => []);
    var W := Max(ShapeOf(a, d, e).width, w);
    var v := LeafVec(a, d, e);
    assert Eval(a, d, st, e, w, false) == Resize(v, W, false);
    assert Eval(a, d, st, e, w, true) == Resize(v, W, true);
    ExtensionsDiffer(v, W);
  }

  /** What a leaf holds when every net is unknown. */
  function LeafVec(a: Arena, d: Design, e: nat): Vec
    requires e < |a| && (a[e].Const? || a[e].Signal?)
  {
    if a[e].Const? then a[e].bits else Unknown(NetShape(d, a[e].net).width)
  }

  lemma ExtensionsDiffer(v: Vec, w: nat)
    requires v != [] && |v| < w && v[|v| - 1] != B0
    ensures Resize(v, w, true) != Resize(v, w, false)
  {
    ExtensionAppends(v, w, true);
    ExtensionAppends(v, w, false);
    assert Resize(v, w, true)[|v|] == v[|v| - 1] && Resize(v, w, false)[|v|] == B0;
  }

  /** For sums it is not: what extension adds can cancel. `x - x` is 0 in either arithmetic. */
  lemma {:induction false} DifferenceCancels(a: Arena, d: Design, st: Store, e: nat)
    requires e < |a| && a[e].Binary? && a[e].op.Sub? && a[e].lhs == a[e].rhs && a[a[e].lhs].Signal?
    requires ShapeOf(a, d, a[e].lhs) == Shape(8, true)
    ensures Eval(a, d, st, e, 32, false) == Eval(a, d, st, e, 32, true) && !Stable(a, d, e, 32)
  {
    hide ToNat, FromNat, Pow2;
    var v := Eval(a, d, st, a[e].lhs, 8, true);
    var s, u := Eval(a, d, st, a[e].lhs, 32, true), Eval(a, d, st, a[e].lhs, 32, false);
    assert s == Resize(v, 32, true) && u == Resize(v, 32, false);
    ExtensionAppends(v, 32, true);
    ExtensionAppends(v, 32, false);
    if Known(v) {
      assert Known(s) && Known(u);
    } else {
      var i :| 0 <= i < |v| && v[i] == BX;
      assert s[i] == BX && u[i] == BX;
    }
    assert Arith(Sub, s, s, 32, true) == Arith(Sub, u, u, 32, false);
  }

  // ---- the index and its own value ----

  /** The index's self-determined value, modulo 2^32. */
  function OwnWord(a: Arena, d: Design, st: Store, e: nat): Option<nat>
    requires e < |a|
  {
    var v := EvalSelf(a, d, st, e);
    if Known(v) then Some(ToInt(v, ShapeOf(a, d, e).signed) % WORD) else None
  }

  /** A narrow index is extended by its own sign before the arithmetic; a wider one has to be stable. */
  predicate IndexStable(a: Arena, d: Design, e: nat)
    requires e < |a|
  {
    ShapeOf(a, d, e).width < 32 || Stable(a, d, e, ShapeOf(a, d, e).width)
  }

  /** A stable index, of whatever width, means its own value in the address arithmetic, in every store. */
  lemma {:induction false} StableIsOwn(a: Arena, d: Design, st: Store, e: nat)
    requires e < |a| && (ShapeOf(a, d, e).width < 32 || Stable(a, d, e, ShapeOf(a, d, e).width))
    ensures SignStable(a, d, st, e) && IndexWord(a, d, st, e) == OwnWord(a, d, st, e)
  {
    if ShapeOf(a, d, e).width >= 32 { StableHolds(a, d, st, e, ShapeOf(a, d, e).width); }
  }

  lemma StableExtends(a: Arena, b: Arena, d: Design, e: nat, w: nat)
    requires Extends(a, b) && e < |a|
    ensures Stable(b, d, e, w) == Stable(a, d, e, w)
    decreases e
  {
    ShapeExtends(a, b, d, e);
    var W := Max(ShapeOf(a, d, e).width, w);
    match a[e]
    case Binary(_, lhs, rhs) =>
      StableExtends(a, b, d, lhs, W);
      StableExtends(a, b, d, rhs, W);
    case Ternary(_, thenE, elseE) =>
      StableExtends(a, b, d, thenE, W);
      StableExtends(a, b, d, elseE, W);
    case SysFunc(which, args) =>
      if |args| == 1 { ShapeExtends(a, b, d, args[0]); }
    case _ =>
  }

  // ---- indices that mean another number ----

  /** A narrow signed operand is extended by the sign of the sum: `0 + 8'shff` is -1 alone and 255 in the
      address arithmetic. */
  lemma NarrowOperandMoves(d: Design, st: Store)
    ensures
      var a: Arena := [Const(FromNat(0, 32), true), Const(FromNat(255, 8), true), Binary(Add, 0, 1)];
      ShapeOf(a, d, 2) == Shape(32, true)
      && Eval(a, d, st, 2, 32, true) == FromNat(WORD - 1, 32) && Eval(a, d, st, 2, 32, false) == FromNat(255, 32)
      && !SignStable(a, d, st, 2) && !IndexStable(a, d, 2)
  {
    hide FromNat, ToNat, Pow2;
    var a: Arena := [Const(FromNat(0, 32), true), Const(FromNat(255, 8), true), Binary(Add, 0, 1)];
    var z, b := FromNat(0, 32), FromNat(255, 8);
    Pow2Word();
    assert Pow2(8) == 256 by { PowEight(); }
    ToFromSmall(0, 32);
    ToFromSmall(255, 8);
    TopBit(b);
    assert Pow2(7) == 128 by { PowEight(); }
    ExtensionNat(b, 32, true);
    ExtensionNat(b, 32, false);
    ExtensionTop(b, 32, true);
    ExtensionTop(b, 32, false);
    assert Resize(z, 32, true) == z && Resize(z, 32, false) == z;
    assert Arith(Add, z, Resize(b, 32, true), 32, true) == FromNat(WORD - 1, 32);
    assert Arith(Add, z, Resize(b, 32, false), 32, false) == FromNat(255, 32);
    ToFromSmall(WORD - 1, 32);
    ToFromSmall(255, 32);
  }

  lemma PowEight()
    ensures Pow2(7) == 128 && Pow2(8) == 256
  {
    assert Pow2(4) == 16;
    Pow2Add(4, 3);
    Pow2Add(4, 4);
  }

  lemma WideNumber(n: nat, w: nat)
    requires 1 <= w && n < Pow2(w)
    ensures |FromNat(n, w)| == w && Known(FromNat(n, w)) && ToNat(FromNat(n, w)) == n
    ensures ToInt(FromNat(n, w), true) == if n >= Pow2(w - 1) then n - Pow2(w) else n
    ensures ToInt(FromNat(n, w), false) == n
    ensures Resize(FromNat(n, w), w, true) == FromNat(n, w) == Resize(FromNat(n, w), w, false)
  {
    hide FromNat, ToNat, Pow2;
    ToFromSmall(n, w);
    TopBit(FromNat(n, w));
  }

  lemma PowForty()
    ensures Pow2(39) == 549755813888 && Pow2(40) == 1099511627776
  {
    hide Pow2;
    PowEight();
    Pow2Word();
    Pow2Add(7, 32);
    Pow2Add(8, 32);
  }

  function RemainderOf(x: Vec, y: Vec): Arena { [Const(x, true), Const(y, true), Binary(Mod, 0, 1)] }

  /** The 40-bit constants -7 and 5, and their remainder. */
  function WideRemainder(): Arena { RemainderOf(FromNat(1099511627769, 40), FromNat(5, 40)) }

  /** A signed index wider than 32 bits is cut from its unsigned value: -7 % 5 is -2 alone, and 4 as an index. */
  lemma {:induction false} WideRemainderMoves(d: Design, st: Store)
    ensures ShapeOf(WideRemainder(), d, 2) == Shape(40, true)
    ensures OwnWord(WideRemainder(), d, st, 2) == Some(WORD - 2) && IndexWord(WideRemainder(), d, st, 2) == Some(4)
    ensures !IndexStable(WideRemainder(), d, 2)
  {
    hide FromNat, ToNat, Pow2, ToInt, Resize;
    var a := WideRemainder();
    var x, y := FromNat(1099511627769, 40), FromNat(5, 40);
    PowForty();
    WideNumber(1099511627769, 40);
    WideNumber(5, 40);
    WideNumber(1099511627774, 40);
    WideNumber(4, 40);
    assert Remainder(-7, 5) == -2 && 1099511627769 % 5 == 4;
    assert Arith(Mod, x, y, 40, true) == FromNat(1099511627774, 40);
    assert Arith(Mod, x, y, 40, false) == FromNat(4, 40);
    assert EvalSelf(a, d, st, 2) == FromNat(1099511627774, 40);
    assert Eval(a, d, st, 2, 40, false) == FromNat(4, 40);
  }

  /** A remainder by a positive number means its own value exactly when the dividend is not negative, or divides
      and the divisor is a power of two. */
  lemma {:induction false} RemainderExactly(l: nat, n: nat)
    requires l < WORD && 0 < n < 0x8000_0000
    ensures Arith(Mod, FromNat(l, 32), FromNat(n, 32), 32, true) == Arith(Mod, FromNat(l, 32), FromNat(n, 32), 32, false)
       <==> l < 0x8000_0000 || (l % n == 0 && WORD % n == 0)
  {
    hide FromNat, ToNat, Pow2, ToInt;
    Pow2Word();
    SignedNumber(l);
    SignedNumber(n);
    WideNumber(l, 32);
    WideNumber(n, 32);
    if l >= 0x8000_0000 {
      var m := (WORD - l) % n;
      assert Remainder(l - WORD, n) == -m;
      var s := (-m) % WORD;
      assert s == if m == 0 then 0 else WORD - m;
      SameNumber(s, l % n);
      Divides(l, n);
    }
  }

  lemma SameNumber(x: nat, y: nat)
    requires x < WORD && y < WORD
    ensures FromNat(x, 32) == FromNat(y, 32) <==> x == y
  {
    hide FromNat, ToNat, Pow2;
    Pow2Word();
    ToFromSmall(x, 32);
    ToFromSmall(y, 32);
  }

  lemma Divides(l: nat, n: nat)
    requires l < WORD && n > 0
    ensures (WORD - l) % n == 0 && l % n == 0 <==> l % n == 0 && WORD % n == 0
  {
    if l % n == 0 {
      var q := l / n;
      assert l == n * q;
      SameResidue(WORD, WORD - l, n, q);
    }
  }

  lemma SameResidue(x: int, y: int, n: int, q: int)
    requires n > 0 && x == y + n * q
    ensures x % n == y % n
  {
    var p, r := y / n, y % n;
    MulDistributes(n, p, q);
    DivModUnique(x, n, p + q, r);
  }

  /** The remainder as an index node: both operands 32 bits wide and stable. */
  lemma {:induction false} RemainderIndexExactly(a: Arena, d: Design, st: Store, e: nat, l: nat, n: nat)
    requires e < |a| && a[e].Binary? && a[e].op.Mod? && ShapeOf(a, d, e) == Shape(32, true)
    requires ShapeOf(a, d, a[e].lhs).width == 32 == ShapeOf(a, d, a[e].rhs).width
    requires Stable(a, d, a[e].lhs, 32) && Stable(a, d, a[e].rhs, 32)
    requires l < WORD && 0 < n < 0x8000_0000
    requires EvalSelf(a, d, st, a[e].lhs) == FromNat(l, 32) && EvalSelf(a, d, st, a[e].rhs) == FromNat(n, 32)
    ensures SignStable(a, d, st, e) <==> l < 0x8000_0000 || (l % n == 0 && WORD % n == 0)
  {
    hide FromNat, ToNat, Pow2, ToInt, Arith;
    StableHolds(a, d, st, a[e].lhs, 32);
    StableHolds(a, d, st, a[e].rhs, 32);
    RemainderExactly(l, n);
    assert Eval(a, d, st, e, 32, true) == Arith(Mod, FromNat(l, 32), FromNat(n, 32), 32, true);
    assert Eval(a, d, st, e, 32, false) == Arith(Mod, FromNat(l, 32), FromNat(n, 32), 32, false);
  }
}
