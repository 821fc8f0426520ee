/** The keys of an associative array indexed by a keyword atom (`[int]`, `[byte]`, ...). Their index is not cast:
    the engine widens it to 64 bits and stores what it finds. When that is the cast key, and when it is not. */
module KeywordKeys {
  import opened Bits
  import opened Wrappers
  import opened Ir
  import opened RowMajor
  import opened Words
  import opened IndexSigns
  import opened Geometry
  import opened AssocKey

  /** The keyword atom of `w` bits: every one is signed. */
  function KeywordKey(w: nat): KeyShape { KeyShape(w, true, true) }

  /** The integers of a type. */
  predicate InType(n: int, w: nat, signed: bool)
    requires w >= 1
  {
    if signed then 0 - Pow2(w - 1) <= n < Pow2(w - 1) else 0 <= n < Pow2(w)
  }

  // ---- nodes whose 64-bit value is their own value extended ----

  /** The wide value is the narrow one extended, or both hold an unknown bit. */
  predicate Widens(wide: Vec, v: Vec, signed: bool) {
    if Known(v) then wide == Resize(v, |wide|, signed) else !Known(wide)
  }

  /** A check on the nodes: the 64-bit context changes nothing inside the expression but its extension. Sums,
      differences and products compute in the wider context; everything else carries its value there. */
  predicate Keeps(a: Arena, d: Design, e: nat)
    requires e < |a|
    decreases e
  {
    ShapeOf(a, d, e).width >= 64 ||
    match a[e]
    case Const(_, _) => true
    case Signal(_, _) => true
    case Select(_, _, _, _) => true
    case Concat(_) => true
    case Replicate(_, _) => true
    case Binary(op, lhs, rhs) =>
      op.LogAnd? || op.Lt? || op.Le? || op.Ge? || (op.Mod? && Keeps(a, d, lhs) && Keeps(a, d, rhs))
    case Ternary(_, thenE, elseE) => Keeps(a, d, thenE) && Keeps(a, d, elseE)
    case SysFunc(which, args) => !which.OtherFunc? && |args| == 1
    case _ => false
  }

  lemma ResizeTwice(v: Vec, w: nat, wide: nat, signed: bool)
    requires |v| <= w <= wide && 1 <= w
    ensures Widens(Resize(v, wide, signed), Resize(v, w, signed), signed)
  {
    var r, x := Resize(v, w, signed), Resize(v, wide, signed);
    assert forall i :: 0 <= i < w ==> x[i] == r[i];
    if Known(r) {
      assert Resize(r, wide, signed) == x;
    } else {
      var i :| 0 <= i < w && r[i] == BX;
      assert x[i] == BX;
    }
  }

  lemma UnknownWidens(v: Vec, w: nat, wide: nat)
    requires 1 <= w <= wide && v == Unknown(|v|) && |v| >= 1
    ensures Widens(Resize(v, wide, false), Resize(v, w, false), false)
  {
    assert v[0] == BX && Resize(v, w, false)[0] == BX && Resize(v, wide, false)[0] == BX;
  }

  lemma {:induction false} MergeWidens(t: Vec, f: Vec, v: Vec, u: Vec, signed: bool)
    requires |t| == |f| && |v| == |u| && 1 <= |v| <= |t| && Widens(t, v, signed) && Widens(f, u, signed)
    ensures Widens(Merge(t, f), Merge(v, u), signed)
  {
    var m, n := Merge(t, f), Merge(v, u);
    if Known(v) && Known(u) {
      assert forall i :: 0 <= i < |v| ==> t[i] == v[i] && f[i] == u[i];
      if Known(n) {
        forall i | 0 <= i < |v| ensures v[i] == u[i] { assert n[i] != BX; }
        assert t == f && m == t && n == v;
      } else {
        var i :| 0 <= i < |n| && n[i] == BX;
        assert m[i] == BX;
      }
    } else {
      var i := if !Known(v) then (var j :| 0 <= j < |v| && v[j] == BX; j) else (var j :| 0 <= j < |u| && u[j] == BX; j);
      assert n[i] == BX;
      var k := if !Known(t) then (var j :| 0 <= j < |t| && t[j] == BX; j) else (var j :| 0 <= j < |f| && f[j] == BX; j);
      assert m[k] == BX;
    }
  }

  /** A number of the type spelled at its own width and extended is the number spelled wide. */
  lemma {:induction false} SpelledWide(n: int, w: nat, wide: nat, signed: bool)
    requires 1 <= w <= wide && InType(n, w, signed)
    ensures Resize(FromNat(n % Pow2(w), w), wide, signed) == FromNat(n % Pow2(wide), wide)
    ensures ToInt(FromNat(n % Pow2(w), w), signed) == n
  {
    hide ToNat, FromNat, Pow2;
    SpelledInt(n, w, signed);
    var v := FromNat(n % Pow2(w), w);
    var r := Resize(v, wide, signed);
    ExtendKeepsInt(v, wide, signed);
    ToFromSmall(n % Pow2(wide), wide);
    ToNatInjective(r, FromNat(n % Pow2(wide), wide));
  }

  lemma SpelledInt(n: int, w: nat, signed: bool)
    requires 1 <= w && InType(n, w, signed)
    ensures ToInt(FromNat(n % Pow2(w), w), signed) == n
  {
    hide ToNat, FromNat, Pow2;
    var m := n % Pow2(w);
    Doubles(w);
    if n < 0 { DivModUnique(n, Pow2(w), -1, n + Pow2(w)); } else { DivModUnique(n, Pow2(w), 0, n); }
    ToFromSmall(m, w);
    TopBit(FromNat(m, w));
  }

  lemma RemainderFits(x: int, y: int, w: nat, signed: bool)
    requires w >= 1 && InType(x, w, signed) && InType(y, w, signed) && y != 0
    ensures InType(Remainder(x, y), w, signed)
  {
    hide Pow2;
    var m := (if x < 0 then -x else x) % (if y < 0 then -y else y);
    var p := if x < 0 then -x else x;
    if p < (if y < 0 then -y else y) { SmallMod(p, if y < 0 then -y else y); }
  }

  lemma OfType(v: Vec, signed: bool)
    requires Known(v) && v != []
    ensures InType(ToInt(v, signed), |v|, signed)
  {
    hide ToNat, Pow2;
    Doubles(|v|);
    TopBit(v);
  }

  /** A remainder is no wider than its dividend, so the context does not reach it. */
  lemma {:induction false} ModWidens(l: Vec, r: Vec, x: Vec, y: Vec, signed: bool)
    requires |l| == |r| && |x| == |y| && 1 <= |x| <= |l| && Widens(l, x, signed) && Widens(r, y, signed)
    ensures Widens(Arith(Mod, l, r, |l|, signed), Arith(Mod, x, y, |x|, signed), signed)
  {
    hide ToNat, FromNat, Pow2, Resize, ToInt, Remainder;
    if Known(x) && Known(y) {
      ExtendKeepsInt(x, |l|, signed);
      ExtendKeepsInt(y, |l|, signed);
      ZeroInt(y, signed);
      ZeroInt(r, signed);
      if ToInt(y, signed) != 0 {
        OfType(x, signed);
        OfType(y, signed);
        var p, q := ToInt(x, signed), ToInt(y, signed);
        RemainderFits(p, q, |x|, signed);
        SpelledWide(Remainder(p, q), |x|, |l|, signed);
        if !signed { PlainMod(l, r); PlainMod(x, y); }
      } else {
        assert Unknown(|x|)[0] == BX && Unknown(|l|)[0] == BX;
      }
    } else {
      assert Unknown(|x|)[0] == BX && Unknown(|l|)[0] == BX;
    }
  }

  lemma ZeroInt(v: Vec, signed: bool)
    requires Known(v) && v != []
    ensures ToInt(v, signed) == 0 <==> ToNat(v) == 0
  {
    hide ToNat, Pow2;
    TopBit(v);
  }

  lemma PlainMod(l: Vec, r: Vec)
    requires |l| == |r| && Known(l) && Known(r) && ToNat(r) != 0 && ToInt(r, false) != 0
    ensures Arith(Mod, l, r, |l|, false) == FromNat(Remainder(ToInt(l, false), ToInt(r, false)) % Pow2(|l|), |l|)
  {
    hide ToNat, FromNat, Pow2;
    var x, y := ToNat(l), ToNat(r);
    assert Remainder(x, y) == x % y;
    ModBelow(x, y);
    SmallMod(x % y, Pow2(|l|));
  }

  lemma ModBelow(x: nat, y: nat)
    requires y > 0
    ensures x % y <= x
  {
    if x < y { SmallMod(x, y); }
  }

  /** What passes the check widens, in every context and every store. */
  lemma {:induction false} KeepsWidens(a: Arena, d: Design, st: Store, e: nat, w: nat, s: bool)
    requires e < |a| && Keeps(a, d, e) && w >= 1 && w >= ShapeOf(a, d, e).width
    ensures Widens(Eval(a, d, st, e, Max(w, 64), s), Eval(a, d, st, e, w, s), ShapeOf(a, d, e).signed && s)
    decreases e
  {
    hide Widens, ToNat, FromNat, Pow2, Merge, SelectBits, Copies, Compare, Arith;
    var S, wide := ShapeOf(a, d, e).signed && s, Max(w, 64);
    if w >= 64 {
      Itself(Eval(a, d, st, e, w, s), S);
    } else {
      match a[e]
      case Const(bits, _) => ResizeTwice(bits, w, wide, S);
      case Signal(net, word) =>
        ResizeTwice(ReadWord(d, st, net, if word.None? then Some(0) else IndexOf(EvalSelf(a, d, st, word.value))), w, wide, S);
      case Select(base, offset, width, kind) => SelectWidens(a, d, st, e, w, s);
      case Concat(parts) => ResizeTwice(EvalParts(a, d, st, parts, e), w, wide, false);
      case Replicate(count, value) =>
        ResizeTwice(Copies(EvalSelf(a, d, st, value), ConstFold(a, count, 0)), w, wide, false);
      case Binary(op, lhs, rhs) => BinaryWidens(a, d, st, e, w, s);
      case Ternary(cond, thenE, elseE) => TernaryWidens(a, d, st, e, w, s);
      case SysFunc(which, args) => ResizeTwice(EvalSelf(a, d, st, args[0]), w, wide, S);
      case _ =>
    }
  }

  lemma Itself(v: Vec, signed: bool)
    ensures Widens(v, v, signed)
  {
  }

  lemma {:induction false} SelectWidens(a: Arena, d: Design, st: Store, e: nat, w: nat, s: bool)
    requires e < |a| && a[e].Select? && 64 > w >= 1 && w >= ShapeOf(a, d, e).width
    ensures Widens(Eval(a, d, st, e, 64, s), Eval(a, d, st, e, w, s), false)
  {
    hide Widens;
    var width, kind := ConstFold(a, a[e].width, 1), a[e].kind;
    var off := IndexOf(EvalSelf(a, d, st, a[e].offset));
    var v := SelectBits(EvalSelf(a, d, st, a[e].base), off, width, kind);
    assert Eval(a, d, st, e, 64, s) == Resize(v, 64, false) && Eval(a, d, st, e, w, s) == Resize(v, w, false);
    if off.None? || off.value >= OFFSET_LIMIT { UnknownWidens(v, w, 64); } else { ResizeTwice(v, w, 64, false); }
  }

  lemma {:induction false} BinaryWidens(a: Arena, d: Design, st: Store, e: nat, w: nat, s: bool)
    requires e < |a| && a[e].Binary? && Keeps(a, d, e) && 64 > w >= 1 && w >= ShapeOf(a, d, e).width
    ensures Widens(Eval(a, d, st, e, 64, s), Eval(a, d, st, e, w, s), ShapeOf(a, d, e).signed && s)
    decreases e, 0
  {
    hide Widens, ToNat, FromNat, Pow2, Compare, Arith;
    var op, lhs, rhs, S := a[e].op, a[e].lhs, a[e].rhs, ShapeOf(a, d, e).signed && s;
    if op.LogAnd? {
      ResizeTwice([And(Truth(EvalSelf(a, d, st, lhs)), Truth(EvalSelf(a, d, st, rhs)))], w, 64, false);
    } else if op.Lt? || op.Le? || op.Ge? {
      var cw := Max(ShapeOf(a, d, lhs).width, ShapeOf(a, d, rhs).width);
      var cs := ShapeOf(a, d, lhs).signed && ShapeOf(a, d, rhs).signed;
      ResizeTwice([Compare(op, Eval(a, d, st, lhs, cw, cs), Eval(a, d, st, rhs, cw, cs), cs)], w, 64, false);
    } else {
      KeepsWidens(a, d, st, lhs, w, S);
      KeepsWidens(a, d, st, rhs, w, S);
      ModWidens(Eval(a, d, st, lhs, 64, S), Eval(a, d, st, rhs, 64, S), Eval(a, d, st, lhs, w, S), Eval(a, d, st, rhs, w, S), S);
    }
  }

  lemma {:induction false} TernaryWidens(a: Arena, d: Design, st: Store, e: nat, w: nat, s: bool)
    requires e < |a| && a[e].Ternary? && Keeps(a, d, e) && 64 > w >= 1 && w >= ShapeOf(a, d, e).width
    ensures Widens(Eval(a, d, st, e, 64, s), Eval(a, d, st, e, w, s), ShapeOf(a, d, e).signed && s)
    decreases e, 0
  {
    hide Widens, Merge;
    var S := ShapeOf(a, d, e).signed && s;
    KeepsWidens(a, d, st, a[e].thenE, w, S);
    KeepsWidens(a, d, st, a[e].elseE, w, S);
    MergeWidens(Eval(a, d, st, a[e].thenE, 64, S), Eval(a, d, st, a[e].elseE, 64, S),
                Eval(a, d, st, a[e].thenE, w, S), Eval(a, d, st, a[e].elseE, w, S), S);
  }

  // ---- the key found, and the key asked for ----

  /** The number the low 64 bits of the index spell: its own value, for every width and sign a key can have. */
  function LowKey(v: Vec, signed: bool): int { CastInt(ToInt(v, signed), 64, true) }

  /** An index that passes the check is stored as the number its own low 64 bits spell. */
  lemma {:induction false} KeptKey(a: Arena, d: Design, st: Store, e: nat)
    requires e < |a| && Keeps(a, d, e) && ShapeOf(a, d, e).width >= 1
    ensures
      var v, s := EvalSelf(a, d, st, e), ShapeOf(a, d, e).signed;
      KeyOf(a, d, st, e) == if Known(v) then Some(LowKey(v, s)) else None
  {
    hide ToNat, Pow2, CastInt, Resize, ToInt;
    var v, s := EvalSelf(a, d, st, e), ShapeOf(a, d, e).signed;
    KeepsWidens(a, d, st, e, |v|, s);
    var wide := Eval(a, d, st, e, Max(|v|, 64), s);
    if Known(v) {
      ExtendKeepsInt(v, |wide|, s);
      CastOfBits(wide, s, 64, true);
    }
  }

  /** Casting to a type leaves exactly its own integers alone. */
  lemma CastLeaves(n: int, w: nat, signed: bool)
    requires w >= 1
    ensures InType(CastInt(n, w, signed), w, signed)
    ensures CastInt(n, w, signed) == n <==> InType(n, w, signed)
  {
    hide Pow2;
    Doubles(w);
    if InType(n, w, signed) {
      if n < 0 { DivModUnique(n, Pow2(w), -1, n + Pow2(w)); } else { DivModUnique(n, Pow2(w), 0, n); }
    }
  }

  /** Casting to a type and then to a narrower one is casting to the narrower one. */
  lemma CastTwice(n: int, wide: nat, s: bool, w: nat, signed: bool)
    requires 1 <= w <= wide
    ensures CastInt(CastInt(n, wide, s), w, signed) == CastInt(n, w, signed)
  {
    hide Pow2, CastInt;
    var k := WholeTurns(n, wide, s);
    Pow2Add(wide - w, w);
    MulAssoc(k, Pow2(wide - w), Pow2(w));
    DropMultiple(n, k * Pow2(wide - w), Pow2(w));
    CastByRemainder(CastInt(n, wide, s), n, w, signed);
  }

  lemma CastByRemainder(x: int, y: int, w: nat, signed: bool)
    requires x % Pow2(w) == y % Pow2(w)
    ensures CastInt(x, w, signed) == CastInt(y, w, signed)
  {
  }

  lemma WholeTurns(n: int, w: nat, s: bool) returns (k: int)
    ensures CastInt(n, w, s) == n - k * Pow2(w)
  {
    hide Pow2;
    var q, r, p := n / Pow2(w), n % Pow2(w), Pow2(w);
    assert n == p * q + r;
    k := if CastInt(n, w, s) == r then q else q + 1;
    MulDistributes(p, q, 1);
    Commute(k, p);
  }

  /** The key of a keyword atom is the cast key exactly when the index is unknown, or its low 64 bits spell an
      integer of the key type; what they spell is the index itself unless it is too wide for any key type. */
  lemma {:induction false} KeywordKeyExactly(a: Arena, d: Design, st: Store, e: nat, w: nat)
    requires e < |a| && Keeps(a, d, e) && ShapeOf(a, d, e).width >= 1 && 1 <= w <= 64
    ensures
      var v, s := EvalSelf(a, d, st, e), ShapeOf(a, d, e).signed;
      KeyOf(a, d, st, e) == CastKey(v, s, KeywordKey(w)) <==> (Known(v) ==> InType(LowKey(v, s), w, true))
    ensures
      var v, s := EvalSelf(a, d, st, e), ShapeOf(a, d, e).signed;
      Known(v) && Admitted(|v|, s) ==> LowKey(v, s) == ToInt(v, s)
  {
    hide ToNat, Pow2, CastInt, ToInt, Eval, KeyOf, InType;
    var v, s := EvalSelf(a, d, st, e), ShapeOf(a, d, e).signed;
    KeptKey(a, d, st, e);
    if Known(v) {
      var n := ToInt(v, s);
      CastTwice(n, 64, true, w, true);
      CastLeaves(LowKey(v, s), w, true);
      if Admitted(|v|, s) {
        OfType(v, s);
        InSigned(n, |v|, s);
        CastLeaves(n, 64, true);
      }
    }
  }

  lemma InSigned(n: int, w: nat, s: bool)
    requires 1 <= w && Admitted(w, s) && InType(n, w, s)
    ensures InType(n, 64, true)
  {
    hide Pow2;
    Pow2Monotone(if s then w - 1 else w, 63);
  }

  // ---- sums ----

  /** The exact result of the operation. */
  function Exact(op: BinOp, x: int, y: int): int {
    if op.Add? then x + y else if op.Sub? then x - y else x * y
  }

  /** A sum of known operands spells the exact result modulo its width. */
  lemma {:induction false} ArithSpellsExact(op: BinOp, l: Vec, r: Vec, signed: bool)
    requires (op.Add? || op.Sub? || op.Mul?) && |l| == |r| && l != [] && Known(l) && Known(r)
    ensures Arith(op, l, r, |l|, signed) == FromNat(Exact(op, ToInt(l, signed), ToInt(r, signed)) % Pow2(|l|), |l|)
  {
    hide ToNat, FromNat, Pow2, ToInt;
    var p := Pow2(|l|);
    var x: int, y: int := ToNat(l), ToNat(r);
    var i := IntTurns(l, signed);
    var j := IntTurns(r, signed);
    if op.Add? {
      MulDistributes(p, i, j);
      SameRest(x + y, ToInt(l, signed) + ToInt(r, signed), p, i + j);
    } else if op.Sub? {
      MulDistributes(p, i, j);
      SameRest(x - y, ToInt(l, signed) - ToInt(r, signed), p, i - j);
    } else {
      ProductTurns(ToInt(l, signed), ToInt(r, signed), p, i, j);
      SameRest(x * y, ToInt(l, signed) * ToInt(r, signed), p,
               ToInt(l, signed) * j + ToInt(r, signed) * i + p * (i * j));
    }
  }

  lemma IntTurns(v: Vec, signed: bool) returns (k: int)
    ensures ToNat(v) == ToInt(v, signed) + Pow2(|v|) * k
  {
    k := if signed && v != [] && v[|v| - 1] == B1 then 1 else 0;
  }

  lemma SameRest(x: int, y: int, p: int, k: int)
    requires p > 0 && x == y + p * k
    ensures x % p == y % p
  {
    var q, r := y / p, y % p;
    MulDistributes(p, q, k);
    DivModUnique(x, p, q + k, r);
  }

  lemma ProductTurns(x: int, y: int, p: int, i: int, j: int)
    ensures (x + p * i) * (y + p * j) == x * y + p * (x * j + y * i + p * (i * j))
  {
  }

  /** What the operation's operands are worth at its own width. */
  function Operand(a: Arena, d: Design, st: Store, e: nat, x: nat): Vec
    requires e < |a| && x < |a|
  {
    Eval(a, d, st, x, ShapeOf(a, d, e).width, ShapeOf(a, d, e).signed)
  }

  /** The engine's key of a sum is the exact sum, where its own value wraps at its own width. So under a keyword
      atom it is the cast key exactly when the sum fits the key type, and fits its own width if that is narrower. */
  lemma {:induction false} SumKeyExactly(a: Arena, d: Design, st: Store, e: nat, w: nat)
    requires e < |a| && a[e].Binary? && (a[e].op.Add? || a[e].op.Sub? || a[e].op.Mul?)
    requires 1 <= ShapeOf(a, d, e).width < 64 && Keeps(a, d, a[e].lhs) && Keeps(a, d, a[e].rhs) && 1 <= w <= 64
    requires Known(Operand(a, d, st, e, a[e].lhs)) && Known(Operand(a, d, st, e, a[e].rhs))
    ensures
      var sh := ShapeOf(a, d, e);
      var n := Exact(a[e].op, ToInt(Operand(a, d, st, e, a[e].lhs), sh.signed), ToInt(Operand(a, d, st, e, a[e].rhs), sh.signed));
      InType(n, 64, true) ==>
        KeyOf(a, d, st, e) == Some(n)
        && CastKey(EvalSelf(a, d, st, e), sh.signed, KeywordKey(w)) == Some(CastInt(CastInt(n, sh.width, sh.signed), w, true))
        && (KeyOf(a, d, st, e) == CastKey(EvalSelf(a, d, st, e), sh.signed, KeywordKey(w))
            <==> InType(n, w, true) && (w <= sh.width || InType(n, sh.width, sh.signed)))
  {
    hide ToNat, FromNat, Pow2, CastInt, ToInt, Eval, InType, Keeps, Exact, Arith;
    var sh := ShapeOf(a, d, e);
    var l, r := Operand(a, d, st, e, a[e].lhs), Operand(a, d, st, e, a[e].rhs);
    var n := Exact(a[e].op, ToInt(l, sh.signed), ToInt(r, sh.signed));
    if InType(n, 64, true) {
      SumSpelled(a, d, st, e);
      var wide := FromNat(n % Pow2(64), 64);
      assert wide[..64] == wide && Eval(a, d, st, e, Max(sh.width, 64), sh.signed) == wide;
      CastLeaves(n, 64, true);
      SpelledCast(n, 64, true);
      SpelledCast(n, sh.width, sh.signed);
      CastSum(n, sh.width, sh.signed, w);
    }
  }

  /** The sum at its own width and in the key's 64 bits. */
  lemma {:induction false} SumSpelled(a: Arena, d: Design, st: Store, e: nat)
    requires e < |a| && a[e].Binary? && (a[e].op.Add? || a[e].op.Sub? || a[e].op.Mul?)
    requires 1 <= ShapeOf(a, d, e).width < 64 && Keeps(a, d, a[e].lhs) && Keeps(a, d, a[e].rhs)
    requires Known(Operand(a, d, st, e, a[e].lhs)) && Known(Operand(a, d, st, e, a[e].rhs))
    ensures
      var sh := ShapeOf(a, d, e);
      var n := Exact(a[e].op, ToInt(Operand(a, d, st, e, a[e].lhs), sh.signed), ToInt(Operand(a, d, st, e, a[e].rhs), sh.signed));
      EvalSelf(a, d, st, e) == FromNat(n % Pow2(sh.width), sh.width)
      && Eval(a, d, st, e, 64, sh.signed) == FromNat(n % Pow2(64), 64)
  {
    hide ToNat, FromNat, Pow2, ToInt, Keeps, Exact, Arith, Resize;
    var sh, op, lhs, rhs := ShapeOf(a, d, e), a[e].op, a[e].lhs, a[e].rhs;
    var w, s := sh.width, sh.signed;
    var l, r := Operand(a, d, st, e, lhs), Operand(a, d, st, e, rhs);
    var x, y := Eval(a, d, st, lhs, 64, s), Eval(a, d, st, rhs, 64, s);
    KeepsWidens(a, d, st, lhs, w, s);
    KeepsWidens(a, d, st, rhs, w, s);
    ExtendKeepsInt(l, 64, s);
    ExtendKeepsInt(r, 64, s);
    assert EvalSelf(a, d, st, e) == Arith(op, l, r, w, s);
    assert Eval(a, d, st, e, 64, s) == Arith(op, x, y, 64, s);
    ArithSpellsExact(op, l, r, s);
    ArithSpellsExact(op, x, y, s);
  }

  lemma SpelledCast(n: int, w: nat, s: bool)
    requires w >= 1
    ensures ToInt(FromNat(n % Pow2(w), w), s) == CastInt(n, w, s)
  {
    hide ToNat, FromNat, Pow2;
    Doubles(w);
    ToFromSmall(n % Pow2(w), w);
    TopBit(FromNat(n % Pow2(w), w));
  }

  lemma CastSum(n: int, own: nat, s: bool, w: nat)
    requires own >= 1 && w >= 1
    ensures n == CastInt(CastInt(n, own, s), w, true) <==> InType(n, w, true) && (w <= own || InType(n, own, s))
  {
    hide Pow2, CastInt, InType;
    var m := CastInt(n, own, s);
    CastLeaves(n, own, s);
    CastLeaves(n, w, true);
    CastLeaves(m, w, true);
    if w <= own {
      CastTwice(n, own, s, w, true);
    } else if n == CastInt(m, w, true) {
      OwnInKey(m, own, s, w);
    }
  }

  lemma OwnInKey(m: int, own: nat, s: bool, w: nat)
    requires 1 <= own < w && InType(m, own, s)
    ensures InType(m, w, true)
  {
    hide Pow2;
    Pow2Monotone(if s then own - 1 else own, w - 1);
  }

  // ---- keys that are not cast ----

  /** `[byte]`, indexed by an unsigned 8-bit 200: the key stored is 200, the key asked for -56. */
  lemma UnsignedByteKey(d: Design, st: Store)
    ensures
      var a: Arena := [Const(FromNat(200, 8), false)];
      KeyOf(a, d, st, 0) == Some(200) && CastKey(EvalSelf(a, d, st, 0), false, KeywordKey(8)) == Some(-56)
  {
    hide FromNat, ToNat, Pow2;
    var a: Arena := [Const(FromNat(200, 8), false)];
    PowEight();
    WideNumber(200, 8);
    assert EvalSelf(a, d, st, 0) == FromNat(200, 8);
    KeptKey(a, d, st, 0);
    KeywordKeyExactly(a, d, st, 0, 8);
  }

  /** `[byte]`, indexed by the sum of the bytes 200 and 100: the key stored is 300, the key asked for 44. */
  lemma ByteSumKey(d: Design, st: Store)
    ensures
      var a: Arena := [Const(FromNat(200, 8), false), Const(FromNat(100, 8), false), Binary(Add, 0, 1)];
      KeyOf(a, d, st, 2) == Some(300) && CastKey(EvalSelf(a, d, st, 2), false, KeywordKey(8)) == Some(44)
      && !Keeps(a, d, 2)
  {
    hide FromNat, ToNat, Pow2;
    var a: Arena := [Const(FromNat(200, 8), false), Const(FromNat(100, 8), false), Binary(Add, 0, 1)];
    PowEight();
    WideNumber(200, 8);
    WideNumber(100, 8);
    assert Pow2(63) > 300 by { Pow2Monotone(32, 63); Pow2Word(); }
    assert ShapeOf(a, d, 2) == Shape(8, false);
    assert Operand(a, d, st, 2, 0) == FromNat(200, 8) && Operand(a, d, st, 2, 1) == FromNat(100, 8);
    SumKeyExactly(a, d, st, 2, 8);
    assert Exact(Add, 200, 100) == 300 && InType(300, 64, true);
    assert CastInt(300, 8, false) == 44 && CastInt(44, 8, true) == 44;
  }
}
