/** The integral key type of an associative array: folding the declared type, and converting an index
    expression to it before the engine reads it as a signed 64-bit key. */
module AssocKey {
  import opened Bits
  import opened Wrappers
  import opened Ir
  import opened RowMajor
  import opened Words
  import opened Emitter
  import opened IndexSeal
  import opened Geometry

  datatype KeyShape = KeyShape(width: nat, signed: bool, legacy: bool)

  // ---- the declared key type ----

  /** The base of a key type: an atom of fixed width, or a vector of folded packed ranges. */
  datatype KeyBase = Atom(width: nat, keyword: bool) | Vector(ranges: seq<Option<(int, int)>>)

  datatype KeyType = KeyType(base: KeyBase, signed: bool, named: bool, signKeyword: bool)

  function RangeSize(r: (int, int)): nat { (if r.0 < r.1 then r.1 - r.0 else r.0 - r.1) + 1 }

  /** The bits of a vector, as one number. */
  function VectorBits(ranges: seq<Option<(int, int)>>): nat
    requires forall k :: 0 <= k < |ranges| ==> ranges[k].Some?
  {
    if ranges == [] then 1 else RangeSize(ranges[0].value) * VectorBits(ranges[1..])
  }

  predicate Folds(b: KeyBase) {
    b.Vector? ==> forall k :: 0 <= k < |b.ranges| ==> b.ranges[k].Some?
  }

  function BaseBits(b: KeyBase): nat
    requires Folds(b)
  {
    if b.Atom? then b.width else VectorBits(b.ranges)
  }

  /** The widths the signed 64-bit key domain holds exactly. */
  predicate Admitted(width: nat, signed: bool) { width < 64 || (width == 64 && signed) }

  lemma {:induction false} VectorBitsSnoc(ranges: seq<Option<(int, int)>>, k: nat)
    requires k < |ranges| && forall j :: 0 <= j < |ranges| ==> ranges[j].Some?
    ensures VectorBits(ranges[..k + 1]) == VectorBits(ranges[..k]) * RangeSize(ranges[k].value)
    ensures VectorBits(ranges[..k]) >= 1
  {
    if k == 0 {
      assert ranges[..1] == [ranges[0]] && ranges[..1][1..] == [];
    } else {
      var tail := ranges[1..];
      assert ranges[..k + 1][1..] == tail[..k] && ranges[..k][1..] == tail[..k - 1];
      VectorBitsSnoc(tail, k - 1);
      var s := RangeSize(ranges[0].value);
      MulAssoc(s, VectorBits(tail[..k - 1]), RangeSize(ranges[k].value));
      MulBoundRight(s, VectorBits(tail[..k - 1]));
    }
  }

  predicate Between(lo: int, n: int, hi: int) { lo <= n <= hi }

  function Numbers(lo: int, hi: int): set<int> { set n: int | lo <= n <= hi && Between(lo, n, hi) }

  /** The numbers from one bound of a range to the other, both included. */
  function NumbersOf(r: (int, int)): set<int> { if r.0 <= r.1 then Numbers(r.0, r.1) else Numbers(r.1, r.0) }

  /** The size of a range counts them. */
  lemma {:induction false} RangeSizeCounts(r: (int, int))
    ensures RangeSize(r) == |NumbersOf(r)|
  {
    BetweenCounts(if r.0 <= r.1 then r.0 else r.1, if r.0 <= r.1 then r.1 else r.0);
  }

  lemma {:induction false} BetweenCounts(lo: int, hi: int)
    requires lo <= hi
    ensures |Numbers(lo, hi)| == hi - lo + 1
    decreases hi - lo
  {
    if lo == hi {
      assert Numbers(lo, hi) == {lo};
    } else {
      BetweenCounts(lo, hi - 1);
      assert Numbers(lo, hi) == Numbers(lo, hi - 1) + {hi};
    }
  }

  /** One bit stands for one way to pick an index in every range. */
  lemma {:induction false} KeyBitsExactly(ranges: seq<Option<(int, int)>>)
    requires forall k :: 0 <= k < |ranges| ==> ranges[k].Some?
    ensures ranges == [] ==> VectorBits(ranges) == 1
    ensures ranges != [] ==>
      VectorBits(ranges) == |NumbersOf(ranges[0].value)| * VectorBits(ranges[1..])
  {
    if ranges != [] { RangeSizeCounts(ranges[0].value); }
  }

  /** Fold a typed key: refused when a bound is not constant, or the domain cannot hold the type. The
      width is multiplied out in 64 saturating bits. */
  method FoldKeyShape(el: Elaborator, kt: KeyType) returns (r: Option<KeyShape>)
    modifies el`errors
    ensures r.Some? <==> Folds(kt.base) && Admitted(BaseBits(kt.base), kt.signed)
    ensures r.Some? ==> r.value == KeyShape(BaseBits(kt.base), kt.signed,
                                          !kt.named && !kt.signKeyword && kt.signed && kt.base.Atom? && kt.base.keyword)
    ensures el.errors == old(el.errors) + if r.Some? then 0 else 1
  {
    var width: nat;
    if kt.base.Atom? {
      width := kt.base.width;
    } else {
      var ranges := kt.base.ranges;
      width := 1;
      var k := 0;
      while k < |ranges|
        invariant 0 <= k <= |ranges| && forall j :: 0 <= j < k ==> ranges[j].Some?
        invariant width == Min(VectorBits(ranges[..k]), U64_MAX) && el.errors == old(el.errors)
      {
        if ranges[k].None? {
          el.Error();
          return None;
        }
        var s := Min(RangeSize(ranges[k].value), U64_MAX);
        VectorBitsSnoc(ranges[..k + 1], k);
        assert ranges[..k + 1][..k] == ranges[..k] && ranges[..k + 1][..k + 1] == ranges[..k + 1];
        SaturatedProduct(VectorBits(ranges[..k]), RangeSize(ranges[k].value));
        width := SatMul(width, s);
        k := k + 1;
      }
      assert ranges[..|ranges|] == ranges;
    }
    if width > 64 || (width == 64 && !kt.signed) {
      el.Error();
      return None;
    }
    r := Some(KeyShape(width, kt.signed, !kt.named && !kt.signKeyword && kt.signed && kt.base.Atom? && kt.base.keyword));
  }

  /** Saturating each factor and the product is saturating the product. */
  lemma SaturatedProduct(x: nat, y: nat)
    requires x >= 1 && y >= 1
    ensures SatMul(Min(x, U64_MAX), Min(y, U64_MAX)) == Min(x * y, U64_MAX)
  {
    MulBoundRight(y, x);
    MulBoundRight(x, y);
    Commute(x, y);
    MulBoundRight(Min(y, U64_MAX), Min(x, U64_MAX));
    MulBoundRight(Min(x, U64_MAX), Min(y, U64_MAX));
    Commute(Min(x, U64_MAX), Min(y, U64_MAX));
  }

  // ---- the key the engine reads ----

  /** The engine's key: the expression widened to 64 bits by its own sign, as a signed number; none
      when any bit is unknown (IEEE 1800-2017 section 7.8.6). */
  function KeyOf(a: Arena, d: Design, st: Store, e: nat): Option<int>
    requires e < |a|
  {
    var sh := ShapeOf(a, d, e);
    var v := Eval(a, d, st, e, Max(sh.width, 64), sh.signed);
    if Known(v) then Some(ToInt(v[..64], true)) else None
  }

  /** A value cast to an integral type: its low bits, read with the type's sign. */
  function CastInt(n: int, width: nat, signed: bool): int {
    var m := n % Pow2(width);
    if signed && width >= 1 && m >= Pow2(width - 1) then m - Pow2(width) else m
  }

  /** The key type's value of an index expression (IEEE 1800-2017 section 7.8.4). */
  function CastKey(v: Vec, signed: bool, k: KeyShape): Option<int> {
    if Known(v) then Some(CastInt(ToInt(v, signed), k.width, k.signed)) else None
  }

  /** The cast value is the integer the low `w` bits spell. */
  lemma CastOfBits(v: Vec, signed: bool, w: nat, ks: bool)
    requires Known(v) && 1 <= w <= |v|
    ensures Known(v[..w]) && ToInt(v[..w], ks) == CastInt(ToInt(v, signed), w, ks)
  {
    hide ToNat, Pow2;
    var lo := v[..w];
    ToNatTruncate(v, w);
    TopBit(lo);
    if signed && v[|v| - 1] == B1 {
      Pow2Add(|v| - w, w);
      DropMultiple(ToNat(v), Pow2(|v| - w), Pow2(w));
    }
  }

  lemma DropMultiple(x: int, k: int, m: int)
    requires m > 0
    ensures (x - k * m) % m == x % m
  {
    var q, r := x / m, x % m;
    MulDistributes(m, q, k);
    Commute(k, m);
    DivModUnique(x - k * m, m, q - k, r);
  }

  /** A type at least as wide holds the value unchanged, unless it drops the sign. */
  lemma CastWider(v: Vec, signed: bool, w: nat, ks: bool)
    requires Known(v) && v != [] && |v| < w && (!signed || ks)
    ensures CastInt(ToInt(v, signed), w, ks) == ToInt(v, signed)
  {
    hide ToNat, Pow2;
    Pow2Monotone(|v|, w - 1);
    TopBit(v);
    assert Pow2(w) == 2 * Pow2(w - 1) && Pow2(|v|) == 2 * Pow2(|v| - 1) by { Doubles(w); Doubles(|v|); }
    var n := ToInt(v, signed);
    if n < 0 {
      DivModUnique(n, Pow2(w), -1, n + Pow2(w));
    } else {
      DivModUnique(n, Pow2(w), 0, n);
    }
  }

  lemma Doubles(w: nat)
    requires w >= 1
    ensures Pow2(w) == 2 * Pow2(w - 1)
  {
  }

  /** A sealed key of at most 64 bits reads back as the integer its operand's bits spell under the seal's sign. */
  lemma SealedKey(a: Arena, d: Design, st: Store, e: nat)
    requires e < |a| && a[e].SysFunc? && !a[e].which.OtherFunc? && |a[e].args| == 1
    requires 1 <= ShapeOf(a, d, a[e].args[0]).width && Admitted(ShapeOf(a, d, a[e].args[0]).width, a[e].which.Signed?)
    ensures
      var v := EvalSelf(a, d, st, a[e].args[0]);
      KeyOf(a, d, st, e) == if Known(v) then Some(ToInt(v, a[e].which.Signed?)) else None
  {
    var v := EvalSelf(a, d, st, a[e].args[0]);
    var s := a[e].which.Signed?;
    var r := Resize(v, 64, s);
    assert Eval(a, d, st, e, 64, s) == r;
    WidenedKey(v, s);
    assert r[..64] == r;
  }

  lemma WidenedKey(v: Vec, s: bool)
    requires v != [] && Admitted(|v|, s)
    ensures Known(Resize(v, 64, s)) == Known(v)
    ensures Known(v) ==> ToInt(Resize(v, 64, s), true) == ToInt(v, s)
  {
    hide ToNat, Pow2;
    var r := Resize(v, 64, s);
    ExtensionAppends(v, 64, s);
    if Known(v) {
      ExtendKeepsInt(v, 64, s);
      if !s {
        assert r[63] == B0;
        ExtensionNat(v, 64, false);
      }
    } else {
      var i :| 0 <= i < |v| && v[i] == BX;
      assert r[i] == BX;
    }
  }

  // ---- can an expression be unknown? ----

  /** The conservative analysis: `false` only when the shape proves every bit known. Node kinds this
      model does not interpret answer true. */
  predicate MayBeUnknown(a: Arena, twoState: set<nat>, e: nat)
    requires e < |a|
    decreases e, 1
  {
    match a[e]
    case Const(bits, _) => !Known(bits)
    case Signal(net, word) => word.Some? || net !in twoState
    case Concat(parts) => SomeUnknown(a, twoState, parts, e)
    case Replicate(_, value) => MayBeUnknown(a, twoState, value)
    case Binary(op, lhs, rhs) =>
      op.Mod? || op.OtherBin? || MayBeUnknown(a, twoState, lhs) || MayBeUnknown(a, twoState, rhs)
    case Ternary(cond, thenE, elseE) =>
      MayBeUnknown(a, twoState, cond) || MayBeUnknown(a, twoState, thenE) || MayBeUnknown(a, twoState, elseE)
    case _ => true
  }

  predicate SomeUnknown(a: Arena, twoState: set<nat>, parts: seq<nat>, bound: nat)
    requires bound <= |a| && Below(parts, bound)
    decreases bound, 0, |parts|
  {
    parts != [] && (MayBeUnknown(a, twoState, parts[0]) || SomeUnknown(a, twoState, parts[1..], bound))
  }

  /** The stores of a design: a two-state net's whole value has no unknown bit. */
  predicate TwoStateHolds(d: Design, st: Store, twoState: set<nat>) {
    forall net :: net in twoState ==> Known(ReadWord(d, st, net, Some(0)))
  }

  lemma ResizeKnown(v: Vec, w: nat, signed: bool)
    requires Known(v)
    ensures Known(Resize(v, w, signed))
  {
    if w > |v| { ExtensionAppends(v, w, signed); }
  }

  lemma {:induction false} CopiesKnown(v: Vec, n: nat)
    requires Known(v)
    ensures Known(Copies(v, n))
  {
    if n != 0 { CopiesKnown(v, n - 1); }
  }

  /** The analysis is sound in every context. */
  lemma {:induction false} NeverUnknown(a: Arena, d: Design, st: Store, twoState: set<nat>, e: nat, w: nat, signed: bool)
    requires e < |a| && !MayBeUnknown(a, twoState, e)
    requires forall net :: net in twoState ==> Known(ReadWord(d, st, net, Some(0)))
    ensures Known(Eval(a, d, st, e, w, signed))
    decreases e, 1
  {
    hide ToNat, FromNat, Pow2, Resize, Copies;
    var W := Max(ShapeOf(a, d, e).width, w);
    var S := ShapeOf(a, d, e).signed && signed;
    match a[e]
    case Const(bits, _) => ResizeKnown(bits, W, S);
    case Signal(net, _) => ResizeKnown(ReadWord(d, st, net, Some(0)), W, S);
    case Concat(parts) =>
      PartsNeverUnknown(a, d, st, twoState, parts, e);
      ResizeKnown(EvalParts(a, d, st, parts, e), W, false);
    case Replicate(count, value) =>
      NeverUnknownSelf(a, d, st, twoState, value);
      CopiesKnown(EvalSelf(a, d, st, value), ConstFold(a, count, 0));
      ResizeKnown(Copies(EvalSelf(a, d, st, value), ConstFold(a, count, 0)), W, false);
    case Binary(op, lhs, rhs) =>
      if op.LogAnd? {
        NeverUnknownSelf(a, d, st, twoState, lhs);
        NeverUnknownSelf(a, d, st, twoState, rhs);
        ResizeKnown([And(Truth(EvalSelf(a, d, st, lhs)), Truth(EvalSelf(a, d, st, rhs)))], W, false);
      } else if op.Lt? || op.Le? || op.Ge? {
        var cw := Max(ShapeOf(a, d, lhs).width, ShapeOf(a, d, rhs).width);
        var cs := ShapeOf(a, d, lhs).signed && ShapeOf(a, d, rhs).signed;
        NeverUnknown(a, d, st, twoState, lhs, cw, cs);
        NeverUnknown(a, d, st, twoState, rhs, cw, cs);
        ResizeKnown([Compare(op, Eval(a, d, st, lhs, cw, cs), Eval(a, d, st, rhs, cw, cs), cs)], W, false);
      } else {
        NeverUnknown(a, d, st, twoState, lhs, W, S);
        NeverUnknown(a, d, st, twoState, rhs, W, S);
      }
    case Ternary(cond, thenE, elseE) =>
      NeverUnknownSelf(a, d, st, twoState, cond);
      NeverUnknown(a, d, st, twoState, thenE, W, S);
      NeverUnknown(a, d, st, twoState, elseE, W, S);
  }

  lemma {:induction false} NeverUnknownSelf(a: Arena, d: Design, st: Store, twoState: set<nat>, e: nat)
    requires e < |a| && TwoStateHolds(d, st, twoState) && !MayBeUnknown(a, twoState, e)
    ensures Known(EvalSelf(a, d, st, e))
    decreases e, 2
  {
    NeverUnknown(a, d, st, twoState, e, ShapeOf(a, d, e).width, ShapeOf(a, d, e).signed);
  }

  lemma {:induction false} PartsNeverUnknown(a: Arena, d: Design, st: Store, twoState: set<nat>, parts: seq<nat>, bound: nat)
    requires bound <= |a| && Below(parts, bound) && TwoStateHolds(d, st, twoState)
    requires !SomeUnknown(a, twoState, parts, bound)
    ensures Known(EvalParts(a, d, st, parts, bound))
    decreases bound, 0, |parts|
  {
    if parts != [] {
      NeverUnknownSelf(a, d, st, twoState, parts[0]);
      PartsNeverUnknown(a, d, st, twoState, parts[1..], bound);
    }
  }

  // ---- the conversion ----

  /** What the elaborator knows about the index expression and the handle it indexes. */
  datatype KeyFacts = KeyFacts(placeholder: bool, bareFill: bool, widthKnown: bool)

  method Seal(el: Elaborator, e: nat, signed: bool) returns (r: nat)
    requires e < |el.exprs|
    modifies el`exprs
    ensures Extends(old(el.exprs), el.exprs) && r < |el.exprs|
    ensures el.exprs == old(el.exprs) + [SysFunc(if signed then Signed else Unsigned, [e])] && r == |old(el.exprs)|
  {
    r := el.Push(SysFunc(if signed then Signed else Unsigned, [e]));
  }

  lemma CastSelf(a: Arena, d: Design, st: Store, e: nat, arg: nat, signed: bool)
    requires e < |a| && arg < e && a[e] == SysFunc(if signed then Signed else Unsigned, [arg])
    requires ShapeOf(a, d, arg).width >= 1
    ensures ShapeOf(a, d, e) == Shape(ShapeOf(a, d, arg).width, signed)
    ensures EvalSelf(a, d, st, e) == EvalSelf(a, d, st, arg)
    ensures Eval(a, d, st, e, ShapeOf(a, d, arg).width, false) == EvalSelf(a, d, st, arg)
  {
    var v := EvalSelf(a, d, st, arg);
    assert Resize(v, |v|, true) == v && Resize(v, |v|, false) == v;
  }

  /** The remainder by 2^kw keeps the low `kw` bits and spreads any unknown one. */
  lemma RemainderBits(v: Vec, m: Vec, kw: nat)
    requires 1 <= kw < |v| == |m| && Known(m) && ToNat(m) == Pow2(kw)
    ensures
      var r := Arith(Mod, v, m, |v|, false);
      if Known(v) then Known(r) && r[..kw] == v[..kw] else r == Unknown(|v|)
  {
    hide ToNat, FromNat, Pow2;
    if Known(v) {
      var r := Arith(Mod, v, m, |v|, false);
      var x := ToNat(v) % Pow2(kw);
      assert r == FromNat(x, |v|);
      Pow2Monotone(kw, |v|);
      ToFromSmall(x, |v|);
      ToNatTruncate(r, kw);
      ToNatTruncate(v, kw);
      SmallMod(x, Pow2(kw));
      ToNatInjective(r[..kw], v[..kw]);
    }
  }

  lemma ModulusConst(kw: nat, w: nat)
    requires kw < w
    ensures
      var m := Resize(FromNat(Pow2(kw), kw + 1), w, false);
      Known(m) && ToNat(m) == Pow2(kw)
  {
    hide ToNat, FromNat;
    Doubles(kw + 1);
    ToFromSmall(Pow2(kw), kw + 1);
    ExtensionNat(FromNat(Pow2(kw), kw + 1), w, false);
    ExtensionAppends(FromNat(Pow2(kw), kw + 1), w, false);
  }

  /** `$unsigned(key) % 2^kw`. */
  lemma RemainderNode(a: Arena, d: Design, st: Store, e: nat, key: nat, kw: nat)
    requires e < |a| && a[e].Binary? && a[e].op.Mod? && a[e].lhs > key
    requires a[a[e].lhs] == SysFunc(Unsigned, [key])
    requires a[a[e].rhs] == Const(FromNat(Pow2(kw), kw + 1), false)
    requires 1 <= kw <= 64 && kw < ShapeOf(a, d, key).width
    ensures ShapeOf(a, d, e) == Shape(ShapeOf(a, d, key).width, false)
    ensures
      var v, r := EvalSelf(a, d, st, key), EvalSelf(a, d, st, e);
      if Known(v) then Known(r) && r[..kw] == v[..kw] else r == Unknown(|v|)
  {
    hide ToNat, FromNat, Pow2;
    var u, m, w := a[e].lhs, a[e].rhs, ShapeOf(a, d, key).width;
    CastSelf(a, d, st, u, key, false);
    assert ShapeOf(a, d, m) == Shape(kw + 1, false);
    assert ShapeOf(a, d, e) == Shape(w, false);
    ModulusConst(kw, w);
    assert Eval(a, d, st, m, w, false) == Resize(FromNat(Pow2(kw), kw + 1), w, false);
    assert EvalSelf(a, d, st, e) == Arith(Mod, Eval(a, d, st, u, w, false), Eval(a, d, st, m, w, false), w, false);
    RemainderBits(EvalSelf(a, d, st, key), Resize(FromNat(Pow2(kw), kw + 1), w, false), kw);
  }

  /** `Select(e, 0, n)`: the unsigned low `n` bits. */
  method SelectLow(el: Elaborator, e: nat, n: nat) returns (r: nat)
    requires e < |el.exprs| && 1 <= n <= 64 && n < ShapeOf(el.exprs, el.design, e).width
    modifies el`exprs
    ensures Extends(old(el.exprs), el.exprs) && r < |el.exprs|
    ensures ShapeOf(el.exprs, el.design, r).width == n
    ensures forall st: Store :: EvalSelf(el.exprs, el.design, st, r) == EvalSelf(old(el.exprs), el.design, st, e)[..n]
  {
    hide ToNat, FromNat, Pow2;
    ghost var a0, d := el.exprs, el.design;
    var off := el.ConstU32(0, 32);
    var wid := el.ConstU32(n, 32);
    r := el.Push(Select(e, off, wid, PartConst));
    ghost var a := el.exprs;
    Pow2Word();
    ConstFolds(a, wid, n, 32, 1);
    forall st: Store ensures EvalSelf(a, d, st, r) == EvalSelf(a0, d, st, e)[..n] {
      EvalSelfExtends(a0, a, d, st, e);
      ConstSelf(a, d, st, off, 0, 32);
      LowSlice(EvalSelf(a0, d, st, e), n);
      var low := EvalSelf(a0, d, st, e)[..n];
      assert Resize(low, n, false) == low;
    }
  }

  lemma LowSlice(v: Vec, n: nat)
    requires 1 <= n <= |v|
    ensures SelectBits(v, Some(0), n, PartConst) == v[..n]
  {
    var low := SelectBits(v, Some(0), n, PartConst);
    assert |low| == n;
    assert forall i :: 0 <= i < n ==> low[i] == BitAt(v, i);
  }

  /** The low `kw` bits of a wider key, all unknown when any bit of the key is. */
  method Truncate(el: Elaborator, key: nat, kw: nat, twoState: set<nat>) returns (lo: nat)
    requires key < |el.exprs| && 1 <= kw <= 64 && kw < ShapeOf(el.exprs, el.design, key).width
    modifies el`exprs
    ensures Extends(old(el.exprs), el.exprs) && lo < |el.exprs|
    ensures ShapeOf(el.exprs, el.design, lo).width == kw
    ensures forall st: Store :: TwoStateHolds(el.design, st, twoState) ==>
              var v := EvalSelf(old(el.exprs), el.design, st, key);
              if Known(v) then EvalSelf(el.exprs, el.design, st, lo) == v[..kw]
              else !Known(EvalSelf(el.exprs, el.design, st, lo))
  {
    hide ToNat, FromNat, Pow2;
    ghost var a0, d := el.exprs, el.design;
    var low := key;
    if MayBeUnknown(el.exprs, twoState, key) {
      var u := Seal(el, key, false);
      var m := el.Push(Const(FromNat(Pow2(kw), kw + 1), false));
      low := el.Push(Binary(Mod, u, m));
      ShapeExtends(a0, el.exprs, d, key);
      RemainderNode(el.exprs, d, Store(map[], (_, _, _) => []), low, key, kw);
    }
    ghost var a1 := el.exprs;
    lo := SelectLow(el, low, kw);
    forall st: Store | TwoStateHolds(d, st, twoState)
      ensures
        var v := EvalSelf(a0, d, st, key);
        if Known(v) then EvalSelf(el.exprs, d, st, lo) == v[..kw] else !Known(EvalSelf(el.exprs, d, st, lo))
    {
      EvalSelfExtends(a0, a1, d, st, key);
      if MayBeUnknown(a0, twoState, key) {
        RemainderNode(a1, d, st, low, key, kw);
        if !Known(EvalSelf(a0, d, st, key)) { assert EvalSelf(el.exprs, d, st, lo)[0] == BX; }
      } else {
        NeverUnknownSelf(a0, d, st, twoState, key);
      }
    }
  }

  /** `$signed(1'b1 ? $signed(e) : n'sd0)`: `e` sign-extended to `n` bits, named once. */
  method ExtendSignedOnce(el: Elaborator, e: nat, n: nat) returns (r: nat)
    requires e < |el.exprs| && 1 <= ShapeOf(el.exprs, el.design, e).width < n <= 64
    modifies el`exprs
    ensures Extends(old(el.exprs), el.exprs) && r < |el.exprs|
    ensures ShapeOf(el.exprs, el.design, r) == Shape(n, true)
    ensures forall st: Store :: EvalSelf(el.exprs, el.design, st, r)
                             == Resize(EvalSelf(old(el.exprs), el.design, st, e), n, true)
  {
    hide ToNat, FromNat, Pow2, Resize;
    ghost var a0, d := el.exprs, el.design;
    var cond := el.ConstU32(1, 1);
    var thenE := Seal(el, e, true);
    var elseE := el.Push(Const(FromNat(0, n), true));
    var t := el.Push(Ternary(cond, thenE, elseE));
    r := Seal(el, t, true);
    ghost var a := el.exprs;
    ShapeExtends(a0, a, d, e);
    forall st: Store
      ensures EvalSelf(a, d, st, r) == Resize(EvalSelf(a0, d, st, e), n, true)
      ensures ShapeOf(a, d, r) == Shape(n, true)
    {
      EvalSelfExtends(a0, a, d, st, e);
      ExtendNodes(a, d, st, e, n, cond, thenE, elseE, t, r);
    }
    ExtendNodes(a, d, Store(map[], (_, _, _) => []), e, n, cond, thenE, elseE, t, r);
  }

  lemma ExtendNodes(a: Arena, d: Design, st: Store, e: nat, n: nat, cond: nat, thenE: nat, elseE: nat, t: nat, r: nat)
    requires e < thenE && cond < t && thenE < t && elseE < t < r < |a|
    requires 1 <= ShapeOf(a, d, e).width < n <= 64
    requires a[cond] == Const(FromNat(1, 1), false) && a[thenE] == SysFunc(Signed, [e])
    requires a[elseE] == Const(FromNat(0, n), true) && a[t] == Ternary(cond, thenE, elseE) && a[r] == SysFunc(Signed, [t])
    ensures ShapeOf(a, d, r) == Shape(n, true)
    ensures EvalSelf(a, d, st, r) == Resize(EvalSelf(a, d, st, e), n, true)
  {
    hide ToNat, Pow2;
    var v := EvalSelf(a, d, st, e);
    assert FromNat(1, 1) == [B1];
    assert Resize([B1], 1, false) == [B1];
    assert EvalSelf(a, d, st, cond) == [B1];
    assert ShapeOf(a, d, thenE) == Shape(|v|, true);
    assert ShapeOf(a, d, elseE) == Shape(n, true);
    assert ShapeOf(a, d, t) == Shape(n, true);
    assert Eval(a, d, st, thenE, n, true) == Resize(v, n, true);
    assert EvalSelf(a, d, st, t) == Resize(v, n, true);
    CastSelf(a, d, st, r, t, true);
  }

  /** Convert an index expression to the handle's key type. A keyword-atom handle and an already
      reported error keep the expression; a bare fill literal and an unknown width are refused.
      Otherwise the engine's key of the result is the source value cast to the key type, for every
      source width and sign and every admitted key type, and it is unknown whenever a source bit is. */
  method ConvertKey(el: Elaborator, shape: Option<KeyShape>, key: nat, f: KeyFacts, twoState: set<nat>) returns (r: Option<nat>)
    requires key < |el.exprs| && ShapeOf(el.exprs, el.design, key).width >= 1
    requires shape.Some? ==> 1 <= shape.value.width && Admitted(shape.value.width, shape.value.signed)
    modifies el
    ensures Extends(old(el.exprs), el.exprs) && (r.Some? ==> r.value < |el.exprs|)
    ensures shape.None? || shape.value.legacy || f.placeholder ==> r == Some(key) && el.exprs == old(el.exprs)
    ensures r.None? <==> shape.Some? && !shape.value.legacy && !f.placeholder && (f.bareFill || !f.widthKnown)
    ensures el.errors == old(el.errors) + if r.None? then 1 else 0
    ensures shape.Some? && !shape.value.legacy && !f.placeholder && r.Some? ==>
              forall st: Store :: (forall net :: net in twoState ==> Known(ReadWord(el.design, st, net, Some(0)))) ==>
                KeyOf(el.exprs, el.design, st, r.value)
                == CastKey(EvalSelf(old(el.exprs), el.design, st, key),
                           ShapeOf(old(el.exprs), el.design, key).signed, shape.value)
  {
    hide ToNat, FromNat, Pow2, Resize, KeyOf, CastInt;
    if shape.None? || shape.value.legacy || f.placeholder { return Some(key); }
    if f.bareFill || !f.widthKnown {
      el.Error();
      return None;
    }
    ghost var a0, d := el.exprs, el.design;
    var k := shape.value;
    var sw := ShapeOf(el.exprs, el.design, key);
    if sw.width > k.width {
      var lo := Truncate(el, key, k.width, twoState);
      ghost var a1 := el.exprs;
      var s := Seal(el, lo, k.signed);
      forall st: Store | TwoStateHolds(d, st, twoState)
        ensures KeyOf(el.exprs, d, st, s) == CastKey(EvalSelf(a0, d, st, key), sw.signed, k)
      {
        EvalSelfExtends(a1, el.exprs, d, st, lo);
        SealedKey(el.exprs, d, st, s);
        if Known(EvalSelf(a0, d, st, key)) { CastOfBits(EvalSelf(a0, d, st, key), sw.signed, k.width, k.signed); }
      }
      return Some(s);
    }
    if sw.width < k.width && sw.signed && !k.signed {
      var ext := ExtendSignedOnce(el, key, k.width);
      ghost var a1 := el.exprs;
      var s := Seal(el, ext, false);
      forall st: Store | TwoStateHolds(d, st, twoState)
        ensures KeyOf(el.exprs, d, st, s) == CastKey(EvalSelf(a0, d, st, key), sw.signed, k)
      {
        EvalSelfExtends(a1, el.exprs, d, st, ext);
        SealedKey(el.exprs, d, st, s);
        ExtendedKey(EvalSelf(a0, d, st, key), k.width);
      }
      return Some(s);
    }
    var s := Seal(el, key, if sw.width == k.width then k.signed else sw.signed);
    forall st: Store | TwoStateHolds(d, st, twoState)
      ensures KeyOf(el.exprs, d, st, s) == CastKey(EvalSelf(a0, d, st, key), sw.signed, k)
    {
      EvalSelfExtends(a0, el.exprs, d, st, key);
      SealedKey(el.exprs, d, st, s);
      var v := EvalSelf(a0, d, st, key);
      if Known(v) {
        if sw.width == k.width {
          assert v[..k.width] == v;
          CastOfBits(v, sw.signed, k.width, k.signed);
        } else {
          CastWider(v, sw.signed, k.width, k.signed);
        }
      }
    }
    return Some(s);
  }

  /** A signed key in a wider unsigned type: its sign-extension, read as a number. */
  lemma ExtendedKey(v: Vec, w: nat)
    requires v != [] && |v| < w
    ensures Known(Resize(v, w, true)) == Known(v)
    ensures Known(v) ==> ToInt(Resize(v, w, true), false) == CastInt(ToInt(v, true), w, false)
  {
    hide ToNat, Pow2;
    if Known(v) {
      ExtendKeepsInt(v, w, true);
    } else {
      var i :| 0 <= i < |v| && v[i] == BX;
      ExtensionAppends(v, w, true);
      assert Resize(v, w, true)[i] == BX;
    }
  }
}
