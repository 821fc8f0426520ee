/** What a node means as a 32-bit word: its number, or unknown. The arithmetic and comparison nodes
    that address lowering emits, one lemma per node kind. */
module Words {
  import opened Bits
  import opened Wrappers
  import opened Ir
  import opened RowMajor

  lemma Pow2Word()
    ensures Pow2(32) == WORD
  {
    assert Pow2(8) == 256;
    Pow2Add(8, 8);
    Pow2Add(16, 16);
  }

  /** `v` spells the number, or holds an unknown bit when there is none. */
  predicate Spells(v: Vec, n: Option<nat>) {
    if n.Some? then v == FromNat(n.value, 32) && n.value < WORD else |v| == 32 && !Known(v)
  }

  /** Node `e` is 32 bits wide and means `n` in every 32-bit context. */
  ghost predicate IsWord(a: Arena, d: Design, st: Store, e: nat, n: Option<nat>) {
    e < |a| && ShapeOf(a, d, e).width == 32
    && Spells(Eval(a, d, st, e, 32, false), n) && Spells(Eval(a, d, st, e, 32, true), n)
  }

  /** Inside unsigned 32-bit arithmetic node `e` is read as `n`, whatever it means alone. */
  ghost predicate ReadsAs(a: Arena, d: Design, st: Store, e: nat, n: Option<nat>) {
    e < |a| && 1 <= ShapeOf(a, d, e).width <= 32 && Spells(Eval(a, d, st, e, 32, false), n)
  }

  /** Node `e` is one bit wide and its truth value is `t`. */
  ghost predicate IsGuard(a: Arena, d: Design, st: Store, e: nat, t: Bit) {
    e < |a| && ShapeOf(a, d, e).width == 1 && EvalSelf(a, d, st, e) == [t]
  }

  predicate IsWordConst(a: Arena, e: nat, n: nat) {
    e < |a| && a[e] == Const(FromNat(n, 32), false) && n < WORD
  }

  lemma WordExtends(a: Arena, b: Arena, d: Design, st: Store, e: nat, n: Option<nat>)
    requires Extends(a, b) && IsWord(a, d, st, e, n)
    ensures IsWord(b, d, st, e, n)
  {
    ShapeExtends(a, b, d, e);
    EvalExtends(a, b, d, st, e, 32, false);
    EvalExtends(a, b, d, st, e, 32, true);
  }

  lemma ReadsExtends(a: Arena, b: Arena, d: Design, st: Store, e: nat, n: Option<nat>)
    requires Extends(a, b) && ReadsAs(a, d, st, e, n)
    ensures ReadsAs(b, d, st, e, n)
  {
    ShapeExtends(a, b, d, e);
    EvalExtends(a, b, d, st, e, 32, false);
  }

  lemma WordReads(a: Arena, d: Design, st: Store, e: nat, n: Option<nat>)
    requires IsWord(a, d, st, e, n)
    ensures ReadsAs(a, d, st, e, n)
  {
  }

  /** A node of unsigned arithmetic has one reading. */
  lemma ReadsWord(a: Arena, d: Design, st: Store, e: nat, n: Option<nat>)
    requires ReadsAs(a, d, st, e, n) && ShapeOf(a, d, e) == Shape(32, false)
    ensures IsWord(a, d, st, e, n)
  {
  }

  lemma GuardExtends(a: Arena, b: Arena, d: Design, st: Store, e: nat, t: Bit)
    requires Extends(a, b) && IsGuard(a, d, st, e, t)
    ensures IsGuard(b, d, st, e, t)
  {
    EvalSelfExtends(a, b, d, st, e);
  }

  lemma WordNumber(v: Vec, n: Option<nat>)
    requires Spells(v, n) && n.Some?
    ensures Known(v) && ToNat(v) == n.value
  {
    hide ToNat, FromNat, Pow2;
    Pow2Word();
    ToFromSmall(n.value, 32);
  }

  lemma SpellsSelf(v: Vec)
    requires |v| == 32
    ensures Spells(v, if Known(v) then Some(ToNat(v)) else None)
  {
    Pow2Word();
    if Known(v) { FromTo(v); }
  }

  lemma WordSelf(a: Arena, d: Design, st: Store, e: nat, n: Option<nat>)
    requires IsWord(a, d, st, e, n)
    ensures Spells(EvalSelf(a, d, st, e), n)
  {
  }

  lemma WordIndex(a: Arena, d: Design, st: Store, e: nat, n: Option<nat>)
    requires IsWord(a, d, st, e, n)
    ensures IndexOf(EvalSelf(a, d, st, e)) == n
  {
    WordSelf(a, d, st, e, n);
    if n.Some? { WordNumber(EvalSelf(a, d, st, e), n); }
  }

  lemma ConstIsWord(a: Arena, d: Design, st: Store, e: nat, n: nat)
    requires IsWordConst(a, e, n)
    ensures IsWord(a, d, st, e, Some(n))
  {
    var v := FromNat(n, 32);
    assert Resize(v, 32, false) == v && Resize(v, 32, true) == v;
  }

  lemma ConstReads(a: Arena, d: Design, st: Store, e: nat, n: nat)
    requires IsWordConst(a, e, n)
    ensures ReadsAs(a, d, st, e, Some(n)) && ShapeOf(a, d, e) == Shape(32, false)
  {
    ConstIsWord(a, d, st, e, n);
    WordReads(a, d, st, e, Some(n));
  }

  function AddWord(x: Option<nat>, y: Option<nat>): Option<nat> {
    if x.Some? && y.Some? then Some((x.value + y.value) % WORD) else None
  }

  function SubWord(x: Option<nat>, y: Option<nat>): Option<nat> {
    if x.Some? && y.Some? then Some((x.value - y.value) % WORD) else None
  }

  function MulWord(x: Option<nat>, y: Option<nat>): Option<nat> {
    if x.Some? && y.Some? then Some((x.value * y.value) % WORD) else None
  }

  function WordOp(op: BinOp, x: Option<nat>, y: Option<nat>): Option<nat> {
    if op.Add? then AddWord(x, y) else if op.Sub? then SubWord(x, y) else MulWord(x, y)
  }

  lemma ArithSpells(op: BinOp, l: Vec, r: Vec, x: Option<nat>, y: Option<nat>, signed: bool)
    requires op.Add? || op.Sub? || op.Mul?
    requires Spells(l, x) && Spells(r, y)
    ensures Spells(Arith(op, l, r, 32, signed), WordOp(op, x, y))
  {
    hide ToNat, FromNat, Pow2;
    Pow2Word();
    if x.Some? { WordNumber(l, x); }
    if y.Some? { WordNumber(r, y); }
    if x.None? || y.None? {
      assert BX == Unknown(32)[0];
      assert Arith(op, l, r, 32, signed) == Unknown(32);
    }
  }

  lemma ArithIsWord(a: Arena, d: Design, st: Store, e: nat, x: Option<nat>, y: Option<nat>)
    requires e < |a| && a[e].Binary? && (a[e].op.Add? || a[e].op.Sub? || a[e].op.Mul?)
    requires IsWord(a, d, st, a[e].lhs, x) && IsWord(a, d, st, a[e].rhs, y)
    ensures IsWord(a, d, st, e, WordOp(a[e].op, x, y))
  {
    ArithInContext(a, d, st, e, x, y, false);
    ArithInContext(a, d, st, e, x, y, true);
  }

  lemma ArithInContext(a: Arena, d: Design, st: Store, e: nat, x: Option<nat>, y: Option<nat>, signed: bool)
    requires e < |a| && a[e].Binary? && (a[e].op.Add? || a[e].op.Sub? || a[e].op.Mul?)
    requires IsWord(a, d, st, a[e].lhs, x) && IsWord(a, d, st, a[e].rhs, y)
    ensures ShapeOf(a, d, e).width == 32
    ensures Spells(Eval(a, d, st, e, 32, signed), WordOp(a[e].op, x, y))
  {
    var s := ShapeOf(a, d, e).signed && signed;
    var l, r := Eval(a, d, st, a[e].lhs, 32, s), Eval(a, d, st, a[e].rhs, 32, s);
    assert Eval(a, d, st, e, 32, signed) == Arith(a[e].op, l, r, 32, s);
    ArithSpells(a[e].op, l, r, x, y, s);
  }

  /** Arithmetic over nodes read as unsigned is read as the operation on what they are read as. */
  lemma ArithReads(a: Arena, d: Design, st: Store, e: nat, x: Option<nat>, y: Option<nat>)
    requires e < |a| && a[e].Binary? && (a[e].op.Add? || a[e].op.Sub? || a[e].op.Mul?)
    requires ReadsAs(a, d, st, a[e].lhs, x) && ReadsAs(a, d, st, a[e].rhs, y)
    ensures ReadsAs(a, d, st, e, WordOp(a[e].op, x, y))
  {
    hide ToNat, FromNat, Pow2, Arith, Spells, WordOp;
    var l, r := Eval(a, d, st, a[e].lhs, 32, false), Eval(a, d, st, a[e].rhs, 32, false);
    assert Eval(a, d, st, e, 32, false) == Arith(a[e].op, l, r, 32, false);
    ArithSpells(a[e].op, l, r, x, y, false);
  }

  function CompareWords(op: BinOp, x: Option<nat>, y: Option<nat>): Bit {
    if x.None? || y.None? then BX
    else if (if op.Lt? then x.value < y.value else if op.Le? then x.value <= y.value else x.value >= y.value) then B1
    else B0
  }

  /** A comparison against an unsigned word is an unsigned comparison, whatever the other side's sign and width. */
  lemma {:induction false} CompareIsGuard(a: Arena, d: Design, st: Store, e: nat, x: Option<nat>, y: Option<nat>)
    requires e < |a| && a[e].Binary? && (a[e].op.Lt? || a[e].op.Le? || a[e].op.Ge?)
    requires ReadsAs(a, d, st, a[e].lhs, x) && ReadsAs(a, d, st, a[e].rhs, y)
    requires ShapeOf(a, d, a[e].rhs) == Shape(32, false)
    ensures IsGuard(a, d, st, e, CompareWords(a[e].op, x, y))
  {
    var l, r := Eval(a, d, st, a[e].lhs, 32, false), Eval(a, d, st, a[e].rhs, 32, false);
    if x.Some? { WordNumber(l, x); }
    if y.Some? { WordNumber(r, y); }
    CompareNode(a, d, st, e, l, r);
  }

  lemma {:induction false} CompareNode(a: Arena, d: Design, st: Store, e: nat, l: Vec, r: Vec)
    requires e < |a| && a[e].Binary? && (a[e].op.Lt? || a[e].op.Le? || a[e].op.Ge?)
    requires ShapeOf(a, d, a[e].lhs).width <= 32 && ShapeOf(a, d, a[e].rhs) == Shape(32, false)
    requires l == Eval(a, d, st, a[e].lhs, 32, false) && r == Eval(a, d, st, a[e].rhs, 32, false)
    ensures IsGuard(a, d, st, e, Compare(a[e].op, l, r, false))
  {
    var bit := [Compare(a[e].op, l, r, false)];
    assert Resize(bit, 1, false) == bit;
    assert Max(ShapeOf(a, d, a[e].lhs).width, ShapeOf(a, d, a[e].rhs).width) == 32;
    assert Eval(a, d, st, e, 1, false) == Resize(bit, 1, false);
  }

  lemma {:induction false} AndIsGuard(a: Arena, d: Design, st: Store, e: nat, s: Bit, t: Bit)
    requires e < |a| && a[e].Binary? && a[e].op.LogAnd?
    requires IsGuard(a, d, st, a[e].lhs, s) && IsGuard(a, d, st, a[e].rhs, t)
    ensures IsGuard(a, d, st, e, And(s, t))
  {
    var bit := [And(s, t)];
    assert Truth([s]) == s && Truth([t]) == t;
    assert Resize(bit, 1, false) == bit;
  }

  /** A guarded word: an unknown guard leaves a known word only when both arms already agree. */
  function GuardedWord(t: Bit, x: Option<nat>, y: Option<nat>): Option<nat> {
    if t == B1 then x else if t == B0 then y else if x == y then x else None
  }

  lemma MergeSpells(v: Vec, u: Vec, x: Option<nat>, y: Option<nat>)
    requires Spells(v, x) && Spells(u, y)
    ensures Spells(Merge(v, u), GuardedWord(BX, x, y))
  {
    var m := Merge(v, u);
    if x == y && x.Some? {
      assert m == v;
    } else {
      var i := SplitsAt(v, u, x, y);
      assert m[i] == BX;
    }
  }

  /** Words that are not one number differ in a bit, or hold an unknown one. */
  lemma SplitsAt(v: Vec, u: Vec, x: Option<nat>, y: Option<nat>) returns (i: nat)
    requires Spells(v, x) && Spells(u, y) && (x.None? || x != y)
    ensures i < 32 && |v| == |u| == 32 && (v[i] != u[i] || v[i] == BX)
  {
    if x.None? {
      i :| 0 <= i < 32 && v[i] == BX;
    } else {
      WordNumber(v, x);
      if y.Some? { WordNumber(u, y); }
      assert v != u;
      i :| 0 <= i < 32 && v[i] != u[i];
    }
  }

  lemma {:induction false} TernaryIsWord(a: Arena, d: Design, st: Store, e: nat, t: Bit, x: Option<nat>, y: Option<nat>)
    requires e < |a| && a[e].Ternary? && IsGuard(a, d, st, a[e].cond, t)
    requires IsWord(a, d, st, a[e].thenE, x) && IsWord(a, d, st, a[e].elseE, y)
    ensures IsWord(a, d, st, e, GuardedWord(t, x, y))
  {
    var s := ShapeOf(a, d, e).signed;
    assert Truth([t]) == t;
    forall signed: bool
      ensures Spells(Eval(a, d, st, e, 32, signed), GuardedWord(t, x, y))
    {
      MergeSpells(Eval(a, d, st, a[e].thenE, 32, s && signed), Eval(a, d, st, a[e].elseE, 32, s && signed), x, y);
    }
  }

  /** A conditional whose other arm is an unsigned word reads its first arm as unsigned. */
  lemma {:induction false} TernaryReads(a: Arena, d: Design, st: Store, e: nat, t: Bit, x: Option<nat>, y: Option<nat>)
    requires e < |a| && a[e].Ternary? && IsGuard(a, d, st, a[e].cond, t)
    requires ReadsAs(a, d, st, a[e].thenE, x) && ReadsAs(a, d, st, a[e].elseE, y)
    requires ShapeOf(a, d, a[e].elseE) == Shape(32, false)
    ensures IsWord(a, d, st, e, GuardedWord(t, x, y))
  {
    assert Truth([t]) == t;
    MergeSpells(Eval(a, d, st, a[e].thenE, 32, false), Eval(a, d, st, a[e].elseE, 32, false), x, y);
    assert ShapeOf(a, d, e) == Shape(32, false);
  }
}
