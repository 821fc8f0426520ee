/** The simulation IR's expression arena and the engine's evaluator over it: context-determined
    sizing (IEEE 1800-2017 section 11.6), four-state values, array words, selects.
    The operators the lowering passes of this project emit are interpreted; every other node kind
    takes its shape from the design and its value from the store, whatever they may be. */
module Ir {
  import opened Wrappers
  import opened Bits

  datatype UnOp = Plus | Minus | LogNot | BitNot | Reduce(which: nat)

  datatype BinOp =
    | Add | Sub | Mul | Mod | Lt | Le | Ge | LogAnd
    | OtherBin(which: nat)

  datatype SelKind = SelBit | PartConst | PartIdxUp | PartIdxDown

  datatype SysFuncId = Signed | Unsigned | OtherFunc(which: nat)

  datatype Expr =
    | Const(bits: Vec, signed: bool)
    | Signal(net: nat, word: Option<nat>)
    | Select(base: nat, offset: nat, width: nat, kind: SelKind)
    | Concat(parts: seq<nat>)
    | Replicate(count: nat, value: nat)
    | Unary(uop: UnOp, operand: nat)
    | Binary(op: BinOp, lhs: nat, rhs: nat)
    | Ternary(cond: nat, thenE: nat, elseE: nat)
    | SysFunc(which: SysFuncId, args: seq<nat>)
    | Call(func: nat, args: seq<nat>)
    | ArrayItem(index: bool, itemWidth: nat, itemSigned: bool)

  predicate Below(ids: seq<nat>, bound: nat) {
    forall k :: 0 <= k < |ids| ==> ids[k] < bound
  }

  /** Every operand of the node is one of the first `bound` nodes. */
  predicate OperandsBelow(e: Expr, bound: nat) {
    match e
    case Const(_, _) => true
    case Signal(_, word) => word.Some? ==> word.value < bound
    case Select(base, offset, width, _) => base < bound && offset < bound && width < bound
    case Concat(parts) => Below(parts, bound)
    case Replicate(count, value) => count < bound && value < bound
    case Unary(_, operand) => operand < bound
    case Binary(_, lhs, rhs) => lhs < bound && rhs < bound
    case Ternary(cond, thenE, elseE) => cond < bound && thenE < bound && elseE < bound
    case SysFunc(_, args) => Below(args, bound)
    case Call(_, args) => Below(args, bound)
    case ArrayItem(_, _, _) => true
  }

  predicate PostOrder(a: seq<Expr>) {
    forall i :: 0 <= i < |a| ==> OperandsBelow(a[i], i)
  }

  type Arena = a: seq<Expr> | PostOrder(a) witness []

  predicate Extends(a: Arena, b: Arena) {
    |a| <= |b| && forall i :: 0 <= i < |a| ==> a[i] == b[i]
  }

  datatype Shape = Shape(width: nat, signed: bool)

  /** What is fixed at elaboration: each net's element type, and the shape of each uninterpreted node. */
  datatype Design = Design(nets: map<nat, Shape>, other: nat -> Shape)

  /** What varies at run time: each net's words, and each uninterpreted node's value per context. */
  datatype Store = Store(cells: map<nat, seq<Vec>>, other: (nat, nat, bool) -> Vec)

  const WIDTH_MAX: nat := 0x100_0000

  function Max(x: nat, y: nat): nat { if x < y then y else x }

  function Clamp(w: nat): nat { if w < WIDTH_MAX then w else WIDTH_MAX }

  function NetShape(d: Design, net: nat): Shape {
    if net in d.nets then Shape(Clamp(Max(1, d.nets[net].width)), d.nets[net].signed) else Shape(1, false)
  }

  /** The number a literal operand folds to; `default` for anything else. */
  function ConstFold(a: Arena, e: nat, default: nat): nat
    requires e < |a|
  {
    if a[e].Const? && Known(a[e].bits) then Clamp(ToNat(a[e].bits)) else default
  }

  /** Self-determined width and sign. */
  function ShapeOf(a: Arena, d: Design, e: nat): Shape
    requires e < |a|
    decreases e, 1
  {
    match a[e]
    case Const(bits, signed) => Shape(Clamp(Max(1, |bits|)), signed)
    case Signal(net, _) => NetShape(d, net)
    case Select(_, _, width, kind) =>
      Shape(if kind.SelBit? then 1 else Max(1, ConstFold(a, width, 1)), false)
    case Concat(parts) => Shape(Clamp(Max(1, PartsWidth(a, d, parts, e))), false)
    case Replicate(count, value) =>
      Shape(Clamp(ConstFold(a, count, 0) * ShapeOf(a, d, value).width), false)
    case Binary(op, lhs, rhs) =>
      if op.OtherBin? then d.other(e)
      else if op.Lt? || op.Le? || op.Ge? || op.LogAnd? then Shape(1, false)
      else
        var l, r := ShapeOf(a, d, lhs), ShapeOf(a, d, rhs);
        Shape(Max(1, Max(l.width, r.width)), l.signed && r.signed)
    case Ternary(_, thenE, elseE) =>
      var t, f := ShapeOf(a, d, thenE), ShapeOf(a, d, elseE);
      Shape(Max(1, Max(t.width, f.width)), t.signed && f.signed)
    case SysFunc(which, args) =>
      if which.OtherFunc? || |args| != 1 then d.other(e)
      else Shape(Max(1, ShapeOf(a, d, args[0]).width), which.Signed?)
    case _ => d.other(e)
  }

  function PartsWidth(a: Arena, d: Design, parts: seq<nat>, bound: nat): nat
    requires bound <= |a| && Below(parts, bound)
    decreases bound, 0, |parts|
  {
    if parts == [] then 0 else ShapeOf(a, d, parts[0]).width + PartsWidth(a, d, parts[1..], bound)
  }

  /** A net's word as stored, or all unknown when there is no such word. */
  function ReadWord(d: Design, st: Store, net: nat, index: Option<nat>): (v: Vec)
    ensures |v| == NetShape(d, net).width
  {
    var w := NetShape(d, net).width;
    if index.Some? && net in st.cells && index.value < |st.cells[net]| && |st.cells[net][index.value]| == w
    then st.cells[net][index.value]
    else Unknown(w)
  }

  function IndexOf(v: Vec): Option<nat> {
    if Known(v) then Some(ToNat(v)) else None
  }

  /** Bit `i` of a source, unknown outside it. */
  function BitAt(src: Vec, i: int): Bit {
    if 0 <= i < |src| then src[i] else BX
  }

  const OFFSET_LIMIT: nat := 0x8000_0000_0000_0000

  function SelectBits(src: Vec, off: Option<nat>, width: nat, kind: SelKind): (v: Vec)
    ensures kind.PartIdxUp? && width >= 1 ==> |v| == width
  {
    if off.None? || off.value >= OFFSET_LIMIT then Unknown(Max(1, width))
    else
      var lsb: int := if kind.PartIdxDown? then off.value - width + 1 else off.value;
      seq(if kind.SelBit? then 1 else width, i => BitAt(src, lsb + i))
  }

  /** The truncating remainder of signed division. */
  function Remainder(x: int, y: int): int
    requires y != 0
  {
    var m := (if x < 0 then -x else x) % (if y < 0 then -y else y);
    if x < 0 then -m else m
  }

  /** `op` over two operands already sized to `w` bits; any unknown bit makes the result all unknown. */
  function Arith(op: BinOp, l: Vec, r: Vec, w: nat, signed: bool): (v: Vec)
    ensures |v| == w
  {
    if !Known(l) || !Known(r) then Unknown(w)
    else if op.Mod? then
      if ToNat(r) == 0 || ToInt(r, signed) == 0 then Unknown(w)
      else if signed then FromNat(Remainder(ToInt(l, true), ToInt(r, true)) % Pow2(w), w)
      else FromNat(ToNat(l) % ToNat(r), w)
    else if op.Add? then FromNat((ToNat(l) + ToNat(r)) % Pow2(w), w)
    else if op.Sub? then FromNat((ToNat(l) - ToNat(r)) % Pow2(w), w)
    else FromNat((ToNat(l) * ToNat(r)) % Pow2(w), w)
  }

  function Compare(op: BinOp, l: Vec, r: Vec, signed: bool): Bit {
    if !Known(l) || !Known(r) then BX
    else
      var x, y := ToInt(l, signed), ToInt(r, signed);
      if (if op.Lt? then x < y else if op.Le? then x <= y else x >= y) then B1 else B0
  }

  /** The truth value of a vector: B1 when some bit is 1, B0 when every bit is 0. */
  function Truth(v: Vec): Bit {
    if B1 in v then B1 else if BX in v then BX else B0
  }

  function And(l: Bit, r: Bit): Bit {
    if l == B0 || r == B0 then B0 else if l == B1 && r == B1 then B1 else BX
  }

  /** The value of a conditional whose condition is unknown: bits on which the arms agree survive. */
  function Merge(t: Vec, f: Vec): (v: Vec)
    requires |t| == |f|
    ensures |v| == |t|
  {
    seq(|t|, i requires 0 <= i < |t| => if t[i] == f[i] then t[i] else BX)
  }

  /** The value of node `e` in a context of at least `w` bits and the given sign. */
  function Eval(a: Arena, d: Design, st: Store, e: nat, w: nat, signed: bool): (v: Vec)
    requires e < |a|
    ensures |v| == Max(ShapeOf(a, d, e).width, w)
    decreases e, 1
  {
    var W := Max(ShapeOf(a, d, e).width, w);
    var S := ShapeOf(a, d, e).signed && signed;
    match a[e]
    case Const(bits, _) => Resize(bits, W, S)
    case Signal(net, word) =>
      Resize(ReadWord(d, st, net, if word.None? then Some(0) else IndexOf(EvalSelf(a, d, st, word.value))), W, S)
    case Select(base, offset, width, kind) =>
      Resize(SelectBits(EvalSelf(a, d, st, base), IndexOf(EvalSelf(a, d, st, offset)), ConstFold(a, width, 1), kind),
             W, false)
    case Concat(parts) => Resize(EvalParts(a, d, st, parts, e), W, false)
    case Replicate(count, value) =>
      Resize(Copies(EvalSelf(a, d, st, value), ConstFold(a, count, 0)), W, false)
    case Binary(op, lhs, rhs) =>
      if op.OtherBin? then Resize(st.other(e, W, S), W, false)
      else if op.LogAnd? then
        Resize([And(Truth(EvalSelf(a, d, st, lhs)), Truth(EvalSelf(a, d, st, rhs)))], W, false)
      else if op.Lt? || op.Le? || op.Ge? then
        var l, r := ShapeOf(a, d, lhs), ShapeOf(a, d, rhs);
        var cw, cs := Max(l.width, r.width), l.signed && r.signed;
        Resize([Compare(op, Eval(a, d, st, lhs, cw, cs), Eval(a, d, st, rhs, cw, cs), cs)], W, false)
      else
        Arith(op, Eval(a, d, st, lhs, W, S), Eval(a, d, st, rhs, W, S), W, S)
    case Ternary(cond, thenE, elseE) =>
      var t, f := Eval(a, d, st, thenE, W, S), Eval(a, d, st, elseE, W, S);
      var c := Truth(EvalSelf(a, d, st, cond));
      if c == B1 then t else if c == B0 then f else Merge(t, f)
    case SysFunc(which, args) =>
      if which.OtherFunc? || |args| != 1 then Resize(st.other(e, W, S), W, false)
      else Resize(EvalSelf(a, d, st, args[0]), W, S)
    case _ => Resize(st.other(e, W, S), W, false)
  }

  function EvalSelf(a: Arena, d: Design, st: Store, e: nat): (v: Vec)
    requires e < |a|
    ensures |v| == ShapeOf(a, d, e).width
    decreases e, 2
  {
    Eval(a, d, st, e, ShapeOf(a, d, e).width, ShapeOf(a, d, e).signed)
  }

  /** A concatenation: the first part holds the most significant bits. */
  function EvalParts(a: Arena, d: Design, st: Store, parts: seq<nat>, bound: nat): (v: Vec)
    requires bound <= |a| && Below(parts, bound)
    ensures |v| == PartsWidth(a, d, parts, bound)
    decreases bound, 0, |parts|
  {
    if parts == [] then [] else EvalParts(a, d, st, parts[1..], bound) + EvalSelf(a, d, st, parts[0])
  }

  function Copies(v: Vec, n: nat): (r: Vec)
    ensures |r| == n * |v|
  {
    if n == 0 then [] else
      assert n * |v| == |v| + (n - 1) * |v|;
      v + Copies(v, n - 1)
  }

  lemma {:induction false} ShapeExtends(a: Arena, b: Arena, d: Design, e: nat)
    requires Extends(a, b) && e < |a|
    ensures ShapeOf(b, d, e) == ShapeOf(a, d, e)
    decreases e, 1
  {
    match a[e]
    case Concat(parts) => PartsWidthExtends(a, b, d, parts, e);
    case Replicate(count, value) => ShapeExtends(a, b, d, value);
    case Binary(op, lhs, rhs) =>
      ShapeExtends(a, b, d, lhs);
      ShapeExtends(a, b, d, rhs);
    case Ternary(_, thenE, elseE) =>
      ShapeExtends(a, b, d, thenE);
      ShapeExtends(a, b, d, elseE);
    case SysFunc(which, args) =>
      if |args| == 1 { ShapeExtends(a, b, d, args[0]); }
    case _ =>
  }

  lemma {:induction false} PartsWidthExtends(a: Arena, b: Arena, d: Design, parts: seq<nat>, bound: nat)
    requires Extends(a, b) && bound <= |a| && Below(parts, bound)
    ensures PartsWidth(b, d, parts, bound) == PartsWidth(a, d, parts, bound)
    decreases bound, 0, |parts|
  {
    if parts != [] {
      ShapeExtends(a, b, d, parts[0]);
      PartsWidthExtends(a, b, d, parts[1..], bound);
    }
  }

  /** Appending nodes never changes what an existing node means. */
  lemma {:induction false} EvalExtends(a: Arena, b: Arena, d: Design, st: Store, e: nat, w: nat, signed: bool)
    requires Extends(a, b) && e < |a|
    ensures Eval(b, d, st, e, w, signed) == Eval(a, d, st, e, w, signed)
    decreases e, 1
  {
    ShapeExtends(a, b, d, e);
    var W := Max(ShapeOf(a, d, e).width, w);
    var S := ShapeOf(a, d, e).signed && signed;
    match a[e]
    case Signal(net, word) =>
      if word.Some? { EvalSelfExtends(a, b, d, st, word.value); }
    case Select(base, offset, width, kind) =>
      EvalSelfExtends(a, b, d, st, base);
      EvalSelfExtends(a, b, d, st, offset);
    case Concat(parts) => EvalPartsExtends(a, b, d, st, parts, e);
    case Replicate(count, value) => EvalSelfExtends(a, b, d, st, value);
    case Binary(op, lhs, rhs) => BinaryExtends(a, b, d, st, e, w, signed);
    case Ternary(cond, thenE, elseE) =>
      EvalExtends(a, b, d, st, thenE, W, S);
      EvalExtends(a, b, d, st, elseE, W, S);
      EvalSelfExtends(a, b, d, st, cond);
    case SysFunc(which, args) =>
      if |args| == 1 { EvalSelfExtends(a, b, d, st, args[0]); }
    case _ =>
  }

  lemma {:induction false} BinaryExtends(a: Arena, b: Arena, d: Design, st: Store, e: nat, w: nat, signed: bool)
    requires Extends(a, b) && e < |a| && a[e].Binary?
    ensures Eval(b, d, st, e, w, signed) == Eval(a, d, st, e, w, signed)
    decreases e, 0
  {
    ShapeExtends(a, b, d, e);
    var W := Max(ShapeOf(a, d, e).width, w);
    var S := ShapeOf(a, d, e).signed && signed;
    var op, lhs, rhs := a[e].op, a[e].lhs, a[e].rhs;
    ShapeExtends(a, b, d, lhs);
    ShapeExtends(a, b, d, rhs);
    if op.LogAnd? {
      EvalSelfExtends(a, b, d, st, lhs);
      EvalSelfExtends(a, b, d, st, rhs);
    } else if op.Lt? || op.Le? || op.Ge? {
      var cw := Max(ShapeOf(a, d, lhs).width, ShapeOf(a, d, rhs).width);
      var cs := ShapeOf(a, d, lhs).signed && ShapeOf(a, d, rhs).signed;
      EvalExtends(a, b, d, st, lhs, cw, cs);
      EvalExtends(a, b, d, st, rhs, cw, cs);
    } else if !op.OtherBin? {
      EvalExtends(a, b, d, st, lhs, W, S);
      EvalExtends(a, b, d, st, rhs, W, S);
    }
  }

  lemma {:induction false} EvalSelfExtends(a: Arena, b: Arena, d: Design, st: Store, e: nat)
    requires Extends(a, b) && e < |a|
    ensures ShapeOf(b, d, e) == ShapeOf(a, d, e)
    ensures EvalSelf(b, d, st, e) == EvalSelf(a, d, st, e)
    decreases e, 2
  {
    ShapeExtends(a, b, d, e);
    EvalExtends(a, b, d, st, e, ShapeOf(a, d, e).width, ShapeOf(a, d, e).signed);
  }

  lemma {:induction false} EvalPartsExtends(a: Arena, b: Arena, d: Design, st: Store, parts: seq<nat>, bound: nat)
    requires Extends(a, b) && bound <= |a| && Below(parts, bound)
    ensures PartsWidth(b, d, parts, bound) == PartsWidth(a, d, parts, bound)
    ensures EvalParts(b, d, st, parts, bound) == EvalParts(a, d, st, parts, bound)
    decreases bound, 0, |parts|
  {
    PartsWidthExtends(a, b, d, parts, bound);
    if parts != [] {
      EvalSelfExtends(a, b, d, st, parts[0]);
      EvalPartsExtends(a, b, d, st, parts[1..], bound);
    }
  }
}
