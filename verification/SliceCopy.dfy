/** Lowering an unpacked-array assignment to element copies: the refusals in the elaborator's order, then one
    statement per position. */
module SliceCopy {
  import opened Wrappers
  import opened Ir
  import opened RowMajor
  import opened Words
  import opened Emitter
  import opened IndexSeal
  import opened IndexSigns
  import opened Geometry
  import opened ArrayGeom
  import opened ArrayAssign
  import AliasGuard

  const UNROLL_CAP: nat := 4096

  datatype ElemType = ElemType(width: nat, isReal: bool, signed: bool)

  /** `net tNet[tWord] = net sNet[sWord]`, the word expressions by node; nonblocking, after a delay, or neither. */
  datatype Stmt = Stmt(tNet: nat, tWord: nat, sNet: nat, sWord: nat, nonblocking: bool, delay: Option<nat>)

  /** One side of the assignment: the array and its element type, its leading index expressions as written and
      as lowered, its traversal flags. */
  datatype Slice = Slice(net: nat, elem: ElemType, ext: seq<Dim>, ast: seq<AliasGuard.IndexAst>, lead: seq<nat>,
                         facts: seq<Facts>, desc: seq<bool>)

  /** Why an assignment is refused. */
  datatype Refusal = SizeMismatch | TypeMismatch | BlockingDelay | IndexReadsTarget | TooMany

  predicate WellFormed(a: Arena, d: Design, x: Slice) {
    Sized(x.ext) && |x.lead| < |x.ext| && |x.facts| == |x.lead| && Below(x.lead, |a|)
    && Product(x.ext) <= MAX_ARRAY_LEN
    && forall k :: 0 <= k < |x.lead| ==> ShapeOf(a, d, x.lead[k]).width >= 1
  }

  function Rest(x: Slice): seq<Dim>
    requires |x.lead| < |x.ext|
  {
    x.ext[|x.lead|..]
  }

  function RestDesc(x: Slice): seq<bool> {
    if |x.lead| <= |x.desc| then x.desc[|x.lead|..] else []
  }

  predicate SameSizes(x: seq<Dim>, y: seq<Dim>) {
    |x| == |y| && forall k :: 0 <= k < |x| ==> x[k].size == y[k].size
  }

  predicate GuardRefuses(t: Slice, f: Slice) {
    exists e :: e in t.ast + f.ast && AliasGuard.ReadsNet(e, t.net)
  }

  /** The first reason that applies, in the order in which they are looked for. */
  function Refused(t: Slice, f: Slice, nonblocking: bool, delay: Option<nat>): Option<Refusal>
    requires |t.lead| < |t.ext| && |f.lead| < |f.ext|
  {
    if !SameSizes(Rest(t), Rest(f)) then Some(SizeMismatch)
    else if t.elem != f.elem then Some(TypeMismatch)
    else if !nonblocking && delay.Some? then Some(BlockingDelay)
    else if GuardRefuses(t, f) then Some(IndexReadsTarget)
    else if Product(Rest(t)) > UNROLL_CAP then Some(TooMany)
    else None
  }

  /** The dimensions left on both sides are as many, and of the same sizes one by one. */
  predicate SameLeft(t: Slice, f: Slice) {
    |t.ext| - |t.lead| == |f.ext| - |f.lead|
    && forall j, k :: |t.lead| <= j < |t.ext| && |f.lead| <= k < |f.ext| && j - |t.lead| == k - |f.lead| ==>
         t.ext[j].size == f.ext[k].size
  }

  /** What an accepted assignment has: the same sizes left on both sides; elements of one type; a delay only when it is
      nonblocking; no leading index seen to read the target; at most 4096 elements. */
  lemma {:induction false} AcceptedExactly(t: Slice, f: Slice, nonblocking: bool, delay: Option<nat>)
    requires |t.lead| < |t.ext| && |f.lead| < |f.ext|
    ensures Refused(t, f, nonblocking, delay).None? <==>
      SameLeft(t, f)
      && t.elem.width == f.elem.width && t.elem.isReal == f.elem.isReal && t.elem.signed == f.elem.signed
      && (nonblocking || delay.None?)
      && (forall k :: 0 <= k < |t.ast| ==> !AliasGuard.ReadsNet(t.ast[k], t.net))
      && (forall k :: 0 <= k < |f.ast| ==> !AliasGuard.ReadsNet(f.ast[k], t.net))
      && Product(t.ext[|t.lead|..]) <= 4096
  {
    hide AliasGuard.ReadsNet, Product, SameSizes, SameLeft;
    SameLeftIs(t, f);
    forall k | 0 <= k < |t.ast| ensures t.ast[k] in t.ast + f.ast { assert (t.ast + f.ast)[k] == t.ast[k]; }
    forall k | 0 <= k < |f.ast| ensures f.ast[k] in t.ast + f.ast { assert (t.ast + f.ast)[|t.ast| + k] == f.ast[k]; }
  }

  lemma SameLeftIs(t: Slice, f: Slice)
    requires |t.lead| < |t.ext| && |f.lead| < |f.ext|
    ensures SameSizes(Rest(t), Rest(f)) <==> SameLeft(t, f)
  {
    var m, n := |t.lead|, |f.lead|;
    if SameSizes(Rest(t), Rest(f)) {
      forall j, k | m <= j < |t.ext| && n <= k < |f.ext| && j - m == k - n ensures t.ext[j].size == f.ext[k].size {
        assert t.ext[j] == Rest(t)[j - m] && f.ext[k] == Rest(f)[k - n];
      }
    }
    if SameLeft(t, f) {
      forall k | 0 <= k < |Rest(t)| ensures Rest(t)[k].size == Rest(f)[k].size {
        assert t.ext[m + k] == Rest(t)[k] && f.ext[n + k] == Rest(f)[k];
      }
    }
  }

  /** The leading indices seal to at most 32 bits. */
  predicate Narrow(a: Arena, d: Design, x: Slice)
    requires WellFormed(a, d, x)
  {
    AllNarrow(a, d, x.lead, ArrayWord, x.facts)
  }

  /** A side with ordinary leading indices, fewer than the array has dimensions, meets what is asked of one. */
  lemma {:induction false} OrdinarySlice(a: Arena, d: Design, x: Slice)
    requires x.ext != [] && (forall k :: 0 <= k < |x.ext| ==> 1 <= x.ext[k].size < WORD) && Product(x.ext) <= MAX_ARRAY_LEN
    requires |x.lead| < |x.ext| && |x.facts| == |x.lead|
    requires forall k :: 0 <= k < |x.lead| ==> x.lead[k] < |a| && x.facts[k].widthKnown && !x.facts[k].constant
    requires forall k :: 0 <= k < |x.lead| ==> var sh := ShapeOf(a, d, x.lead[k]);
               if sh.width < 32 then sh.width >= 1 && (sh.signed ==> x.facts[k].repeatable) else Stable(a, d, x.lead[k], sh.width)
    ensures WellFormed(a, d, x) && Narrow(a, d, x)
  {
    OrdinaryIndices(a, d, x.lead, x.facts);
  }

  /** Position `p` of a slice is the element whose every remaining index stands as far from the left of its declared
      range as `p`'s digit, however many dimensions the leading indices take away. */
  lemma {:induction false} SliceLeftToRight(x: Slice, msb: seq<int>, lsb: seq<int>, p: nat, k: nat)
    requires |msb| == |lsb| == |x.ext| == |x.desc| && |x.lead| < |x.ext| && Sized(x.ext)
    requires forall j :: 0 <= j < |x.ext| ==> x.desc[j] == (msb[j] > lsb[j])
    requires forall j :: 0 <= j < |x.ext| ==> x.ext[j] == if msb[j] > lsb[j] then Dim(lsb[j], msb[j] - lsb[j] + 1)
                                                          else Dim(msb[j], lsb[j] - msb[j] + 1)
    requires Sized(Rest(x)) && p < Product(Rest(x)) && k < |Rest(x)|
    ensures InRange(Rest(x), Position(Rest(x), p))
    ensures Residual(Rest(x), RestDesc(x), p) == Offset(Rest(x), Turn(Rest(x), RestDesc(x), Position(Rest(x), p)))
    ensures x.ext[|x.lead| + k].lo + Turn(Rest(x), RestDesc(x), Position(Rest(x), p))[k]
         == IndexFromLeft(msb[|x.lead| + k], lsb[|x.lead| + k], Position(Rest(x), p)[k])
  {
    hide Product, Position, Offset, Turn, Sized, InRange;
    var m := |x.lead|;
    var rest, desc, from, to := x.ext[m..], x.desc[m..], msb[m..], lsb[m..];
    assert Rest(x) == rest && RestDesc(x) == desc;
    assert rest[k] == x.ext[m + k] && desc[k] == x.desc[m + k] && from[k] == msb[m + k] && to[k] == lsb[m + k];
    LeftToRight(from, to, rest, desc, p, k);
  }

  /** What the address reads the leading indices as, in a state. */
  function LeadWords(a: Arena, d: Design, st: Store, x: Slice): (v: seq<Option<nat>>)
    requires WellFormed(a, d, x)
    ensures |v| == |x.lead|
  {
    Readings(a, d, st, x.ext, [], x.lead, ArrayWord, x.facts)
  }

  /** The base word of the slice in a state. */
  function BaseIn(a: Arena, d: Design, st: Store, x: Slice): Option<nat>
    requires WellFormed(a, d, x)
  {
    SliceBase(x.ext, LeadWords(a, d, st, x))
  }

  /** The base node means the slice's base word in every state. */
  ghost predicate BaseMeans(a0: Arena, a: Arena, d: Design, x: Slice, base: Option<nat>)
    requires WellFormed(a0, d, x)
  {
    Narrow(a0, d, x) ==> forall st: Store ::
      MeansSum(a, d, st, base, BaseIn(a0, d, st, x)) && WordValue(BaseIn(a0, d, st, x))
  }

  method LowerBase(el: Elaborator, x: Slice) returns (base: Option<nat>)
    requires WellFormed(el.exprs, el.design, x)
    modifies el
    ensures Extends(old(el.exprs), el.exprs) && Live(el.exprs, base)
    ensures el.errors == old(el.errors)
    ensures BaseMeans(old(el.exprs), el.exprs, el.design, x, base)
  {
    if x.lead == [] {
      base := None;
    } else {
      NoNegativeAscending(x.ext, |x.lead|);
      var b := FlattenWordEids(el, x.ext, x.lead, [], ArrayWord, x.facts);
      base := Some(b);
    }
  }

  lemma {:induction false} NoNegativeAscending(ext: seq<Dim>, k: nat)
    requires k <= |ext|
    ensures NegativeAscending(ext, [], k) == 0
  {
    if k != 0 { NoNegativeAscending(ext, k - 1); }
  }

  /** Copy `i` names position `i` of both slices in every state. */
  ghost predicate Names(a0: Arena, a: Arena, d: Design, s: Stmt, t: Slice, f: Slice, toff: nat, soff: nat)
    requires WellFormed(a0, d, t) && WellFormed(a0, d, f)
  {
    s.tNet == t.net && s.sNet == f.net
    && (Narrow(a0, d, t) ==> forall st: Store :: IsWord(a, d, st, s.tWord, ElementAt(BaseIn(a0, d, st, t), toff)))
    && (Narrow(a0, d, f) ==> forall st: Store :: IsWord(a, d, st, s.sWord, ElementAt(BaseIn(a0, d, st, f), soff)))
  }

  lemma NamesExtends(a0: Arena, a: Arena, b: Arena, d: Design, s: Stmt, t: Slice, f: Slice, toff: nat, soff: nat)
    requires WellFormed(a0, d, t) && WellFormed(a0, d, f) && Extends(a, b) && Names(a0, a, d, s, t, f, toff, soff)
    ensures Names(a0, b, d, s, t, f, toff, soff)
  {
    hide IsWord;
    if Narrow(a0, d, t) {
      forall st: Store
        ensures IsWord(b, d, st, s.tWord, ElementAt(BaseIn(a0, d, st, t), toff))
      {
        WordExtends(a, b, d, st, s.tWord, ElementAt(BaseIn(a0, d, st, t), toff));
      }
    }
    if Narrow(a0, d, f) {
      forall st: Store
        ensures IsWord(b, d, st, s.sWord, ElementAt(BaseIn(a0, d, st, f), soff))
      {
        WordExtends(a, b, d, st, s.sWord, ElementAt(BaseIn(a0, d, st, f), soff));
      }
    }
  }

  /** Whether some leading index, of either side, is seen to read the target. */
  method ReadsTarget(asts: seq<AliasGuard.IndexAst>, target: nat) returns (r: bool)
    ensures r <==> exists e :: e in asts && AliasGuard.ReadsNet(e, target)
  {
    for k := 0 to |asts|
      invariant forall j :: 0 <= j < k ==> !AliasGuard.ReadsNet(asts[j], target)
    {
      assert asts[k] in asts;
      if AliasGuard.ReadsNet(asts[k], target) {
        return true;
      }
    }
    r := false;
  }

  /** Expand `t = f`: the bases once, then one copy per position. A refusal is an error and emits nothing. */
  method AssignArray(el: Elaborator, t: Slice, f: Slice, nonblocking: bool, delay: Option<nat>) returns (stmts: seq<Stmt>)
    requires WellFormed(el.exprs, el.design, t) && WellFormed(el.exprs, el.design, f)
    modifies el
    ensures Extends(old(el.exprs), el.exprs)
    ensures el.errors == old(el.errors) + if Refused(t, f, nonblocking, delay).None? then 0 else 1
    ensures Refused(t, f, nonblocking, delay).Some? ==> stmts == []
    ensures Refused(t, f, nonblocking, delay).None? ==>
              |stmts| == Product(Rest(t)) == Product(Rest(f))
              && (forall i :: 0 <= i < |stmts| ==>
                   Names(old(el.exprs), el.exprs, el.design, stmts[i], t, f,
                         Residual(Rest(t), RestDesc(t), i), Residual(Rest(f), RestDesc(f), i)))
              && forall i :: 0 <= i < |stmts| ==>
                   stmts[i].nonblocking == nonblocking && stmts[i].delay == if nonblocking then delay else None
  {
    hide GuardRefuses, Names, AliasGuard.ReadsNet;
    stmts := [];
    var rt, rf := Rest(t), Rest(f);
    if !SameSizes(rt, rf) {
      el.Error();
      return;
    }
    if t.elem.width != f.elem.width || t.elem.isReal != f.elem.isReal || t.elem.signed != f.elem.signed {
      el.Error();
      return;
    }
    if !nonblocking && delay.Some? {
      el.Error();
      return;
    }
    var refused := ReadsTarget(t.ast + f.ast, t.net);
    GuardMeans(t, f);
    if refused {
      el.Error();
      return;
    }
    SameProduct(rt, rf);
    if Product(rt) > UNROLL_CAP {
      el.Error();
      return;
    }
    stmts := Expand(el, t, f, nonblocking, if nonblocking then delay else None);
  }

  lemma GuardMeans(t: Slice, f: Slice)
    ensures GuardRefuses(t, f) <==> exists e :: e in t.ast + f.ast && AliasGuard.ReadsNet(e, t.net)
  {
  }

  /** The copies of an accepted assignment. */
  method Expand(el: Elaborator, t: Slice, f: Slice, nonblocking: bool, delay: Option<nat>) returns (stmts: seq<Stmt>)
    requires WellFormed(el.exprs, el.design, t) && WellFormed(el.exprs, el.design, f)
    requires SameSizes(Rest(t), Rest(f)) && Product(Rest(t)) <= UNROLL_CAP
    modifies el
    ensures Extends(old(el.exprs), el.exprs) && el.errors == old(el.errors)
    ensures |stmts| == Product(Rest(t)) == Product(Rest(f))
    ensures forall i :: 0 <= i < |stmts| ==>
              Names(old(el.exprs), el.exprs, el.design, stmts[i], t, f,
                    Residual(Rest(t), RestDesc(t), i), Residual(Rest(f), RestDesc(f), i))
    ensures forall i :: 0 <= i < |stmts| ==> stmts[i].nonblocking == nonblocking && stmts[i].delay == delay
  {
    hide IsWord, Residual, FlatWord, Product, Names, Narrow, BaseIn, BaseMeans;
    ghost var a0, d := el.exprs, el.design;
    stmts := [];
    var rt, rf := Rest(t), Rest(f);
    SameProduct(rt, rf);
    var n := Product(rt);
    var toffs := ResidualWordOffsets(rt, RestDesc(t));
    var soffs := ResidualWordOffsets(rf, RestDesc(f));
    var tBase := LowerBase(el, t);
    ghost var a1 := el.exprs;
    WellFormedExtends(a0, a1, d, f);
    var sBase := LowerBase(el, f);
    ghost var a2 := el.exprs;
    BasesAgree(a0, a1, a2, d, t, f, tBase, sBase);
    var i := 0;
    while i < n
      invariant 0 <= i <= n && |stmts| == i && Extends(a2, el.exprs) && el.errors == old(el.errors)
      invariant forall j :: 0 <= j < i ==> Names(a0, el.exprs, d, stmts[j], t, f, toffs[j], soffs[j])
      invariant forall j :: 0 <= j < i ==> stmts[j].nonblocking == nonblocking && stmts[j].delay == delay
    {
      ghost var a3 := el.exprs;
      OffsetsAreWords(rt, RestDesc(t), i);
      OffsetsAreWords(rf, RestDesc(f), i);
      var s := ElementCopy(el, a0, a2, t, f, tBase, sBase, toffs[i], soffs[i], nonblocking, delay);
      forall j | 0 <= j < i ensures Names(a0, el.exprs, d, stmts[j], t, f, toffs[j], soffs[j]) {
        NamesExtends(a0, a3, el.exprs, d, stmts[j], t, f, toffs[j], soffs[j]);
      }
      stmts := stmts + [s];
      i := i + 1;
    }
  }

  lemma {:induction false} OffsetsAreWords(ext: seq<Dim>, desc: seq<bool>, i: nat)
    requires Sized(ext) && i < Product(ext) <= UNROLL_CAP
    ensures Residual(ext, desc, i) < WORD
  {
    ResidualBelow(ext, desc, i);
  }

  lemma {:induction false} SameProduct(x: seq<Dim>, y: seq<Dim>)
    requires SameSizes(x, y)
    ensures Product(x) == Product(y)
  {
    if x != [] { SameProduct(x[1..], y[1..]); }
  }

  lemma WellFormedExtends(a0: Arena, a: Arena, d: Design, x: Slice)
    requires WellFormed(a0, d, x) && Extends(a0, a)
    ensures WellFormed(a, d, x)
    ensures Narrow(a, d, x) == Narrow(a0, d, x)
    ensures forall st: Store :: BaseIn(a, d, st, x) == BaseIn(a0, d, st, x)
  {
    hide BaseIn, Narrow;
    forall k | 0 <= k < |x.lead| ensures ShapeOf(a, d, x.lead[k]) == ShapeOf(a0, d, x.lead[k]) {
      ShapeExtends(a0, a, d, x.lead[k]);
    }
    NarrowExtends(a0, a, d, Store(map[], (_, _, _) => []), x);
    forall st: Store ensures BaseIn(a, d, st, x) == BaseIn(a0, d, st, x) {
      NarrowExtends(a0, a, d, st, x);
    }
  }

  lemma NarrowExtends(a0: Arena, a: Arena, d: Design, st: Store, x: Slice)
    requires WellFormed(a0, d, x) && WellFormed(a, d, x) && Extends(a0, a)
    ensures Narrow(a, d, x) == Narrow(a0, d, x) && BaseIn(a, d, st, x) == BaseIn(a0, d, st, x)
  {
    hide SealsNarrow, Reading, FlatWord;
    forall k | 0 <= k < |x.lead|
      ensures ShapeOf(a, d, x.lead[k]) == ShapeOf(a0, d, x.lead[k])
      ensures LeadWords(a, d, st, x)[k] == LeadWords(a0, d, st, x)[k]
    {
      ReadingExtends(a0, a, d, st, x.lead[k], ArrayWord, x.facts[k]);
    }
    assert LeadWords(a, d, st, x) == LeadWords(a0, d, st, x);
  }

  lemma BasesAgree(a0: Arena, a1: Arena, a2: Arena, d: Design, t: Slice, f: Slice, tBase: Option<nat>, sBase: Option<nat>)
    requires WellFormed(a0, d, t) && WellFormed(a0, d, f) && Extends(a0, a1) && Extends(a1, a2) && WellFormed(a1, d, f)
    requires BaseMeans(a0, a1, d, t, tBase) && BaseMeans(a1, a2, d, f, sBase)
    ensures BaseMeans(a0, a2, d, t, tBase) && BaseMeans(a0, a2, d, f, sBase)
  {
    hide IsWord, SliceBase;
    WellFormedExtends(a0, a1, d, f);
    if Narrow(a0, d, t) {
      forall st: Store
        ensures MeansSum(a2, d, st, tBase, BaseIn(a0, d, st, t))
      {
        BaseExtends(a1, a2, d, st, tBase, BaseIn(a0, d, st, t));
      }
    }
  }

  /** The two word expressions of one copy. */
  method ElementCopy(el: Elaborator, ghost a0: Arena, ghost a2: Arena, t: Slice, f: Slice,
                     tBase: Option<nat>, sBase: Option<nat>, toff: nat, soff: nat, nonblocking: bool,
                     delay: Option<nat>) returns (s: Stmt)
    requires WellFormed(a0, el.design, t) && WellFormed(a0, el.design, f) && Extends(a2, el.exprs)
    requires Live(a2, tBase) && Live(a2, sBase) && toff < WORD && soff < WORD
    requires BaseMeans(a0, a2, el.design, t, tBase) && BaseMeans(a0, a2, el.design, f, sBase)
    modifies el`exprs
    ensures Extends(old(el.exprs), el.exprs)
    ensures Names(a0, el.exprs, el.design, s, t, f, toff, soff)
    ensures s.nonblocking == nonblocking && s.delay == delay
  {
    hide IsWord, SliceBase;
    ghost var d, a3 := el.design, el.exprs;
    var tWord := WordExprAt(el, tBase, toff);
    ghost var a4 := el.exprs;
    var sWord := WordExprAt(el, sBase, soff);
    s := Stmt(t.net, tWord, f.net, sWord, nonblocking, delay);
    if Narrow(a0, d, t) {
      forall st: Store
        ensures IsWord(el.exprs, d, st, tWord, ElementAt(BaseIn(a0, d, st, t), toff))
      {
        BaseExtends(a2, a3, d, st, tBase, BaseIn(a0, d, st, t));
        WordExtends(a4, el.exprs, d, st, tWord, ElementAt(BaseIn(a0, d, st, t), toff));
      }
    }
    if Narrow(a0, d, f) {
      forall st: Store
        ensures IsWord(el.exprs, d, st, sWord, ElementAt(BaseIn(a0, d, st, f), soff))
      {
        BaseExtends(a2, a4, d, st, sBase, BaseIn(a0, d, st, f));
      }
    }
  }
}
