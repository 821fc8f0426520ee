/** The array-geometry compiler: from declared dimensions and already lowered index expressions to
    one flat word expression in the arena. */
module ArrayGeom {
  import opened Bits
  import opened Wrappers
  import opened Ir
  import opened RowMajor
  import opened Words
  import opened Emitter
  import opened IndexSeal
  import opened IndexSigns
  import opened Geometry

  /** The bit that fills an extension of `raw`. */
  method FillBit(el: Elaborator, raw: nat, w: nat, signed: bool) returns (fill: nat)
    requires raw < |el.exprs| && w == ShapeOf(el.exprs, el.design, raw).width && 1 <= w < 32
    modifies el`exprs
    ensures Extends(old(el.exprs), el.exprs) && fill < |el.exprs|
    ensures ShapeOf(el.exprs, el.design, fill).width == 1
    ensures forall st: Store :: EvalSelf(el.exprs, el.design, st, fill)
                             == [Fill(EvalSelf(old(el.exprs), el.design, st, raw), signed)]
  {
    hide ToNat, Pow2, Eval, Resize, SelectBits, EvalSelf, Extends;
    if signed {
      fill := SignBit(el, raw, w);
    } else {
      fill := ZeroBit(el, raw);
    }
  }

  method SignBit(el: Elaborator, raw: nat, w: nat) returns (fill: nat)
    requires raw < |el.exprs| && w == ShapeOf(el.exprs, el.design, raw).width && 1 <= w < 32
    modifies el`exprs
    ensures Extends(old(el.exprs), el.exprs) && fill < |el.exprs|
    ensures ShapeOf(el.exprs, el.design, fill).width == 1
    ensures forall st: Store :: EvalSelf(el.exprs, el.design, st, fill)
                             == [Fill(EvalSelf(old(el.exprs), el.design, st, raw), true)]
  {
    hide ToNat, Pow2, Eval, Resize, SelectBits;
    ghost var a0, d := el.exprs, el.design;
    var off := el.ConstU32(w - 1, 32);
    var wid := el.ConstU32(1, 32);
    fill := el.Push(Select(raw, off, wid, SelBit));
    forall st: Store ensures EvalSelf(el.exprs, d, st, fill) == [Fill(EvalSelf(a0, d, st, raw), true)] {
      SignBitNodes(a0, el.exprs, d, st, raw, w, off, fill);
    }
  }

  method ZeroBit(el: Elaborator, raw: nat) returns (fill: nat)
    requires raw < |el.exprs|
    modifies el`exprs
    ensures Extends(old(el.exprs), el.exprs) && fill < |el.exprs|
    ensures ShapeOf(el.exprs, el.design, fill).width == 1
    ensures forall st: Store :: EvalSelf(el.exprs, el.design, st, fill)
                             == [Fill(EvalSelf(old(el.exprs), el.design, st, raw), false)]
  {
    hide ToNat, Pow2, Eval, Resize, SelectBits;
    ghost var a0, d := el.exprs, el.design;
    fill := el.ConstU32(0, 1);
    forall st: Store ensures EvalSelf(el.exprs, d, st, fill) == [Fill(EvalSelf(a0, d, st, raw), false)] {
      ZeroBitNode(el.exprs, d, st, fill);
    }
  }

  lemma SignBitNodes(a0: Arena, a: Arena, d: Design, st: Store, raw: nat, w: nat, off: nat, fill: nat)
    requires Extends(a0, a) && raw < |a0| && ShapeOf(a0, d, raw).width == w && 1 <= w < 32
    requires off < fill < |a| && IsWordConst(a, off, w - 1)
    requires a[fill].Select? && a[fill].base == raw && a[fill].offset == off && a[fill].kind.SelBit?
    ensures EvalSelf(a, d, st, fill) == [Fill(EvalSelf(a0, d, st, raw), true)]
  {
    hide FromNat, Pow2;
    Pow2Word();
    EvalSelfExtends(a0, a, d, st, raw);
    ConstSelf(a, d, st, off, w - 1, 32);
    SignBitSelect(a, d, st, fill, raw);
  }

  lemma ZeroBitNode(a: Arena, d: Design, st: Store, e: nat)
    requires e < |a| && a[e] == Const(FromNat(0, 1), false)
    ensures EvalSelf(a, d, st, e) == [B0]
  {
    assert Pow2(1) == 2;
    ConstSelf(a, d, st, e, 0, 1);
    assert FromNat(0, 1) == [B0];
  }

  function ExtendedWord(v: Vec, signed: bool): Option<nat> {
    if Known(v) then Some(ToInt(v, signed) % WORD) else None
  }

  /** Widen `raw` (self width `w`) to 32 bits: `{ {32-w{fill}}, raw }`. */
  method ExtendToWord(el: Elaborator, raw: nat, w: nat, signed: bool) returns (r: nat)
    requires raw < |el.exprs| && w == ShapeOf(el.exprs, el.design, raw).width && 1 <= w < 32
    modifies el`exprs
    ensures Extends(old(el.exprs), el.exprs) && r < |el.exprs|
    ensures forall st: Store :: IsWord(el.exprs, el.design, st, r,
                                       ExtendedWord(EvalSelf(old(el.exprs), el.design, st, raw), signed))
  {
    hide IsWord, FromNat, ToNat, Pow2, Fill;
    ghost var a0, d := el.exprs, el.design;
    var fill := FillBit(el, raw, w, signed);
    ghost var a1 := el.exprs;
    var count := el.ConstU32(32 - w, 32);
    var rep := el.Push(Replicate(count, fill));
    r := el.Push(Concat([rep, raw]));
    ghost var a := el.exprs;
    Pow2Word();
    ConstFolds(a, count, 32 - w, 32, 0);
    forall st: Store
      ensures IsWord(a, d, st, r, ExtendedWord(EvalSelf(a0, d, st, raw), signed))
    {
      EvalSelfExtends(a0, a, d, st, raw);
      EvalSelfExtends(a1, a, d, st, fill);
      ExtensionIsWord(a, d, st, r, raw, signed);
    }
  }

  /** Cut a wide index to its low 32 bits, spreading any unknown bit first. */
  method LowWord(el: Elaborator, raw: nat) returns (r: nat)
    requires raw < |el.exprs| && ShapeOf(el.exprs, el.design, raw).width > 32
    modifies el`exprs
    ensures Extends(old(el.exprs), el.exprs) && r < |el.exprs|
    ensures forall st: Store :: IsWord(el.exprs, el.design, st, r, IndexWord(old(el.exprs), el.design, st, raw))
  {
    ghost var a0, d := el.exprs, el.design;
    var one := el.ConstU32(1, 32);
    var spread := el.Push(Binary(Mul, raw, one));
    var off := el.ConstU32(0, 32);
    var wid := el.ConstU32(32, 32);
    r := el.Push(Select(spread, off, wid, PartConst));
    forall st: Store ensures IsWord(el.exprs, d, st, r, IndexWord(a0, d, st, raw)) {
      LowWordNodes(a0, el.exprs, d, st, raw, one, spread, off, wid, r);
    }
  }

  lemma LowWordNodes(a0: Arena, a: Arena, d: Design, st: Store, raw: nat,
                     one: nat, spread: nat, off: nat, wid: nat, r: nat)
    requires Extends(a0, a) && raw < |a0| && ShapeOf(a0, d, raw).width > 32
    requires raw < spread && off < r && wid < r && spread < r < |a|
    requires IsWordConst(a, one, 1) && IsWordConst(a, off, 0) && IsWordConst(a, wid, 32)
    requires a[spread] == Binary(Mul, raw, one) && a[r] == Select(spread, off, wid, PartConst)
    ensures IsWord(a, d, st, r, IndexWord(a0, d, st, raw))
  {
    Pow2Word();
    ConstFolds(a, wid, 32, 32, 1);
    IndexWordExtends(a0, a, d, st, raw);
    ConstSelf(a, d, st, off, 0, 32);
    LowWordIsWord(a, d, st, r, raw);
  }

  lemma IndexWordExtends(a: Arena, b: Arena, d: Design, st: Store, e: nat)
    requires Extends(a, b) && e < |a|
    ensures IndexWord(b, d, st, e) == IndexWord(a, d, st, e)
    ensures SignStable(b, d, st, e) == SignStable(a, d, st, e)
    ensures ShapeOf(b, d, e) == ShapeOf(a, d, e)
  {
    EvalSelfExtends(a, b, d, st, e);
    EvalExtends(a, b, d, st, e, ShapeOf(a, d, e).width, false);
    EvalExtends(a, b, d, st, e, 32, false);
    EvalExtends(a, b, d, st, e, 32, true);
  }

  /** `{ 1'b0, raw }`: one more bit, and the same number. */
  method ZeroTop(el: Elaborator, raw: nat) returns (r: nat)
    requires raw < |el.exprs| && ShapeOf(el.exprs, el.design, raw).width >= 1
    modifies el`exprs
    ensures Extends(old(el.exprs), el.exprs) && r < |el.exprs| && el.exprs[r].Concat?
    ensures ShapeOf(old(el.exprs), el.design, raw).width < WIDTH_MAX ==>
              forall st: Store ::
                EvalSelf(el.exprs, el.design, st, r) == EvalSelf(old(el.exprs), el.design, st, raw) + [B0]
  {
    ghost var a0, d := el.exprs, el.design;
    var zero := el.ConstU32(0, 1);
    r := el.Push(Concat([zero, raw]));
    if ShapeOf(a0, d, raw).width < WIDTH_MAX {
      forall st: Store ensures EvalSelf(el.exprs, d, st, r) == EvalSelf(a0, d, st, raw) + [B0] {
        ZeroTopNodes(a0, el.exprs, d, st, raw, zero, r);
      }
    }
  }

  lemma {:induction false} ZeroTopNodes(a0: Arena, a: Arena, d: Design, st: Store, raw: nat, zero: nat, r: nat)
    requires Extends(a0, a) && raw < |a0| && zero < r < |a| && raw < r && a[r] == Concat([zero, raw])
    requires a[zero] == Const(FromNat(0, 1), false) && 1 <= ShapeOf(a0, d, raw).width < WIDTH_MAX
    ensures EvalSelf(a, d, st, r) == EvalSelf(a0, d, st, raw) + [B0]
  {
    hide FromNat, Pow2;
    EvalSelfExtends(a0, a, d, st, raw);
    ZeroBitNode(a, d, st, zero);
    TwoParts(a, d, st, [zero, raw], r);
    var v := EvalSelf(a, d, st, raw) + [B0];
    assert Resize(v, |v|, false) == v;
  }

  /** Seal an index at its own self-determined width. */
  method SealIndexUnsigned(el: Elaborator, raw: nat, domain: IndexDomain, f: Facts) returns (r: nat)
    requires raw < |el.exprs| && ShapeOf(el.exprs, el.design, raw).width >= 1
    modifies el`exprs
    ensures Extends(old(el.exprs), el.exprs) && r < |el.exprs|
    ensures SealsToWord(ShapeOf(old(el.exprs), el.design, raw), domain, f) ==>
              forall st: Store :: SignStable(old(el.exprs), el.design, st, raw) ==>
                IsWord(el.exprs, el.design, st, r, IndexWord(old(el.exprs), el.design, st, raw))
    ensures f.widthKnown && !ShapeOf(old(el.exprs), el.design, raw).signed && f.provablyUnsigned
            && (domain.PackedElem? || f.constant) && ShapeOf(old(el.exprs), el.design, raw).width < WIDTH_MAX ==>
              forall st: Store ::
                EvalSelf(el.exprs, el.design, st, r) == EvalSelf(old(el.exprs), el.design, st, raw) + [B0]
    ensures SealsNarrow(ShapeOf(old(el.exprs), el.design, raw), domain, f) ==>
              forall st: Store :: SealMeans(old(el.exprs), el.exprs, el.design, st, raw, r, domain, f)
  {
    hide IsWord, SealMeans;
    ghost var a0, d := el.exprs, el.design;
    r := raw;
    if !f.widthKnown {
      RawMeans(el.exprs, d, raw, domain, f);
      return;
    }
    var sw := ShapeOf(el.exprs, el.design, raw);
    if domain.PackedElem? {
      if sw.signed && sw.width < 32 && f.repeatable {
        r := ExtendToWord(el, raw, sw.width, true);
      } else if !sw.signed && f.provablyUnsigned {
        r := ZeroTop(el, raw);
        TopMeans(a0, el.exprs, d, raw, r, domain, f);
      } else {
        RawWords(el.exprs, d, raw);
        RawMeans(el.exprs, d, raw, domain, f);
      }
    } else if f.constant {
      if !sw.signed && f.provablyUnsigned {
        r := ZeroTop(el, raw);
        TopMeans(a0, el.exprs, d, raw, r, domain, f);
      } else if sw.signed && sw.width < 32 {
        var e := el.exprs[raw];
        if e.Const? && |e.bits| == sw.width && Known(e.bits) {
          r := FoldSigned(el, raw);
        } else {
          r := ExtendToWord(el, raw, sw.width, true);
        }
      } else {
        RawWords(el.exprs, d, raw);
        RawMeans(el.exprs, d, raw, domain, f);
      }
    } else if sw.width > 32 {
      r := LowWord(el, raw);
    } else if sw.width == 32 {
      RawWords(el.exprs, d, raw);
      RawMeans(el.exprs, d, raw, domain, f);
    } else if !sw.signed || f.repeatable {
      r := ExtendToWord(el, raw, sw.width, sw.signed);
    } else {
      RawMeans(el.exprs, d, raw, domain, f);
    }
    if !KeptRaw(sw, domain, f) && !ZeroTopped(sw, domain, f) {
      WordMeans(a0, el.exprs, d, raw, r, domain, f);
    }
  }

  /** What the sealed node is read as, inside unsigned arithmetic and alone. */
  ghost predicate SealMeans(a0: Arena, a: Arena, d: Design, st: Store, raw: nat, r: nat, domain: IndexDomain, f: Facts)
    requires raw < |a0|
  {
    ReadsAs(a, d, st, r, AddressWord(a0, d, st, raw, domain, f))
    && IndexOf(EvalSelf(a, d, st, r)) == LoneWord(a0, d, st, raw, domain, f)
  }

  lemma {:induction false} RawMeans(a: Arena, d: Design, raw: nat, domain: IndexDomain, f: Facts)
    requires raw < |a| && 1 <= ShapeOf(a, d, raw).width && KeptRaw(ShapeOf(a, d, raw), domain, f)
    ensures ShapeOf(a, d, raw).width <= 32 ==> forall st: Store :: SealMeans(a, a, d, st, raw, raw, domain, f)
  {
    hide ToNat, FromNat;
    if ShapeOf(a, d, raw).width <= 32 {
      forall st: Store ensures SealMeans(a, a, d, st, raw, raw, domain, f) {
        SpellsSelf(Eval(a, d, st, raw, 32, false));
      }
    }
  }

  lemma {:induction false} WordMeans(a0: Arena, a: Arena, d: Design, raw: nat, r: nat, domain: IndexDomain, f: Facts)
    requires raw < |a0| && !KeptRaw(ShapeOf(a0, d, raw), domain, f)
    requires forall st: Store :: IsWord(a, d, st, r, IndexWord(a0, d, st, raw))
    ensures forall st: Store :: SealMeans(a0, a, d, st, raw, r, domain, f)
  {
    hide IsWord, ReadsAs, IndexWord;
    forall st: Store ensures SealMeans(a0, a, d, st, raw, r, domain, f) {
      WordReads(a, d, st, r, IndexWord(a0, d, st, raw));
      WordIndex(a, d, st, r, IndexWord(a0, d, st, raw));
    }
  }

  lemma {:induction false} TopMeans(a0: Arena, a: Arena, d: Design, raw: nat, r: nat, domain: IndexDomain, f: Facts)
    requires raw < |a0| && r < |a| && a[r].Concat? && !KeptRaw(ShapeOf(a0, d, raw), domain, f)
    requires !ShapeOf(a0, d, raw).signed && 1 <= ShapeOf(a0, d, raw).width
    requires ShapeOf(a0, d, raw).width < WIDTH_MAX ==>
               forall st: Store :: EvalSelf(a, d, st, r) == EvalSelf(a0, d, st, raw) + [B0]
    ensures ShapeOf(a0, d, raw).width < 32 ==> forall st: Store :: SealMeans(a0, a, d, st, raw, r, domain, f)
  {
    hide ToNat, FromNat, Pow2;
    if ShapeOf(a0, d, raw).width < 32 {
      forall st: Store ensures SealMeans(a0, a, d, st, raw, r, domain, f) {
        var v := EvalSelf(a0, d, st, raw);
        TopNumber(v);
        ConcatReads(a, d, st, r);
      }
    }
  }

  lemma {:induction false} TopNumber(v: Vec)
    requires 1 <= |v| < 32
    ensures
      var n := if Known(v) then Some(ToInt(v, false) % WORD) else None;
      IndexOf(v + [B0]) == n && Spells(Resize(v + [B0], 32, false), n)
  {
    hide ToNat, FromNat, Pow2;
    var u := v + [B0];
    Pow2Word();
    Pow2Monotone(|v|, 32);
    ToNatAppend(v, [B0]);
    assert ToNat([B0]) == 0 by { ZeroBitNumber(); }
    ExtensionSpells(u, false);
    if Known(v) {
      SmallMod(ToNat(v), WORD);
    } else {
      var i :| 0 <= i < |v| && v[i] == BX;
      assert u[i] == BX;
    }
  }

  lemma ZeroBitNumber()
    ensures ToNat([B0]) == 0
  {
    assert [B0][1..] == [];
  }

  /** A narrow concatenation keeps its own value in a wider context. */
  lemma {:induction false} ConcatReads(a: Arena, d: Design, st: Store, e: nat)
    requires e < |a| && a[e].Concat? && 2 <= ShapeOf(a, d, e).width <= 32
    ensures Eval(a, d, st, e, 32, false) == Resize(EvalSelf(a, d, st, e), 32, false)
  {
    var v := EvalParts(a, d, st, a[e].parts, e);
    assert |v| == ShapeOf(a, d, e).width && Resize(v, |v|, false) == v;
  }

  /** A bare narrow signed literal folds to one sign-extended literal. */
  method FoldSigned(el: Elaborator, raw: nat) returns (r: nat)
    requires raw < |el.exprs| && el.exprs[raw].Const? && Known(el.exprs[raw].bits)
    requires 1 <= |el.exprs[raw].bits| < 32 && ShapeOf(el.exprs, el.design, raw).signed
    requires ShapeOf(el.exprs, el.design, raw).width == |el.exprs[raw].bits|
    modifies el`exprs
    ensures Extends(old(el.exprs), el.exprs) && r < |el.exprs|
    ensures forall st: Store :: IsWord(el.exprs, el.design, st, r, IndexWord(old(el.exprs), el.design, st, raw))
  {
    ghost var a0, d := el.exprs, el.design;
    var bits := el.exprs[raw].bits;
    var n: nat := ToInt(bits, true) % WORD;
    r := el.ConstU32(n, 32);
    ghost var a := el.exprs;
    forall st: Store ensures IsWord(a, d, st, r, IndexWord(a0, d, st, raw)) {
      assert Resize(bits, |bits|, true) == bits;
      assert EvalSelf(a0, d, st, raw) == bits;
      ConstIsWord(a, d, st, r, n);
    }
  }

  lemma RawWords(a: Arena, d: Design, raw: nat)
    requires raw < |a|
    ensures ShapeOf(a, d, raw).width == 32 ==>
              forall st: Store :: SignStable(a, d, st, raw) ==> IsWord(a, d, st, raw, IndexWord(a, d, st, raw))
  {
    if ShapeOf(a, d, raw).width == 32 {
      forall st: Store | SignStable(a, d, st, raw)
        ensures IsWord(a, d, st, raw, IndexWord(a, d, st, raw))
      {
        RawIsWord(a, d, st, raw);
      }
    }
  }

  /** The coordinate of the dimension is the index itself. */
  predicate Plain(dim: Dim, ascending: bool) { dim.lo == 0 && !ascending }

  /** The 0-based coordinate of a sealed index. */
  method DimCoord(el: Elaborator, i: nat, dim: Dim, ascending: bool) returns (c: nat)
    requires i < |el.exprs| && 1 <= dim.size < WORD
    modifies el
    ensures Extends(old(el.exprs), el.exprs) && c < |el.exprs|
    ensures el.errors == old(el.errors) + if ascending && dim.lo < 0 then 1 else 0
    ensures forall st: Store, v: Option<nat> :: ReadsAs(old(el.exprs), el.design, st, i, v) ==>
              ReadsAs(el.exprs, el.design, st, c, CoordOf(dim, ascending, v))
    ensures if Plain(dim, ascending) then c == i && el.exprs == old(el.exprs)
            else ShapeOf(old(el.exprs), el.design, i).width <= 32 ==> ShapeOf(el.exprs, el.design, c) == Shape(32, false)
  {
    hide ReadsAs, IsGuard, FromNat;
    ghost var a0, d := el.exprs, el.design;
    if ascending {
      if dim.lo < 0 { el.Error(); }
      var top := AscendingTop(dim.lo, dim.size);
      var hi := el.ConstU32(top, 32);
      c := el.Push(Binary(Sub, hi, i));
      ShapeExtends(a0, el.exprs, d, i);
      WordConstShape(el.exprs, d, hi, top);
      forall st: Store, v: Option<nat> | ReadsAs(a0, d, st, i, v)
        ensures ReadsAs(el.exprs, d, st, c, CoordOf(dim, ascending, v))
      {
        ReadsExtends(a0, el.exprs, d, st, i, v);
        ConstReads(el.exprs, d, st, hi, top);
        ArithReads(el.exprs, d, st, c, Some(top), v);
      }
    } else if dim.lo == 0 {
      c := i;
    } else {
      var n := if dim.lo > 0 then LowConst(dim.lo) else Magnitude(dim.lo);
      var k := el.ConstU32(n, 32);
      c := el.Push(if dim.lo > 0 then Binary(Sub, i, k) else Binary(Add, i, k));
      ShapeExtends(a0, el.exprs, d, i);
      WordConstShape(el.exprs, d, k, n);
      forall st: Store, v: Option<nat> | ReadsAs(a0, d, st, i, v)
        ensures ReadsAs(el.exprs, d, st, c, CoordOf(dim, ascending, v))
      {
        ReadsExtends(a0, el.exprs, d, st, i, v);
        ConstReads(el.exprs, d, st, k, n);
        ArithReads(el.exprs, d, st, c, v, Some(n));
      }
    }
  }

  lemma WordConstShape(a: Arena, d: Design, e: nat, n: nat)
    requires IsWordConst(a, e, n)
    ensures ShapeOf(a, d, e) == Shape(32, false)
  {
  }

  /** What a guard over index value `v` and coordinate value `c` answers. */
  function GuardFrom(dim: Dim, v: Option<nat>, c: Option<nat>): Bit
    requires dim.size >= 1
  {
    if dim.lo < 0 then CompareWords(Lt, c, Some(dim.size))
    else And(CompareWords(Ge, v, Some(LowConst(dim.lo))), CompareWords(Le, v, Some(HighConst(dim.lo, dim.size))))
  }

  /** The bounds check of one dimension: on the coordinate when the lower bound is negative, on the
      index otherwise. */
  method DimGuard(el: Elaborator, i: nat, coord: nat, dim: Dim) returns (g: nat)
    requires i < |el.exprs| && coord < |el.exprs| && 1 <= dim.size < WORD
    modifies el`exprs
    ensures Extends(old(el.exprs), el.exprs) && g < |el.exprs|
    ensures forall st: Store, v: Option<nat>, c: Option<nat> ::
              ReadsAs(old(el.exprs), el.design, st, i, v) && ReadsAs(old(el.exprs), el.design, st, coord, c) ==>
                IsGuard(el.exprs, el.design, st, g, GuardFrom(dim, v, c))
  {
    hide ReadsAs, IsGuard, FromNat;
    ghost var a0, d := el.exprs, el.design;
    if dim.lo < 0 {
      var size := el.ConstU32(dim.size, 32);
      g := el.Push(Binary(Lt, coord, size));
      forall st: Store, v: Option<nat>, c: Option<nat> | ReadsAs(a0, d, st, i, v) && ReadsAs(a0, d, st, coord, c)
        ensures IsGuard(el.exprs, d, st, g, GuardFrom(dim, v, c))
      {
        ReadsExtends(a0, el.exprs, d, st, coord, c);
        ConstReads(el.exprs, d, st, size, dim.size);
        CompareIsGuard(el.exprs, d, st, g, c, Some(dim.size));
      }
      return;
    }
    var low, high := LowConst(dim.lo), HighConst(dim.lo, dim.size);
    var lo := el.ConstU32(low, 32);
    var hi := el.ConstU32(high, 32);
    var ge := el.Push(Binary(Ge, i, lo));
    var le := el.Push(Binary(Le, i, hi));
    g := el.Push(Binary(LogAnd, ge, le));
    forall st: Store, v: Option<nat>, c: Option<nat> | ReadsAs(a0, d, st, i, v) && ReadsAs(a0, d, st, coord, c)
      ensures IsGuard(el.exprs, d, st, g, GuardFrom(dim, v, c))
    {
      var a := el.exprs;
      ReadsExtends(a0, a, d, st, i, v);
      ConstReads(a, d, st, lo, low);
      ConstReads(a, d, st, hi, high);
      CompareIsGuard(a, d, st, ge, v, Some(low));
      CompareIsGuard(a, d, st, le, v, Some(high));
      AndIsGuard(a, d, st, g, CompareWords(Ge, v, Some(low)), CompareWords(Le, v, Some(high)));
    }
  }

  // ---- the flattening loop ----

  /** The conjunction gathered so far means `t`; nothing gathered means true. */
  ghost predicate MeansGuard(a: Arena, d: Design, st: Store, valid: Option<nat>, t: Bit) {
    if valid.None? then t == B1 else IsGuard(a, d, st, valid.value, t)
  }

  /** The sum gathered so far is read as `s`; nothing gathered means zero. */
  ghost predicate ReadsSum(a: Arena, d: Design, st: Store, acc: Option<nat>, s: Option<nat>) {
    if acc.None? then s == Some(0) else ReadsAs(a, d, st, acc.value, s)
  }

  predicate Live(a: Arena, node: Option<nat>) { node.Some? ==> node.value < |a| }

  lemma MeansExtends(a: Arena, b: Arena, d: Design, st: Store, valid: Option<nat>, t: Bit, acc: Option<nat>, s: Option<nat>)
    requires Extends(a, b) && MeansGuard(a, d, st, valid, t) && ReadsSum(a, d, st, acc, s)
    ensures MeansGuard(b, d, st, valid, t) && ReadsSum(b, d, st, acc, s)
  {
    if valid.Some? { GuardExtends(a, b, d, st, valid.value, t); }
    if acc.Some? { ReadsExtends(a, b, d, st, acc.value, s); }
  }

  method Conjoin(el: Elaborator, valid: Option<nat>, g: nat) returns (v: nat)
    requires g < |el.exprs| && Live(el.exprs, valid)
    modifies el`exprs
    ensures Extends(old(el.exprs), el.exprs) && v < |el.exprs|
    ensures forall st: Store, s: Bit, t: Bit ::
              MeansGuard(old(el.exprs), el.design, st, valid, s) && IsGuard(old(el.exprs), el.design, st, g, t) ==>
                IsGuard(el.exprs, el.design, st, v, And(s, t))
  {
    ghost var a0, d := el.exprs, el.design;
    if valid.None? {
      v := g;
    } else {
      v := el.Push(Binary(LogAnd, valid.value, g));
      forall st: Store, s: Bit, t: Bit | MeansGuard(a0, d, st, valid, s) && IsGuard(a0, d, st, g, t)
        ensures IsGuard(el.exprs, d, st, v, And(s, t))
      {
        GuardExtends(a0, el.exprs, d, st, valid.value, s);
        GuardExtends(a0, el.exprs, d, st, g, t);
        AndIsGuard(el.exprs, d, st, v, s, t);
      }
    }
  }

  predicate WordValue(n: Option<nat>) { n.Some? ==> n.value < WORD }

  /** `coord * stride`, emitting no multiply by 1. */
  method Scale(el: Elaborator, coord: nat, stride: nat) returns (term: nat)
    requires coord < |el.exprs|
    modifies el`exprs
    ensures Extends(old(el.exprs), el.exprs) && term < |el.exprs|
    ensures forall st: Store, c: Option<nat> :: ReadsAs(old(el.exprs), el.design, st, coord, c) ==>
              ReadsAs(el.exprs, el.design, st, term, MulWord(c, Some(Min(stride, U32_MAX))))
    ensures stride == 1 ==> term == coord && el.exprs == old(el.exprs)
  {
    ghost var a0, d := el.exprs, el.design;
    term := coord;
    if stride == 1 {
      assert forall c: Option<nat> :: WordValue(c) ==> MulWord(c, Some(1)) == c;
    } else {
      var n := Min(stride, U32_MAX);
      var k := el.ConstU32(n, 32);
      term := el.Push(Binary(Mul, coord, k));
      forall st: Store, c: Option<nat> | ReadsAs(a0, d, st, coord, c)
        ensures ReadsAs(el.exprs, d, st, term, MulWord(c, Some(n)))
      {
        ReadsExtends(a0, el.exprs, d, st, coord, c);
        ConstReads(el.exprs, d, st, k, n);
        ArithReads(el.exprs, d, st, term, c, Some(n));
      }
    }
  }

  /** `acc + term`, emitting no addition to nothing. */
  method AddTo(el: Elaborator, acc: Option<nat>, term: nat) returns (r: nat)
    requires term < |el.exprs| && Live(el.exprs, acc)
    modifies el`exprs
    ensures Extends(old(el.exprs), el.exprs) && r < |el.exprs|
    ensures forall st: Store, s: Option<nat>, m: Option<nat> ::
              ReadsSum(old(el.exprs), el.design, st, acc, s) && ReadsAs(old(el.exprs), el.design, st, term, m) ==>
                ReadsAs(el.exprs, el.design, st, r, AddWord(s, m))
    ensures acc.None? ==> r == term && el.exprs == old(el.exprs)
  {
    ghost var a0, d := el.exprs, el.design;
    r := term;
    if acc.Some? {
      r := el.Push(Binary(Add, acc.value, term));
      forall st: Store, s: Option<nat>, m: Option<nat> | ReadsSum(a0, d, st, acc, s) && ReadsAs(a0, d, st, term, m)
        ensures ReadsAs(el.exprs, d, st, r, AddWord(s, m))
      {
        ReadsExtends(a0, el.exprs, d, st, acc.value, s);
        ReadsExtends(a0, el.exprs, d, st, term, m);
        ArithReads(el.exprs, d, st, r, s, m);
      }
    } else {
      assert forall m: Option<nat> :: WordValue(m) ==> AddWord(Some(0), m) == m;
    }
  }

  /** The guard joins the conjunction when there are two or more dimensions. A negative lower bound is
      guarded on the coordinate, so its coordinate is built first. */
  method GuardAndCoord(el: Elaborator, i: nat, dim: Dim, ascending: bool, guarded: bool, valid0: Option<nat>)
    returns (valid: Option<nat>, coord: nat)
    requires i < |el.exprs| && 1 <= dim.size < WORD && Live(el.exprs, valid0)
    modifies el
    ensures Extends(old(el.exprs), el.exprs) && Live(el.exprs, valid) && coord < |el.exprs|
    ensures el.errors == old(el.errors) + if ascending && dim.lo < 0 then 1 else 0
    ensures valid.Some? <==> guarded || valid0.Some?
    ensures Plain(dim, ascending) ==> coord == i
    ensures Plain(dim, ascending) && !guarded ==> el.exprs == old(el.exprs)
    ensures !Plain(dim, ascending) && ShapeOf(old(el.exprs), el.design, i).width <= 32 ==>
              ShapeOf(el.exprs, el.design, coord) == Shape(32, false)
    ensures forall st: Store, v: Option<nat> :: ReadsAs(old(el.exprs), el.design, st, i, v) ==>
              ReadsAs(el.exprs, el.design, st, coord, CoordOf(dim, ascending, v))
    ensures forall st: Store, v: Option<nat>, t: Bit ::
              ReadsAs(old(el.exprs), el.design, st, i, v) && MeansGuard(old(el.exprs), el.design, st, valid0, t) ==>
                MeansGuard(el.exprs, el.design, st, valid, if guarded then And(t, GuardOf(dim, ascending, v)) else t)
  {
    hide ReadsAs, IsGuard, GuardFrom, GuardOf, CoordOf, And, MeansGuard;
    ghost var a0, d := el.exprs, el.design;
    valid := valid0;
    var first := dim.lo < 0;
    coord := i;
    if first { coord := DimCoord(el, i, dim, ascending); }
    ghost var a1 := el.exprs;
    if guarded {
      valid := GuardInto(el, i, coord, dim, valid0);
    }
    ghost var a2 := el.exprs;
    ShapeExtends(a0, a2, d, i);
    if !first {
      coord := DimCoord(el, i, dim, ascending);
    } else {
      ShapeExtends(a1, a2, d, coord);
    }
    forall st: Store, v: Option<nat> | ReadsAs(a0, d, st, i, v)
      ensures ReadsAs(el.exprs, d, st, coord, CoordOf(dim, ascending, v))
    {
      if first { ReadsExtends(a1, el.exprs, d, st, coord, CoordOf(dim, ascending, v)); }
      else { ReadsExtends(a0, a2, d, st, i, v); }
    }
    forall st: Store, v: Option<nat>, t: Bit | ReadsAs(a0, d, st, i, v) && MeansGuard(a0, d, st, valid0, t)
      ensures MeansGuard(el.exprs, d, st, valid, if guarded then And(t, GuardOf(dim, ascending, v)) else t)
    {
      var u := if guarded then And(t, GuardOf(dim, ascending, v)) else t;
      GuardMeansExtends(a0, a1, d, st, valid0, t);
      if guarded {
        ReadsExtends(a0, a1, d, st, i, v);
        var c := if first then CoordOf(dim, ascending, v) else v;
        GuardFromIs(dim, ascending, v);
        assert ReadsAs(a1, d, st, if first then coord else i, c);
      }
      GuardMeansExtends(a2, el.exprs, d, st, valid, u);
    }
  }

  lemma GuardFromIs(dim: Dim, ascending: bool, v: Option<nat>)
    requires dim.size >= 1
    ensures GuardFrom(dim, v, if dim.lo < 0 then CoordOf(dim, ascending, v) else v) == GuardOf(dim, ascending, v)
  {
  }

  /** Guard one dimension and join it to the conjunction. */
  method GuardInto(el: Elaborator, i: nat, coord: nat, dim: Dim, valid0: Option<nat>) returns (valid: Option<nat>)
    requires i < |el.exprs| && coord < |el.exprs| && 1 <= dim.size < WORD && Live(el.exprs, valid0)
    modifies el`exprs
    ensures Extends(old(el.exprs), el.exprs) && Live(el.exprs, valid) && valid.Some?
    ensures forall st: Store, v: Option<nat>, c: Option<nat>, t: Bit ::
              ReadsAs(old(el.exprs), el.design, st, i, v) && ReadsAs(old(el.exprs), el.design, st, coord, c)
              && MeansGuard(old(el.exprs), el.design, st, valid0, t) ==>
                MeansGuard(el.exprs, el.design, st, valid, And(t, GuardFrom(dim, v, c)))
  {
    ghost var a0, d := el.exprs, el.design;
    var g := DimGuard(el, i, coord, dim);
    ghost var a1 := el.exprs;
    var v := Conjoin(el, valid0, g);
    valid := Some(v);
    forall st: Store, v: Option<nat>, c: Option<nat>, t: Bit |
      ReadsAs(a0, d, st, i, v) && ReadsAs(a0, d, st, coord, c) && MeansGuard(a0, d, st, valid0, t)
      ensures MeansGuard(el.exprs, d, st, valid, And(t, GuardFrom(dim, v, c)))
    {
      MeansExtends(a0, a1, d, st, valid0, t, None, Some(0));
    }
  }

  predicate SealedAt(a: Arena, d: Design, st: Store, raw: nat, domain: IndexDomain, f: Facts)
    requires raw < |a|
  {
    SealsToWord(ShapeOf(a, d, raw), domain, f) && SignStable(a, d, st, raw)
  }

  /** After index word `v`, the conjunction and the sum that meant `t` and `s` have taken it in. */
  ghost predicate StepMeans(a: Arena, d: Design, st: Store, dim: Dim, ascending: bool, stride: nat, guarded: bool,
                            v: Option<nat>, valid: Option<nat>, acc: Option<nat>, t: Bit, s: Option<nat>)
    requires dim.size >= 1
  {
    MeansGuard(a, d, st, valid, if guarded then And(t, GuardOf(dim, ascending, v)) else t)
    && ReadsSum(a, d, st, acc, AddWord(s, MulWord(CoordOf(dim, ascending, v), Some(Min(stride, U32_MAX)))))
  }

  /** The term of a coordinate joins the sum. */
  method AddTerm(el: Elaborator, coord: nat, stride: nat, acc0: Option<nat>) returns (acc: nat)
    requires coord < |el.exprs| && Live(el.exprs, acc0)
    modifies el`exprs
    ensures Extends(old(el.exprs), el.exprs) && acc < |el.exprs|
    ensures stride == 1 && acc0.None? ==> acc == coord && el.exprs == old(el.exprs)
    ensures forall st: Store, c: Option<nat>, s: Option<nat> ::
              ReadsAs(old(el.exprs), el.design, st, coord, c) && ReadsSum(old(el.exprs), el.design, st, acc0, s) ==>
                ReadsAs(el.exprs, el.design, st, acc, AddWord(s, MulWord(c, Some(Min(stride, U32_MAX)))))
  {
    hide ReadsAs, AddWord, MulWord;
    ghost var a0, d := el.exprs, el.design;
    var term := Scale(el, coord, stride);
    ghost var a1 := el.exprs;
    acc := AddTo(el, acc0, term);
    forall st: Store, c: Option<nat>, s: Option<nat> | ReadsAs(a0, d, st, coord, c) && ReadsSum(a0, d, st, acc0, s)
      ensures ReadsAs(el.exprs, d, st, acc, AddWord(s, MulWord(c, Some(Min(stride, U32_MAX)))))
    {
      SumExtends(a0, a1, d, st, acc0, s);
      assert ReadsAs(a1, d, st, term, MulWord(c, Some(Min(stride, U32_MAX))));
    }
  }

  lemma SumExtends(a: Arena, b: Arena, d: Design, st: Store, acc: Option<nat>, s: Option<nat>)
    requires Extends(a, b) && ReadsSum(a, d, st, acc, s)
    ensures ReadsSum(b, d, st, acc, s)
  {
    if acc.Some? { ReadsExtends(a, b, d, st, acc.value, s); }
  }

  lemma GuardMeansExtends(a: Arena, b: Arena, d: Design, st: Store, valid: Option<nat>, t: Bit)
    requires Extends(a, b) && MeansGuard(a, d, st, valid, t)
    ensures MeansGuard(b, d, st, valid, t)
  {
    if valid.Some? { GuardExtends(a, b, d, st, valid.value, t); }
  }

  /** The guard, the coordinate and the term of a sealed index. */
  method TakeIn(el: Elaborator, i: nat, dim: Dim, ascending: bool, stride: nat, guarded: bool,
                valid0: Option<nat>, acc0: Option<nat>) returns (valid: Option<nat>, acc: Option<nat>)
    requires i < |el.exprs| && 1 <= dim.size < WORD && Live(el.exprs, valid0) && Live(el.exprs, acc0)
    modifies el
    ensures Extends(old(el.exprs), el.exprs) && Live(el.exprs, valid) && Live(el.exprs, acc) && acc.Some?
    ensures el.errors == old(el.errors) + if ascending && dim.lo < 0 then 1 else 0
    ensures valid.Some? <==> guarded || valid0.Some?
    ensures forall st: Store, v: Option<nat>, t: Bit, s: Option<nat> ::
              ReadsAs(old(el.exprs), el.design, st, i, v) && MeansGuard(old(el.exprs), el.design, st, valid0, t)
              && ReadsSum(old(el.exprs), el.design, st, acc0, s) ==>
                StepMeans(el.exprs, el.design, st, dim, ascending, stride, guarded, v, valid, acc, t, s)
    ensures stride == 1 && acc0.None? && Plain(dim, ascending) ==> acc.value == i
    ensures stride == 1 && acc0.None? && Plain(dim, ascending) && !guarded ==> el.exprs == old(el.exprs)
    ensures stride == 1 && acc0.None? && !Plain(dim, ascending) && ShapeOf(old(el.exprs), el.design, i).width <= 32 ==>
              ShapeOf(el.exprs, el.design, acc.value) == Shape(32, false)
  {
    hide ReadsAs, IsGuard, MeansGuard, ReadsSum, Plain, AddWord, MulWord, CoordOf, GuardOf, And;
    ghost var a0, d := el.exprs, el.design;
    var coord: nat;
    valid, coord := GuardAndCoord(el, i, dim, ascending, guarded, valid0);
    ghost var a1 := el.exprs;
    var r := AddTerm(el, coord, stride, acc0);
    acc := Some(r);
    forall st: Store, v: Option<nat>, t: Bit, s: Option<nat> |
      ReadsAs(a0, d, st, i, v) && MeansGuard(a0, d, st, valid0, t) && ReadsSum(a0, d, st, acc0, s)
      ensures StepMeans(el.exprs, d, st, dim, ascending, stride, guarded, v, valid, acc, t, s)
    {
      var c, u := CoordOf(dim, ascending, v), if guarded then And(t, GuardOf(dim, ascending, v)) else t;
      assert ReadsAs(a1, d, st, coord, c) && MeansGuard(a1, d, st, valid, u);
      SumExtends(a0, a1, d, st, acc0, s);
      GuardMeansExtends(a1, el.exprs, d, st, valid, u);
      SumIsRead(el.exprs, d, st, r, AddWord(s, MulWord(c, Some(Min(stride, U32_MAX)))));
    }
  }

  lemma SumIsRead(a: Arena, d: Design, st: Store, r: nat, s: Option<nat>)
    requires ReadsAs(a, d, st, r, s)
    ensures ReadsSum(a, d, st, Some(r), s)
  {
  }

  /** One index: seal, guard (when there are two or more dimensions), coordinate, term. A first index that needs
      no arithmetic is its sealed self. */
  method FlattenStep(el: Elaborator, raw: nat, dim: Dim, ascending: bool, stride: nat, guarded: bool,
                     domain: IndexDomain, f: Facts, valid0: Option<nat>, acc0: Option<nat>)
    returns (valid: Option<nat>, acc: Option<nat>)
    requires raw < |el.exprs| && ShapeOf(el.exprs, el.design, raw).width >= 1
    requires 1 <= dim.size < WORD && Live(el.exprs, valid0) && Live(el.exprs, acc0)
    modifies el
    ensures Extends(old(el.exprs), el.exprs) && Live(el.exprs, valid) && Live(el.exprs, acc) && acc.Some?
    ensures el.errors == old(el.errors) + if ascending && dim.lo < 0 then 1 else 0
    ensures valid.Some? <==> guarded || valid0.Some?
    ensures SealsNarrow(ShapeOf(old(el.exprs), el.design, raw), domain, f) ==>
              forall st: Store, t: Bit, s: Option<nat> ::
                MeansGuard(old(el.exprs), el.design, st, valid0, t) && ReadsSum(old(el.exprs), el.design, st, acc0, s) ==>
                  StepMeans(el.exprs, el.design, st, dim, ascending, stride, guarded,
                            AddressWord(old(el.exprs), el.design, st, raw, domain, f), valid, acc, t, s)
    ensures stride == 1 && acc0.None? && Plain(dim, ascending) && !guarded ==>
              forall st: Store :: SoleMeans(old(el.exprs), el.exprs, el.design, st, raw, acc.value, domain, f)
    ensures stride == 1 && acc0.None? && !Plain(dim, ascending)
            && SealsNarrow(ShapeOf(old(el.exprs), el.design, raw), domain, f) ==>
              ShapeOf(el.exprs, el.design, acc.value) == Shape(32, false)
  {
    hide IsWord, ReadsAs, IsGuard, Plain, SealsNarrow, SealsToWord, AddressWord, LoneWord, IndexWord, StepMeans;
    ghost var a0, d := el.exprs, el.design;
    var i := SealIndexUnsigned(el, raw, domain, f);
    ghost var a1 := el.exprs;
    SealedWidth(a0, a1, d, raw, i, domain, f);
    valid, acc := TakeIn(el, i, dim, ascending, stride, guarded, valid0, acc0);
    if SealsNarrow(ShapeOf(a0, d, raw), domain, f) {
      forall st: Store, t: Bit, s: Option<nat> | MeansGuard(a0, d, st, valid0, t) && ReadsSum(a0, d, st, acc0, s)
        ensures StepMeans(el.exprs, d, st, dim, ascending, stride, guarded,
                          AddressWord(a0, d, st, raw, domain, f), valid, acc, t, s)
      {
        assert SealMeans(a0, a1, d, st, raw, i, domain, f);
        MeansExtends(a0, a1, d, st, valid0, t, acc0, s);
      }
    }
    if stride == 1 && acc0.None? && Plain(dim, ascending) && !guarded {
      forall st: Store ensures SoleMeans(a0, el.exprs, d, st, raw, acc.value, domain, f) {
        assert SealsNarrow(ShapeOf(a0, d, raw), domain, f) ==> SealMeans(a0, a1, d, st, raw, i, domain, f);
      }
    }
  }

  lemma SealedWidth(a0: Arena, a: Arena, d: Design, raw: nat, r: nat, domain: IndexDomain, f: Facts)
    requires raw < |a0| && r < |a|
    requires SealsNarrow(ShapeOf(a0, d, raw), domain, f) ==>
               forall st: Store :: SealMeans(a0, a, d, st, raw, r, domain, f)
    ensures SealsNarrow(ShapeOf(a0, d, raw), domain, f) ==> ShapeOf(a, d, r).width <= 32
  {
    hide AddressWord, LoneWord, SealsNarrow;
    if SealsNarrow(ShapeOf(a0, d, raw), domain, f) {
      assert SealMeans(a0, a, d, Store(map[], (_, _, _) => []), raw, r, domain, f);
    }
  }

  /** What a single index without arithmetic means. */
  ghost predicate SoleMeans(a0: Arena, a: Arena, d: Design, st: Store, raw: nat, r: nat, domain: IndexDomain, f: Facts)
    requires raw < |a0|
  {
    r < |a|
    && (SealsNarrow(ShapeOf(a0, d, raw), domain, f) ==> IndexOf(EvalSelf(a, d, st, r)) == LoneWord(a0, d, st, raw, domain, f))
    && (SealedAt(a0, d, st, raw, domain, f) ==> IsWord(a, d, st, r, IndexWord(a0, d, st, raw)))
  }

  /** The words of the index list, in the store's state. */
  function IndexWords(a: Arena, d: Design, st: Store, idx: seq<nat>): (v: seq<Option<nat>>)
    requires Below(idx, |a|)
    ensures |v| == |idx|
  {
    seq(|idx|, k requires 0 <= k < |idx| => IndexWord(a, d, st, idx[k]))
  }

  predicate AllSealed(a: Arena, d: Design, st: Store, idx: seq<nat>, domain: IndexDomain, facts: seq<Facts>)
    requires Below(idx, |a|) && |facts| == |idx|
  {
    forall k :: 0 <= k < |idx| ==> SealedAt(a, d, st, idx[k], domain.At(k), facts[k])
  }

  /** The indices' own self-determined words, modulo 2^32. */
  function OwnWords(a: Arena, d: Design, st: Store, idx: seq<nat>): (v: seq<Option<nat>>)
    requires Below(idx, |a|)
    ensures |v| == |idx|
  {
    seq(|idx|, k requires 0 <= k < |idx| => OwnWord(a, d, st, idx[k]))
  }

  /** Every sealed index is at most 32 bits wide, which does not depend on the store. */
  predicate AllNarrow(a: Arena, d: Design, idx: seq<nat>, domain: IndexDomain, facts: seq<Facts>)
    requires Below(idx, |a|) && |facts| == |idx|
  {
    forall k :: 0 <= k < |idx| ==> SealsNarrow(ShapeOf(a, d, idx[k]), domain.At(k), facts[k])
  }

  /** One dimension from zero up: its address is the index itself, with no arithmetic around it. */
  predicate Lone(ext: seq<Dim>, ascending: seq<bool>) { |ext| == 1 && Plain(ext[0], Flag(ascending, 0)) }

  /** What the address reads an index as: as unsigned, unless it is the index itself. */
  function Reading(a: Arena, d: Design, st: Store, ext: seq<Dim>, ascending: seq<bool>, e: nat, domain: IndexDomain,
                   f: Facts): Option<nat>
    requires e < |a|
  {
    if Lone(ext, ascending) then LoneWord(a, d, st, e, domain, f) else AddressWord(a, d, st, e, domain, f)
  }

  function Readings(a: Arena, d: Design, st: Store, ext: seq<Dim>, ascending: seq<bool>, idx: seq<nat>,
                    domain: IndexDomain, facts: seq<Facts>): (v: seq<Option<nat>>)
    requires Below(idx, |a|) && |facts| == |idx|
    ensures |v| == |idx|
  {
    seq(|idx|, k requires 0 <= k < |idx| => Reading(a, d, st, ext, ascending, idx[k], domain.At(k), facts[k]))
  }

  /** Each index seals to at most 32 bits, unsigned arithmetic does not reach into one handed over as it is, and a
      wide one is stable. None of it depends on the store. */
  predicate AllStable(a: Arena, d: Design, idx: seq<nat>, domain: IndexDomain, facts: seq<Facts>)
    requires Below(idx, |a|) && |facts| == |idx|
  {
    forall k :: 0 <= k < |idx| ==> StableAt(a, d, idx[k], domain.At(k), facts[k])
  }

  predicate StableAt(a: Arena, d: Design, e: nat, domain: IndexDomain, f: Facts)
    requires e < |a|
  {
    var sh := ShapeOf(a, d, e);
    SealsNarrow(sh, domain, f) && (KeptRaw(sh, domain, f) ==> sh.width == 32) && IndexStable(a, d, e)
  }

  lemma {:induction false} StableReads(a: Arena, d: Design, st: Store, e: nat, domain: IndexDomain, f: Facts)
    requires e < |a| && StableAt(a, d, e, domain, f)
    ensures AddressWord(a, d, st, e, domain, f) == LoneWord(a, d, st, e, domain, f) == OwnWord(a, d, st, e)
  {
    hide ToNat, OwnWord, IndexWord, Stable, SignStable;
    StableIsOwn(a, d, st, e);
    if KeptRaw(ShapeOf(a, d, e), domain, f) { RawIsWhole(a, d, st, e); }
  }

  /** The ordinary word index: of known width, not constant, named again where it is narrow and signed, and passing the
      node check. It seals to at most 32 bits and is read one way in every store, whatever its width. */
  lemma {:induction false} OrdinaryIndices(a: Arena, d: Design, idx: seq<nat>, facts: seq<Facts>)
    requires Below(idx, |a|) && |facts| == |idx|
    requires forall k :: 0 <= k < |idx| ==> facts[k].widthKnown && !facts[k].constant
    requires forall k :: 0 <= k < |idx| ==> var sh := ShapeOf(a, d, idx[k]);
               if sh.width < 32 then sh.signed ==> facts[k].repeatable else Stable(a, d, idx[k], sh.width)
    ensures AllStable(a, d, idx, ArrayWord, facts) && AllNarrow(a, d, idx, ArrayWord, facts)
    ensures forall st: Store :: AllSealed(a, d, st, idx, ArrayWord, facts)
  {
    forall k | 0 <= k < |idx| ensures StableAt(a, d, idx[k], ArrayWord, facts[k]) { }
    forall st: Store ensures AllSealed(a, d, st, idx, ArrayWord, facts) {
      forall k | 0 <= k < |idx| ensures SealedAt(a, d, st, idx[k], ArrayWord, facts[k]) { StableIsOwn(a, d, st, idx[k]); }
    }
  }

  /** Stable indices are read as their own words, in every store. */
  lemma {:induction false} StableSeals(a: Arena, d: Design, st: Store, ext: seq<Dim>, ascending: seq<bool>, idx: seq<nat>,
                                       domain: IndexDomain, facts: seq<Facts>)
    requires Below(idx, |a|) && |facts| == |idx| && AllStable(a, d, idx, domain, facts)
    ensures AllNarrow(a, d, idx, domain, facts)
    ensures Readings(a, d, st, ext, ascending, idx, domain, facts) == OwnWords(a, d, st, idx)
  {
    hide AddressWord, LoneWord, OwnWord, SealsNarrow, KeptRaw, IndexStable;
    forall k | 0 <= k < |idx|
      ensures SealsNarrow(ShapeOf(a, d, idx[k]), domain.At(k), facts[k])
      ensures Readings(a, d, st, ext, ascending, idx, domain, facts)[k] == OwnWord(a, d, st, idx[k])
    {
      assert StableAt(a, d, idx[k], domain.At(k), facts[k]);
      StableReads(a, d, st, idx[k], domain.At(k), facts[k]);
    }
  }

  /** Sign-stable indices that seal to 32 bits are read as those words. */
  lemma {:induction false} SealedSeals(a: Arena, d: Design, st: Store, ext: seq<Dim>, ascending: seq<bool>, idx: seq<nat>,
                                       domain: IndexDomain, facts: seq<Facts>)
    requires Below(idx, |a|) && |facts| == |idx| && AllSealed(a, d, st, idx, domain, facts)
    ensures AllNarrow(a, d, idx, domain, facts)
    ensures Readings(a, d, st, ext, ascending, idx, domain, facts) == IndexWords(a, d, st, idx)
  {
    hide AddressWord, LoneWord, IndexWord, SealsNarrow, SealsToWord, SignStable;
    forall k | 0 <= k < |idx|
      ensures SealsNarrow(ShapeOf(a, d, idx[k]), domain.At(k), facts[k])
      ensures Readings(a, d, st, ext, ascending, idx, domain, facts)[k] == IndexWord(a, d, st, idx[k])
    {
      assert SealedAt(a, d, st, idx[k], domain.At(k), facts[k]);
      SealedReads(a, d, st, idx[k], domain.At(k), facts[k]);
    }
  }

  lemma ReadingExtends(a: Arena, b: Arena, d: Design, st: Store, e: nat, domain: IndexDomain, f: Facts)
    requires Extends(a, b) && e < |a|
    ensures AddressWord(b, d, st, e, domain, f) == AddressWord(a, d, st, e, domain, f)
    ensures LoneWord(b, d, st, e, domain, f) == LoneWord(a, d, st, e, domain, f)
    ensures forall ext, ascending ::
              Reading(b, d, st, ext, ascending, e, domain, f) == Reading(a, d, st, ext, ascending, e, domain, f)
    ensures ShapeOf(b, d, e) == ShapeOf(a, d, e)
  {
    hide IndexWord, KeptRaw;
    ShapeExtends(a, b, d, e);
    IndexWordExtends(a, b, d, st, e);
    EvalExtends(a, b, d, st, e, 32, false);
    EvalSelfExtends(a, b, d, st, e);
  }

  function NegativeAscending(ext: seq<Dim>, ascending: seq<bool>, k: nat): nat
    requires k <= |ext|
  {
    if k == 0 then 0
    else NegativeAscending(ext, ascending, k - 1) + if Flag(ascending, k - 1) && ext[k - 1].lo < 0 then 1 else 0
  }

  /** One error for each of the first `k` dimensions that counts up from a negative bound. */
  lemma {:induction false} NegativeAscendingCounts(ext: seq<Dim>, ascending: seq<bool>, k: nat)
    requires k <= |ext|
    ensures NegativeAscending(ext, ascending, k)
         == |set j: nat | j < k && j < |ascending| && ascending[j] && ext[j].lo < 0|
  {
    var all := set j: nat | j < k && j < |ascending| && ascending[j] && ext[j].lo < 0;
    if k == 0 {
      assert all == {};
    } else {
      NegativeAscendingCounts(ext, ascending, k - 1);
      var less := set j: nat | j < k - 1 && j < |ascending| && ascending[j] && ext[j].lo < 0;
      assert all == less + if k - 1 < |ascending| && ascending[k - 1] && ext[k - 1].lo < 0 then {k - 1} else {};
    }
  }

  /** The suffix products of the sizes, in 64 saturating bits. */
  method Strides(ext: seq<Dim>) returns (strides: seq<nat>)
    ensures |strides| == |ext|
    ensures forall j :: 0 <= j < |ext| ==> strides[j] == Stride(ext, j)
  {
    strides := seq(|ext|, _ => 1);
    var k := |ext| - 1;
    while k > 0
      invariant -1 <= k < |ext| && |strides| == |ext| && (ext == [] || k >= 0)
      invariant forall j :: 0 <= k <= j < |ext| ==> strides[j] == Stride(ext, j)
    {
      k := k - 1;
      strides := strides[k := SatMul(strides[k + 1], ext[k + 1].size)];
    }
  }

  /** After `k` indices, the conjunction and the sum mean the first `k` guards and terms. */
  ghost predicate PrefixMeans(a: Arena, d: Design, st: Store, ext: seq<Dim>, ascending: seq<bool>, v: seq<Option<nat>>,
                              k: nat, valid: Option<nat>, acc: Option<nat>)
    requires Sized(ext) && k <= |v| <= |ext|
  {
    MeansGuard(a, d, st, valid, if |ext| >= 2 then Guards(ext, ascending, v, k) else B1)
    && ReadsSum(a, d, st, acc, Sum(ext, ascending, v, k))
  }

  /** What the nodes gathered for the first `k` indices mean. */
  ghost predicate FlatState(a: Arena, d: Design, st: Store, ext: seq<Dim>, ascending: seq<bool>, v: seq<Option<nat>>,
                            k: nat, valid: Option<nat>, acc: Option<nat>)
    requires Sized(ext) && k <= |v| <= |ext|
  {
    if Lone(ext, ascending) && k > 0
    then acc.Some? && acc.value < |a| && IndexOf(EvalSelf(a, d, st, acc.value)) == v[0] && WordValue(v[0])
    else PrefixMeans(a, d, st, ext, ascending, v, k, valid, acc)
  }

  /** Where no guard will stand around the sum it is unsigned arithmetic, or the index itself. */
  predicate OwnSum(a: Arena, d: Design, ext: seq<Dim>, ascending: seq<bool>, acc: Option<nat>) {
    |ext| == 1 && acc.Some? && !Lone(ext, ascending) ==>
      acc.value < |a| && ShapeOf(a, d, acc.value) == Shape(32, false)
  }

  /** The address node selects `FlatWord` of the readings, and stands for that word in arithmetic unless it is
      the index itself. */
  ghost predicate FlatMeans(a: Arena, d: Design, st: Store, r: nat, ext: seq<Dim>, ascending: seq<bool>,
                            v: seq<Option<nat>>)
    requires Sized(ext) && |v| <= |ext|
  {
    r < |a| && IndexOf(EvalSelf(a, d, st, r)) == FlatWord(ext, ascending, v)
    && (!Lone(ext, ascending) ==> IsWord(a, d, st, r, FlatWord(ext, ascending, v)))
  }

  lemma {:induction false} StateExtends(a: Arena, b: Arena, d: Design, ext: seq<Dim>, ascending: seq<bool>,
                                        valid: Option<nat>, acc: Option<nat>)
    requires Sized(ext) && Extends(a, b)
    ensures OwnSum(a, d, ext, ascending, acc) ==> OwnSum(b, d, ext, ascending, acc)
    ensures forall st: Store, v: seq<Option<nat>>, k: nat ::
              k <= |v| <= |ext| && FlatState(a, d, st, ext, ascending, v, k, valid, acc) ==>
                FlatState(b, d, st, ext, ascending, v, k, valid, acc)
  {
    hide IsGuard, ReadsAs, Guards, Sum;
    if acc.Some? && acc.value < |a| { ShapeExtends(a, b, d, acc.value); }
    forall st: Store, v: seq<Option<nat>>, k: nat |
      k <= |v| <= |ext| && FlatState(a, d, st, ext, ascending, v, k, valid, acc)
      ensures FlatState(b, d, st, ext, ascending, v, k, valid, acc)
    {
      if Lone(ext, ascending) && k > 0 {
        EvalSelfExtends(a, b, d, st, acc.value);
      } else {
        MeansExtends(a, b, d, st, valid, if |ext| >= 2 then Guards(ext, ascending, v, k) else B1,
                     acc, Sum(ext, ascending, v, k));
      }
    }
  }

  /** The next index joins the address. */
  method AddIndex(el: Elaborator, ext: seq<Dim>, ascending: seq<bool>, k: nat, id: nat, stride: nat, domain: IndexDomain,
                  f: Facts, valid0: Option<nat>, acc0: Option<nat>) returns (valid: Option<nat>, acc: Option<nat>)
    requires Sized(ext) && k < |ext| && stride == Stride(ext, k)
    requires id < |el.exprs| && ShapeOf(el.exprs, el.design, id).width >= 1
    requires Live(el.exprs, valid0) && Live(el.exprs, acc0) && (acc0.Some? <==> k > 0)
    modifies el
    ensures Extends(old(el.exprs), el.exprs) && Live(el.exprs, valid) && Live(el.exprs, acc) && acc.Some?
    ensures el.errors == old(el.errors) + if Flag(ascending, k) && ext[k].lo < 0 then 1 else 0
    ensures valid.Some? <==> |ext| >= 2 || valid0.Some?
    ensures SealsNarrow(ShapeOf(old(el.exprs), el.design, id), domain, f) ==>
              OwnSum(el.exprs, el.design, ext, ascending, acc)
              && forall st: Store, v: seq<Option<nat>> ::
                   k < |v| <= |ext| && v[k] == Reading(old(el.exprs), el.design, st, ext, ascending, id, domain, f)
                   && FlatState(old(el.exprs), el.design, st, ext, ascending, v, k, valid0, acc0) ==>
                     FlatState(el.exprs, el.design, st, ext, ascending, v, k + 1, valid, acc)
    ensures Lone(ext, ascending) ==> forall st: Store :: SealedAt(old(el.exprs), el.design, st, id, domain, f) ==>
              IsWord(el.exprs, el.design, st, acc.value, IndexWord(old(el.exprs), el.design, st, id))
  {
    hide IsWord, ReadsAs, IsGuard, AddressWord, LoneWord, SealsNarrow, SealedAt, IndexWord;
    ghost var a0, d := el.exprs, el.design;
    valid, acc := FlattenStep(el, id, ext[k], Flag(ascending, k), stride, |ext| >= 2, domain, f, valid0, acc0);
    if SealsNarrow(ShapeOf(a0, d, id), domain, f) {
      forall st: Store, v: seq<Option<nat>> |
        k < |v| <= |ext| && v[k] == Reading(a0, d, st, ext, ascending, id, domain, f)
        && FlatState(a0, d, st, ext, ascending, v, k, valid0, acc0)
        ensures FlatState(el.exprs, d, st, ext, ascending, v, k + 1, valid, acc)
      {
        var t, s := if |ext| >= 2 then Guards(ext, ascending, v, k) else B1, Sum(ext, ascending, v, k);
        if Lone(ext, ascending) {
          assert SoleMeans(a0, el.exprs, d, st, id, acc.value, domain, f);
          LoneIsWord(a0, d, st, id, domain, f);
        } else {
          assert StepMeans(el.exprs, d, st, ext[k], Flag(ascending, k), stride, |ext| >= 2, v[k], valid, acc, t, s);
        }
      }
    }
    if Lone(ext, ascending) {
      forall st: Store | SealedAt(a0, d, st, id, domain, f)
        ensures IsWord(el.exprs, d, st, acc.value, IndexWord(a0, d, st, id))
      {
        assert SoleMeans(a0, el.exprs, d, st, id, acc.value, domain, f);
      }
    }
  }

  lemma LoneIsWord(a: Arena, d: Design, st: Store, e: nat, domain: IndexDomain, f: Facts)
    requires e < |a| && SealsNarrow(ShapeOf(a, d, e), domain, f)
    ensures WordValue(LoneWord(a, d, st, e, domain, f))
  {
    hide ToNat;
    Pow2Word();
    if KeptRaw(ShapeOf(a, d, e), domain, f) { Pow2Monotone(ShapeOf(a, d, e).width, 32); }
  }

  lemma ReadingIsWord(a: Arena, d: Design, st: Store, ext: seq<Dim>, ascending: seq<bool>, e: nat, domain: IndexDomain, f: Facts)
    requires e < |a| && SealsNarrow(ShapeOf(a, d, e), domain, f)
    ensures WordValue(Reading(a, d, st, ext, ascending, e, domain, f))
  {
    hide ToNat, LoneWord;
    Pow2Word();
    LoneIsWord(a, d, st, e, domain, f);
    assert KeptRaw(ShapeOf(a, d, e), domain, f) ==> |Eval(a, d, st, e, 32, false)| == 32;
  }

  /** The guarded sum, or the sum alone, or zero. */
  method FinishFlat(el: Elaborator, ext: seq<Dim>, ascending: seq<bool>, n: nat, valid: Option<nat>, acc: Option<nat>)
    returns (r: nat)
    requires Sized(ext) && n <= |ext| && Live(el.exprs, valid) && Live(el.exprs, acc)
    requires (valid.Some? <==> |ext| >= 2 && n > 0) && (acc.Some? <==> n > 0)
    modifies el`exprs
    ensures Extends(old(el.exprs), el.exprs) && r < |el.exprs|
    ensures OwnSum(old(el.exprs), el.design, ext, ascending, acc) ==>
              forall st: Store, v: seq<Option<nat>> ::
                |v| == n && FlatState(old(el.exprs), el.design, st, ext, ascending, v, n, valid, acc) ==>
                  FlatMeans(el.exprs, el.design, st, r, ext, ascending, v)
    ensures Lone(ext, ascending) && n > 0 ==> r == acc.value && el.exprs == old(el.exprs)
    ensures n == 0 ==> forall st: Store :: IsWord(el.exprs, el.design, st, r, Some(0))
  {
    hide IsWord, ReadsAs, IsGuard, FlatWord, Guards, Sum;
    ghost var a0, d := el.exprs, el.design;
    var flat: nat;
    if acc.Some? {
      flat := acc.value;
    } else {
      flat := el.ConstU32(0, 32);
      forall st: Store ensures IsWord(el.exprs, d, st, flat, Some(0)) { ConstIsWord(el.exprs, d, st, flat, 0); }
    }
    r := flat;
    var oob: nat := 0;
    if valid.Some? {
      oob := el.ConstU32(OOB, 32);
      r := el.Push(Ternary(valid.value, flat, oob));
    }
    if OwnSum(a0, d, ext, ascending, acc) {
      forall st: Store, v: seq<Option<nat>> |
        |v| == n && FlatState(a0, d, st, ext, ascending, v, n, valid, acc)
        ensures FlatMeans(el.exprs, d, st, r, ext, ascending, v)
      {
        if Lone(ext, ascending) && n > 0 {
          LoneFlat(ext, ascending, v);
        } else {
          Finish(a0, el.exprs, d, st, ext, ascending, v, valid, acc, flat, oob, r);
          WordIndex(el.exprs, d, st, r, FlatWord(ext, ascending, v));
        }
      }
    }
  }

  lemma {:induction false} LoneFlat(ext: seq<Dim>, ascending: seq<bool>, v: seq<Option<nat>>)
    requires Sized(ext) && Lone(ext, ascending) && |v| == 1 && WordValue(v[0])
    ensures FlatWord(ext, ascending, v) == v[0]
  {
    assert Sum(ext, ascending, v, 0) == Some(0) && StrideWord(ext, 0) == 1;
    assert Sum(ext, ascending, v, 1) == AddWord(Some(0), MulWord(v[0], Some(1)));
  }

  lemma {:induction false} Finish(a: Arena, b: Arena, d: Design, st: Store, ext: seq<Dim>, ascending: seq<bool>,
                                  v: seq<Option<nat>>, valid: Option<nat>, acc: Option<nat>,
                                  flat: nat, oob: nat, r: nat)
    requires Sized(ext) && |v| <= |ext| && Extends(a, b) && r < |b| && flat < |b| && Live(a, acc)
    requires PrefixMeans(a, d, st, ext, ascending, v, |v|, valid, acc) && OwnSum(a, d, ext, ascending, acc)
    requires valid.Some? <==> |ext| >= 2 && |v| > 0
    requires acc.Some? <==> |v| > 0
    requires Lone(ext, ascending) ==> |v| == 0
    requires if acc.Some? then flat == acc.value else IsWordConst(b, flat, 0)
    requires if valid.Some? then IsWordConst(b, oob, OOB) && b[r] == Ternary(valid.value, flat, oob) else r == flat
    ensures IsWord(b, d, st, r, FlatWord(ext, ascending, v))
  {
    hide IsWord, ReadsAs, IsGuard, Guards, Sum;
    var t, s := if |ext| >= 2 then Guards(ext, ascending, v, |v|) else B1, Sum(ext, ascending, v, |v|);
    MeansExtends(a, b, d, st, valid, t, acc, s);
    if acc.None? {
      NoSum(ext, ascending, v);
      ConstIsWord(b, d, st, flat, 0);
    } else if valid.Some? {
      ConstReads(b, d, st, oob, OOB);
      TernaryReads(b, d, st, r, t, s, Some(OOB));
    } else {
      ShapeExtends(a, b, d, flat);
      ReadsWord(b, d, st, flat, s);
    }
  }

  lemma NoSum(ext: seq<Dim>, ascending: seq<bool>, v: seq<Option<nat>>)
    requires Sized(ext) && v == []
    ensures Sum(ext, ascending, v, 0) == Some(0) == FlatWord(ext, ascending, v)
  {
  }

  /** One flat word expression for the leading `|idx|` indices. In every store it selects `FlatWord` of what the
      address reads the indices as; those are their own words when they are stable. */
  method FlattenWordEids(el: Elaborator, ext: seq<Dim>, idx: seq<nat>, ascending: seq<bool>,
                         domain: IndexDomain, facts: seq<Facts>) returns (r: nat)
    requires Sized(ext) && |idx| <= |ext| && |facts| == |idx| && Below(idx, |el.exprs|)
    requires forall k :: 0 <= k < |idx| ==> ShapeOf(el.exprs, el.design, idx[k]).width >= 1
    modifies el
    ensures Extends(old(el.exprs), el.exprs) && r < |el.exprs|
    ensures el.errors == old(el.errors) + NegativeAscending(ext, ascending, |idx|)
    ensures AllNarrow(old(el.exprs), el.design, idx, domain, facts) ==>
              forall st: Store ::
                FlatMeans(el.exprs, el.design, st, r, ext, ascending,
                          Readings(old(el.exprs), el.design, st, ext, ascending, idx, domain, facts))
    ensures forall st: Store :: AllSealed(old(el.exprs), el.design, st, idx, domain, facts) ==>
              IsWord(el.exprs, el.design, st, r, FlatWord(ext, ascending, IndexWords(old(el.exprs), el.design, st, idx)))
    ensures AllStable(old(el.exprs), el.design, idx, domain, facts) ==>
              forall st: Store ::
                FlatMeans(el.exprs, el.design, st, r, ext, ascending, OwnWords(old(el.exprs), el.design, st, idx))
  {
    hide IsWord, AllStable, AllNarrow, SealedAt, IndexWord, Reading, SealsNarrow, FlatState, FlatMeans, Lone, OwnSum, FlatWord;
    ghost var a0, d := el.exprs, el.design;
    ghost var good := AllNarrow(a0, d, idx, domain, facts);
    var strides := Strides(ext);
    var valid: Option<nat>, acc: Option<nat> := None, None;
    StartState(a0, d, ext, ascending);
    var k := 0;
    while k < |idx|
      invariant 0 <= k <= |idx| && Extends(a0, el.exprs)
      invariant Live(el.exprs, valid) && Live(el.exprs, acc)
      invariant el.errors == old(el.errors) + NegativeAscending(ext, ascending, k)
      invariant valid.Some? <==> |ext| >= 2 && k > 0
      invariant acc.Some? <==> k > 0
      invariant good ==> OwnSum(el.exprs, d, ext, ascending, acc) && forall st: Store ::
                  FlatState(el.exprs, d, st, ext, ascending,
                            Readings(a0, d, st, ext, ascending, idx, domain, facts), k, valid, acc)
      invariant Lone(ext, ascending) && k > 0 ==> forall st: Store :: SealedAt(a0, d, st, idx[0], domain.At(0), facts[0]) ==>
                  IsWord(el.exprs, d, st, acc.value, IndexWord(a0, d, st, idx[0]))
    {
      ghost var a1 := el.exprs;
      forall st: Store
        ensures Reading(a1, d, st, ext, ascending, idx[k], domain.At(k), facts[k])
             == Reading(a0, d, st, ext, ascending, idx[k], domain.At(k), facts[k])
        ensures SealedAt(a1, d, st, idx[k], domain.At(k), facts[k]) == SealedAt(a0, d, st, idx[k], domain.At(k), facts[k])
        ensures IndexWord(a1, d, st, idx[k]) == IndexWord(a0, d, st, idx[k])
      {
        ReadingExtends(a0, a1, d, st, idx[k], domain.At(k), facts[k]);
        SealedAtExtends(a0, a1, d, st, idx[k], domain.At(k), facts[k]);
      }
      ShapeExtends(a0, a1, d, idx[k]);
      if good { NarrowAt(a0, d, idx, domain, facts, k); }
      OnlyOne(ext, ascending);
      valid, acc := AddIndex(el, ext, ascending, k, idx[k], strides[k], domain.At(k), facts[k], valid, acc);
      k := k + 1;
    }
    r := FinishFlat(el, ext, ascending, |idx|, valid, acc);
    FlatAgrees(a0, el.exprs, d, r, ext, ascending, idx, domain, facts);
  }

  lemma StartState(a: Arena, d: Design, ext: seq<Dim>, ascending: seq<bool>)
    requires Sized(ext)
    ensures OwnSum(a, d, ext, ascending, None)
    ensures forall st: Store, v: seq<Option<nat>> :: |v| <= |ext| ==> FlatState(a, d, st, ext, ascending, v, 0, None, None)
  {
  }

  lemma NarrowAt(a: Arena, d: Design, idx: seq<nat>, domain: IndexDomain, facts: seq<Facts>, k: nat)
    requires Below(idx, |a|) && |facts| == |idx| && k < |idx| && AllNarrow(a, d, idx, domain, facts)
    ensures SealsNarrow(ShapeOf(a, d, idx[k]), domain.At(k), facts[k])
  {
  }

  lemma OnlyOne(ext: seq<Dim>, ascending: seq<bool>)
    ensures Lone(ext, ascending) ==> |ext| == 1
  {
  }

  lemma SealedAtExtends(a: Arena, b: Arena, d: Design, st: Store, e: nat, domain: IndexDomain, f: Facts)
    requires Extends(a, b) && e < |a|
    ensures SealedAt(b, d, st, e, domain, f) == SealedAt(a, d, st, e, domain, f)
    ensures IndexWord(b, d, st, e) == IndexWord(a, d, st, e)
  {
    IndexWordExtends(a, b, d, st, e);
  }

  /** The three statements about the address from what its node means. */
  lemma {:induction false} FlatAgrees(a0: Arena, a: Arena, d: Design, r: nat, ext: seq<Dim>, ascending: seq<bool>,
                                      idx: seq<nat>, domain: IndexDomain, facts: seq<Facts>)
    requires Sized(ext) && |idx| <= |ext| && |facts| == |idx| && Below(idx, |a0|)
    requires AllNarrow(a0, d, idx, domain, facts) ==>
               forall st: Store ::
                 FlatMeans(a, d, st, r, ext, ascending, Readings(a0, d, st, ext, ascending, idx, domain, facts))
    requires Lone(ext, ascending) && idx != [] ==>
               forall st: Store :: SealedAt(a0, d, st, idx[0], domain.At(0), facts[0]) ==>
                 IsWord(a, d, st, r, IndexWord(a0, d, st, idx[0]))
    requires idx == [] ==> forall st: Store :: IsWord(a, d, st, r, Some(0))
    ensures forall st: Store :: AllSealed(a0, d, st, idx, domain, facts) ==>
              IsWord(a, d, st, r, FlatWord(ext, ascending, IndexWords(a0, d, st, idx)))
    ensures AllStable(a0, d, idx, domain, facts) ==>
              forall st: Store :: FlatMeans(a, d, st, r, ext, ascending, OwnWords(a0, d, st, idx))
  {
    hide IsWord, AllStable, AllNarrow, AllSealed, SealedAt, IndexWord, Reading, OwnWords, FlatWord;
    forall st: Store | AllSealed(a0, d, st, idx, domain, facts)
      ensures IsWord(a, d, st, r, FlatWord(ext, ascending, IndexWords(a0, d, st, idx)))
    {
      SealedSeals(a0, d, st, ext, ascending, idx, domain, facts);
      if Lone(ext, ascending) { SoleSealed(a0, d, st, ext, ascending, idx, domain, facts); }
    }
    if AllStable(a0, d, idx, domain, facts) {
      forall st: Store ensures FlatMeans(a, d, st, r, ext, ascending, OwnWords(a0, d, st, idx)) {
        StableSeals(a0, d, st, ext, ascending, idx, domain, facts);
      }
    }
  }

  lemma SoleSealed(a: Arena, d: Design, st: Store, ext: seq<Dim>, ascending: seq<bool>, idx: seq<nat>,
                   domain: IndexDomain, facts: seq<Facts>)
    requires Sized(ext) && Lone(ext, ascending) && |idx| <= |ext| && |facts| == |idx| && Below(idx, |a|)
    requires AllSealed(a, d, st, idx, domain, facts)
    ensures idx != [] ==> SealedAt(a, d, st, idx[0], domain.At(0), facts[0])
    ensures FlatWord(ext, ascending, IndexWords(a, d, st, idx)) == if idx == [] then Some(0) else IndexWord(a, d, st, idx[0])
  {
    hide IndexWord, SealedAt;
    if idx == [] {
      NoSum(ext, ascending, IndexWords(a, d, st, idx));
    } else {
      IndexWordBelow(a, d, st, idx[0]);
      LoneFlat(ext, ascending, IndexWords(a, d, st, idx));
    }
  }

  lemma IndexWordBelow(a: Arena, d: Design, st: Store, e: nat)
    requires e < |a|
    ensures WordValue(IndexWord(a, d, st, e))
  {
  }

  /** The base means `s` in every 32-bit context; no base means zero. */
  ghost predicate MeansSum(a: Arena, d: Design, st: Store, base: Option<nat>, s: Option<nat>) {
    if base.None? then s == Some(0) else IsWord(a, d, st, base.value, s)
  }

  lemma BaseExtends(a: Arena, b: Arena, d: Design, st: Store, base: Option<nat>, s: Option<nat>)
    requires Extends(a, b) && MeansSum(a, d, st, base, s)
    ensures MeansSum(b, d, st, base, s)
  {
    if base.Some? { WordExtends(a, b, d, st, base.value, s); }
  }

  /** `base + off`, emitting no addition when either side is trivial. */
  method WordExprAt(el: Elaborator, base: Option<nat>, off: nat) returns (r: nat)
    requires Live(el.exprs, base) && off < WORD
    modifies el`exprs
    ensures Extends(old(el.exprs), el.exprs) && r < |el.exprs|
    ensures forall st: Store, s: Option<nat> :: MeansSum(old(el.exprs), el.design, st, base, s) && WordValue(s) ==>
              IsWord(el.exprs, el.design, st, r, AddWord(s, Some(off)))
  {
    hide IsWord, FromNat;
    ghost var a0, d := el.exprs, el.design;
    if base.None? {
      r := el.ConstU32(off, 32);
      forall st: Store ensures IsWord(el.exprs, d, st, r, Some(off)) {
        ConstIsWord(el.exprs, d, st, r, off);
      }
    } else if off == 0 {
      r := base.value;
    } else {
      var c := el.ConstU32(off, 32);
      r := el.Push(Binary(Add, base.value, c));
      forall st: Store, s: Option<nat> | MeansSum(a0, d, st, base, s)
        ensures IsWord(el.exprs, d, st, r, AddWord(s, Some(off)))
      {
        WordExtends(a0, el.exprs, d, st, base.value, s);
        ConstIsWord(el.exprs, d, st, c, off);
        ArithIsWord(el.exprs, d, st, r, s, Some(off));
      }
    }
  }
}
