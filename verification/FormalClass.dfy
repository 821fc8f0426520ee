/** Classifying a declared unpacked array as a packed slot, and what the 32-bit casts in it cost. */
module FormalClass {
  import opened Bits
  import opened Wrappers
  import opened RowMajor
  import opened Geometry
  import opened ArrayFormal

  /** A declared unpacked dimension, its bounds folded where they are constant. */
  datatype DimAst = Size(n: Option<int>) | Range(msb: Option<int>, lsb: Option<int>) | Unsized

  /** The element's own declaration: a vector range, an atom of known width, or no bit vector at all. */
  datatype Element = Vector(msb: Option<int>, lsb: Option<int>) | Atom(width: nat) | NoBits

  datatype Reason =
    | PackedElement | BadSize | NonConstantBound | NegativeBound | NoFixedSize | NotBits | NonConstantWidth | OddRange

  function Cast32(n: int): nat { n % WORD }

  function ClassifyDim(d: DimAst): Result<FormalDim, Reason> {
    match d
    case Size(n) => if n.Some? && n.value >= 1 then Ok(FormalDim(0, Cast32(n.value), true)) else Err(BadSize)
    case Range(m, l) =>
      if m.None? || l.None? then Err(NonConstantBound)
      else if m.value < 0 || l.value < 0 then Err(NegativeBound)
      else Ok(FormalDim(Cast32(IntMin(m.value, l.value)), Cast32(AbsDiff(m.value, l.value) + 1), m.value < l.value))
    case Unsized => Err(NoFixedSize)
  }

  function ClassifyElement(e: Element): Result<nat, Reason> {
    match e
    case Atom(w) => Ok(w)
    case NoBits => Err(NotBits)
    case Vector(m, l) =>
      if m.None? || l.None? then Err(NonConstantWidth)
      else if l.value != 0 || m.value < 0 then Err(OddRange)
      else Ok(Cast32(m.value + 1))
  }

  function Count(dims: seq<FormalDim>): nat {
    if dims == [] then 1 else Min(Count(dims[..|dims| - 1]) * dims[|dims| - 1].size, U32_MAX)
  }

  /** The first dimension that cannot be classified decides the reason. */
  function FirstBad(ds: seq<DimAst>): Option<Reason> {
    if ds == [] then None
    else match ClassifyDim(ds[0])
      case Err(r) => Some(r)
      case Ok(_) => FirstBad(ds[1..])
  }

  method ClassifyUnpackedArray(ds: seq<DimAst>, packed: bool, elem: Element, signed: bool)
      returns (r: Option<Result<Formal, Reason>>)
    ensures r.None? <==> ds == []
    ensures ds != [] && packed ==> r == Some(Err(PackedElement))
    ensures ds != [] && !packed && FirstBad(ds).Some? ==> r == Some(Err(FirstBad(ds).value))
    ensures ds != [] && !packed && FirstBad(ds).None? && ClassifyElement(elem).Err? ==>
      r == Some(Err(ClassifyElement(elem).error))
    ensures r.Some? && r.value.Ok? ==>
      var af := r.value.value;
      |af.dims| == |ds| && (forall k :: 0 <= k < |ds| ==> ClassifyDim(ds[k]) == Ok(af.dims[k]))
      && af.count == Count(af.dims) && ClassifyElement(elem) == Ok(af.elemW) && af.elemSigned == signed
      && af.ascending == af.dims[0].ascending
  {
    hide ClassifyDim, ClassifyElement;
    if ds == [] {
      return None;
    }
    if packed {
      return Some(Err(PackedElement));
    }
    var dims, bad := ClassifyDims(ds);
    if bad.Some? {
      return Some(Err(bad.value));
    }
    var count := 1;
    for k := 0 to |dims|
      invariant count == Count(dims[..k])
    {
      assert dims[..k + 1][..k] == dims[..k];
      count := Min(count * dims[k].size, U32_MAX);
    }
    assert dims[..|dims|] == dims;
    var w := ClassifyElement(elem);
    if w.Err? {
      return Some(Err(w.error));
    }
    r := Some(Ok(Formal(count, w.value, dims[0].ascending, signed, dims)));
  }

  method ClassifyDims(ds: seq<DimAst>) returns (dims: seq<FormalDim>, bad: Option<Reason>)
    ensures bad == FirstBad(ds)
    ensures bad.None? ==> |dims| == |ds| && forall k :: 0 <= k < |ds| ==> ClassifyDim(ds[k]) == Ok(dims[k])
  {
    hide ClassifyDim;
    dims := [];
    var k := 0;
    assert ds[0..] == ds;
    while k < |ds|
      invariant 0 <= k <= |ds| && |dims| == k && FirstBad(ds[k..]) == FirstBad(ds)
      invariant forall j :: 0 <= j < k ==> ClassifyDim(ds[j]) == Ok(dims[j])
    {
      assert ds[k..][1..] == ds[k + 1..];
      var d := ClassifyDim(ds[k]);
      if d.Err? {
        return dims, Some(d.error);
      }
      dims := dims + [d.value];
      k := k + 1;
    }
    bad := None;
  }

  /** The endpoints the same declaration gives an ordinary net. */
  function Declared(d: DimAst): Endpoints
    requires ClassifyDim(d).Ok?
  {
    if d.Size? then Endpoints(0, d.n.value - 1) else Endpoints(d.msb.value, d.lsb.value)
  }

  function DeclaredSize(d: DimAst): nat
    requires ClassifyDim(d).Ok?
  {
    AbsDiff(Declared(d).msb, Declared(d).lsb) + 1
  }

  /** A net declared with the very dimension of the formal passes the shape gate except in two cases: the size
      `[1]`, which the formal calls ascending and the net does not, and a size the gate clamps to 32 bits while
      the formal wraps it. */
  lemma SameDeclarationMatches(d: DimAst)
    requires ClassifyDim(d).Ok?
    ensures DimMatches(Declared(d), ClassifyDim(d).value)
       <==> d != Size(Some(1)) && (DeclaredSize(d) < WORD || DeclaredSize(d) % WORD == U32_MAX)
  {
    if DeclaredSize(d) < WORD { SmallMod(DeclaredSize(d), WORD); }
  }

  /** The formal's dimension is the declared one exactly when its size and its base fit 32 bits. */
  lemma ClassifiedAsDeclared(d: DimAst)
    requires ClassifyDim(d).Ok?
    ensures var lo := IntMin(Declared(d).msb, Declared(d).lsb);
      (ClassifyDim(d).value.size == DeclaredSize(d) && ClassifyDim(d).value.lo == lo
       <==> DeclaredSize(d) < WORD && lo < WORD)
  {
  }

  /** So an actual declared like the formal is accepted, and, its bounds being constant and not negative, passes
      every element by index. */
  lemma {:induction false} OwnDeclarationPasses(ds: seq<DimAst>, af: Formal, desc: seq<Endpoints>)
    requires |af.dims| == |ds| == |desc| && forall k :: 0 <= k < |ds| ==> ClassifyDim(ds[k]) == Ok(af.dims[k])
    requires forall k :: 0 <= k < |ds| ==> desc[k] == Declared(ds[k]) && ds[k] != Size(Some(1)) && DeclaredSize(ds[k]) < WORD
    ensures ShapeOk(StaticArray(af.elemW, af.count, desc, |ds|), af) && NonNegative(desc, |ds|)
  {
    forall k | 0 <= k < |ds| ensures DimMatches(desc[k], af.dims[k]) { SameDeclarationMatches(ds[k]); }
  }

  /** An element is an atom, or a vector written `[m:0]` with a constant `m` that is not negative; its width is the
      atom's, or the number of the vector's bits as far as 32 bits hold it. */
  lemma ElementExactly(e: Element)
    ensures ClassifyElement(e).Ok? <==>
      e.Atom? || (e.Vector? && e.msb.Some? && e.lsb.Some? && e.lsb.value == 0 && 0 <= e.msb.value)
    ensures e.Atom? ==> ClassifyElement(e) == Ok(e.width)
    ensures e.Vector? && ClassifyElement(e).Ok? && e.msb.value + 1 < 0x1_0000_0000 ==>
      ClassifyElement(e).value == e.msb.value - e.lsb.value + 1
    ensures e.NoBits? ==> ClassifyElement(e) == Err(NotBits)
    ensures e.Vector? && (e.msb.None? || e.lsb.None?) ==> ClassifyElement(e) == Err(NonConstantWidth)
    ensures e.Vector? && ClassifyElement(e).Err? && e.msb.Some? && e.lsb.Some? ==> ClassifyElement(e) == Err(OddRange)
  {
    if e.Vector? && e.msb.Some? && 0 <= e.msb.value < WORD - 1 { SmallMod(e.msb.value + 1, WORD); }
  }

  function Elements(dims: seq<FormalDim>): nat {
    if dims == [] then 1 else dims[0].size * Elements(dims[1..])
  }

  lemma {:induction false} ElementsSnoc(dims: seq<FormalDim>, d: FormalDim)
    ensures Elements(dims + [d]) == Elements(dims) * d.size
  {
    if dims == [] {
      assert [d][1..] == [] && dims + [d] == [d];
    } else {
      assert (dims + [d])[1..] == dims[1..] + [d];
      ElementsSnoc(dims[1..], d);
      MulAssoc(dims[0].size, Elements(dims[1..]), d.size);
    }
  }

  /** The count is the number of elements, or the largest 32-bit number when there are more. */
  lemma {:induction false} CountExactly(dims: seq<FormalDim>)
    requires forall k :: 0 <= k < |dims| ==> dims[k].size >= 1
    ensures Count(dims) == Min(Elements(dims), U32_MAX) && Elements(dims) >= 1
  {
    if dims != [] {
      var front, last := dims[..|dims| - 1], dims[|dims| - 1];
      assert dims == front + [last];
      CountExactly(front);
      ElementsSnoc(front, last);
      Saturates(Elements(front), last.size);
    }
  }

  lemma Saturates(x: nat, y: nat)
    requires x >= 1 && y >= 1
    ensures Min(Min(x, U32_MAX) * y, U32_MAX) == Min(x * y, U32_MAX) && x * y >= 1
  {
    if x > U32_MAX {
      MulBoundRight(y, U32_MAX);
      MulBoundRight(y, x);
    }
  }

  /** The reason is that of the first dimension that has one. */
  lemma {:induction false} FirstBadExactly(ds: seq<DimAst>)
    ensures match FirstBad(ds)
      case None => forall k :: 0 <= k < |ds| ==> ClassifyDim(ds[k]).Ok?
      case Some(r) => exists k :: 0 <= k < |ds| && ClassifyDim(ds[k]) == Err(r) && forall j :: 0 <= j < k ==> ClassifyDim(ds[j]).Ok?
  {
    hide ClassifyDim;
    if ds != [] && ClassifyDim(ds[0]).Ok? {
      FirstBadExactly(ds[1..]);
      assert forall k :: 0 < k < |ds| ==> ds[k] == ds[1..][k - 1];
      if FirstBad(ds).Some? {
        var r := FirstBad(ds).value;
        var k :| 0 <= k < |ds[1..]| && ClassifyDim(ds[1..][k]) == Err(r) && forall j :: 0 <= j < k ==> ClassifyDim(ds[1..][j]).Ok?;
        assert ClassifyDim(ds[k + 1]) == Err(r) && forall j :: 0 <= j < k + 1 ==> ClassifyDim(ds[j]).Ok?;
      }
    }
  }

  /** A dimension is a constant size of one at least, or a range of constant bounds neither of which is negative; as far as
      32 bits hold them it begins at zero or at the lower bound, has as many places as the size says or as there are from
      bound to bound, and counts up when it is a size or its first bound is the lower. Every other has its own refusal. */
  lemma DimensionExactly(d: DimAst)
    ensures ClassifyDim(d).Ok? <==>
      (d.Size? && d.n.Some? && 1 <= d.n.value)
      || (d.Range? && d.msb.Some? && d.lsb.Some? && 0 <= d.msb.value && 0 <= d.lsb.value)
    ensures d.Size? && ClassifyDim(d).Ok? && d.n.value < 0x1_0000_0000 ==> ClassifyDim(d).value == FormalDim(0, d.n.value, true)
    ensures d.Range? && ClassifyDim(d).Ok? && d.msb.value < 0xFFFF_FFFF && d.lsb.value < 0xFFFF_FFFF ==>
      var f := ClassifyDim(d).value;
      (if d.msb.value < d.lsb.value
       then f.ascending && f.lo == d.msb.value && f.lo + f.size - 1 == d.lsb.value
       else !f.ascending && f.lo == d.lsb.value && f.lo + f.size - 1 == d.msb.value)
    ensures d.Size? && ClassifyDim(d).Err? ==> ClassifyDim(d).error == BadSize
    ensures d.Range? && (d.msb.None? || d.lsb.None?) ==> ClassifyDim(d) == Err(NonConstantBound)
    ensures d.Range? && d.msb.Some? && d.lsb.Some? && ClassifyDim(d).Err? ==> ClassifyDim(d).error == NegativeBound
    ensures d.Unsized? ==> ClassifyDim(d) == Err(NoFixedSize)
  {
    if ClassifyDim(d).Ok? {
      if d.Size? {
        if d.n.value < WORD { SmallMod(d.n.value, WORD); }
      } else if d.msb.value < WORD - 1 && d.lsb.value < WORD - 1 {
        SmallMod(IntMin(d.msb.value, d.lsb.value), WORD);
        SmallMod(AbsDiff(d.msb.value, d.lsb.value) + 1, WORD);
      }
    }
  }
}
