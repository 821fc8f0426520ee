/** Unpacked-array formals: the caller's array is packed into one wide vector, position 0 at the
    least significant end, and the callee reads elements back out of it. */
module ArrayFormal {
  import opened Bits
  import opened Wrappers
  import opened Ir
  import opened RowMajor
  import opened Geometry

  datatype FormalDim = FormalDim(lo: nat, size: nat, ascending: bool)

  datatype Formal = Formal(count: nat, elemW: nat, ascending: bool, elemSigned: bool, dims: seq<FormalDim>)

  /** The declared `[msb:lsb]` endpoints of one dimension. */
  datatype Endpoints = Endpoints(msb: int, lsb: int)

  /** What the elaborator knows about the net an actual names. */
  datatype NetInfo =
    | StaticArray(width: nat, arrayLen: nat, desc: seq<Endpoints>, unpackedN: nat)
    | FrameFormal(formal: Formal)
    | OtherNet

  function AbsDiff(x: int, y: int): nat { if x < y then y - x else x - y }

  function IntMin(x: int, y: int): int { if x < y then x else y }

  /** The declared size of a dimension, clamped to 32 bits and floored at one. */
  function DeclaredDim(e: Endpoints): Dim {
    Dim(IntMin(e.msb, e.lsb), Max(1, Min(AbsDiff(e.msb, e.lsb) + 1, U32_MAX)))
  }

  function DeclaredDims(desc: seq<Endpoints>): (ext: seq<Dim>)
    ensures |ext| == |desc| && Sized(ext)
  {
    seq(|desc|, k requires 0 <= k < |desc| => DeclaredDim(desc[k]))
  }

  predicate DimMatches(e: Endpoints, f: FormalDim) {
    (if IntMin(e.msb, e.lsb) < 0 then 0 else IntMin(e.msb, e.lsb) % WORD) == f.lo
    && Min(AbsDiff(e.msb, e.lsb) + 1, U32_MAX) == f.size
    && (e.msb < e.lsb) == f.ascending
  }

  /** The shape gate between an actual and a callee formal. */
  predicate ShapeOk(net: NetInfo, af: Formal) {
    match net
    case FrameFormal(caller) => caller.dims == af.dims && caller.elemW == af.elemW
    case StaticArray(width, arrayLen, desc, unpackedN) =>
      width == af.elemW && arrayLen == af.count && unpackedN == |af.dims| && |desc| >= |af.dims|
      && forall k :: 0 <= k < |af.dims| ==> DimMatches(desc[k], af.dims[k])
    case OtherNet => false
  }

  /** The extents a packed slot is addressed by: one per unpacked dimension, then the element's bits. */
  function SlotDims(dims: seq<FormalDim>, elemW: nat): (ext: seq<Dim>)
    ensures |ext| == |dims| + 1
  {
    seq(|dims|, k requires 0 <= k < |dims| => Dim(dims[k].lo, dims[k].size)) + [Dim(0, elemW)]
  }

  // ---- values ----

  predicate Uniform(words: seq<Vec>, w: nat) {
    forall k :: 0 <= k < |words| ==> |words[k]| == w
  }

  /** All the words in one vector, word 0 least significant. */
  function Pack(words: seq<Vec>): Vec {
    if words == [] then [] else words[0] + Pack(words[1..])
  }

  lemma {:induction false} PackedLength(words: seq<Vec>, w: nat)
    requires Uniform(words, w)
    ensures |Pack(words)| == |words| * w
  {
    if words != [] {
      PackedLength(words[1..], w);
      assert |words| * w == w + (|words| - 1) * w;
    }
  }

  lemma {:induction false} PackedWord(words: seq<Vec>, w: nat, k: nat)
    requires Uniform(words, w) && k < |words|
    ensures k * w + w <= |Pack(words)| && Pack(words)[k * w..k * w + w] == words[k]
  {
    PackedLength(words, w);
    MulBound(k, |words|, w);
    if k == 0 {
      assert 0 * w == 0;
    } else {
      PackedWord(words[1..], w, k - 1);
      assert k * w == w + (k - 1) * w;
      assert Pack(words)[k * w..k * w + w] == Pack(words[1..])[(k - 1) * w..(k - 1) * w + w];
    }
  }

  /** An element read: the named word, or unknown. */
  function WordAt(words: seq<Vec>, w: nat, n: Option<nat>): Vec {
    if n.Some? && n.value < |words| then words[n.value] else Unknown(w)
  }

  /** An element read out of the packed slot at a bit offset. */
  function SlotAt(slot: Vec, w: nat, off: Option<nat>): Vec {
    SelectBits(slot, off, w, PartIdxUp)
  }

  lemma SlotIsSlice(slot: Vec, w: nat, off: nat)
    requires 1 <= w && off + w <= |slot| && off < WORD
    ensures SlotAt(slot, w, Some(off)) == slot[off..off + w]
  {
    var v := SlotAt(slot, w, Some(off));
    assert |v| == w;
    assert forall i :: 0 <= i < w ==> v[i] == BitAt(slot, off + i);
  }

  lemma SlotOutside(slot: Vec, w: nat, off: nat)
    requires 1 <= w && |slot| <= off
    ensures SlotAt(slot, w, Some(off)) == Unknown(w) && SlotAt(slot, w, None) == Unknown(w)
  {
    var v := SlotAt(slot, w, Some(off));
    if off < OFFSET_LIMIT {
      assert forall i :: 0 <= i < w ==> v[i] == BitAt(slot, off + i);
    }
  }

  // ---- addresses ----

  /** Appending the element's bit axis scales every address by the element width. */
  lemma {:induction false} ScaledProduct(ext: seq<Dim>, bits: Dim)
    ensures Product(ext + [bits]) == Product(ext) * bits.size
  {
    var all := ext + [bits];
    if ext == [] {
      assert all[1..] == [];
    } else {
      assert all[1..] == ext[1..] + [bits];
      ScaledProduct(ext[1..], bits);
      MulAssoc(ext[0].size, Product(ext[1..]), bits.size);
    }
  }

  lemma {:induction false} ScaledOffset(ext: seq<Dim>, bits: Dim, slots: seq<nat>)
    requires |slots| <= |ext|
    ensures Offset(ext + [bits], slots) == Offset(ext, slots) * bits.size
  {
    var all := ext + [bits];
    if slots != [] {
      assert all[1..] == ext[1..] + [bits];
      ScaledProduct(ext[1..], bits);
      ScaledOffset(ext[1..], bits, slots[1..]);
      MulAssoc(slots[0], Product(ext[1..]), bits.size);
      Distribute(slots[0] * Product(ext[1..]), Offset(ext[1..], slots[1..]), bits.size);
    }
  }

  lemma Distribute(a: int, b: int, c: int)
    ensures (a + b) * c == a * c + b * c
  {
  }

  /** Every extent list of an unpacked array within the model's limits. */
  predicate Addressable(ext: seq<Dim>, elemW: nat) {
    ext != [] && Sized(ext) && AllRepresentable(ext, []) && elemW >= 1 && Product(ext) * elemW <= MAX_ARRAY_LEN
  }

  lemma {:induction false} AddressableBounds(ext: seq<Dim>, elemW: nat)
    requires Addressable(ext, elemW)
    ensures Product(ext) <= MAX_ARRAY_LEN && elemW <= MAX_ARRAY_LEN
    ensures Sized(ext + [Dim(0, elemW)]) && AllRepresentable(ext + [Dim(0, elemW)], [])
    ensures Product(ext + [Dim(0, elemW)]) <= MAX_ARRAY_LEN
  {
    ScaledProduct(ext, Dim(0, elemW));
    MulBoundRight(Product(ext), elemW);
    MulBoundRight(elemW, Product(ext));
    Commute(Product(ext), elemW);
  }

  /** Reading through the packed extents gives the same element as reading the array itself, at every
      index list: in range, out of range, or unknown. */
  lemma {:induction false} ReadThroughSlot(ext: seq<Dim>, elemW: nat, words: seq<Vec>, idx: seq<Option<nat>>)
    requires Addressable(ext, elemW) && |idx| == |ext| && Words32(idx)
    requires Uniform(words, elemW) && |words| == Product(ext)
    ensures Sized(ext + [Dim(0, elemW)])
    ensures SlotAt(Pack(words), elemW, FlatWord(ext + [Dim(0, elemW)], [], idx))
         == WordAt(words, elemW, FlatWord(ext, [], idx))
  {
    hide Product, Offset, Sum, Guards, Pack, SelectBits, Representable, Within;
    var bits := Dim(0, elemW);
    var all := ext + [bits];
    AddressableBounds(ext, elemW);
    PackedLength(words, elemW);
    FlatWordMeaning(all, [], idx);
    OuterOnly(ext, bits, idx);
    if AllWithin(ext, idx) {
      var s := Slots(ext, [], idx);
      FlatInside(ext, idx);
      ScaledOffset(ext, bits, s);
      SliceOfPack(words, elemW, Offset(ext, s));
    } else {
      FlatOutside(ext, idx);
      SlotOutside(Pack(words), elemW, OOB);
    }
  }

  lemma {:induction false} SliceOfPack(words: seq<Vec>, w: nat, k: nat)
    requires Uniform(words, w) && k < |words| && 1 <= w && |words| * w <= MAX_ARRAY_LEN
    ensures SlotAt(Pack(words), w, Some(k * w)) == words[k]
  {
    hide Pack, SlotAt, SelectBits, Uniform;
    PackedLength(words, w);
    PackedWord(words, w, k);
    var at, all := k * w, |words| * w;
    assert at + w <= all <= MAX_ARRAY_LEN;
    SlotIsSlice(Pack(words), w, at);
  }

  /** The bit axis carries no index, so it does not change which indices are in range. */
  lemma {:induction false} OuterOnly(ext: seq<Dim>, bits: Dim, idx: seq<Option<nat>>)
    requires |idx| == |ext|
    ensures AllWithin(ext + [bits], idx) == AllWithin(ext, idx)
    ensures SomeOutside(ext + [bits], idx) == SomeOutside(ext, idx)
    ensures AllWithin(ext, idx) ==> Slots(ext + [bits], [], idx) == Slots(ext, [], idx)
  {
    var all := ext + [bits];
    assert forall k :: 0 <= k < |idx| ==> all[k] == ext[k];
    if SomeOutside(ext, idx) {
      var k :| 0 <= k < |idx| && idx[k].Some? && !Within(ext[k], idx[k].value);
      assert !Within(all[k], idx[k].value);
    }
  }

  /** The array's own address, whatever the number of dimensions: inside it is the row-major offset. */
  lemma {:induction false} FlatInside(ext: seq<Dim>, idx: seq<Option<nat>>)
    requires Sized(ext) && 1 <= |ext| == |idx| && AllRepresentable(ext, []) && Words32(idx)
    requires Product(ext) <= MAX_ARRAY_LEN && AllWithin(ext, idx)
    ensures InRange(ext, Slots(ext, [], idx)) && Offset(ext, Slots(ext, [], idx)) < Product(ext)
    ensures FlatWord(ext, [], idx) == Some(Offset(ext, Slots(ext, [], idx)))
  {
    hide Product, Offset, Sum, Guards, Representable;
    var s := Slots(ext, [], idx);
    SumIsOffset(ext, [], idx, |idx|);
    assert s[..|idx|] == s;
    OffsetBound(ext, s);
    EmptyProduct(ext[|idx|..]);
    if |ext| >= 2 { FlatWordMeaning(ext, [], idx); }
  }

  lemma EmptyProduct(ext: seq<Dim>)
    ensures ext == [] ==> Product(ext) == 1
  {
  }

  /** Outside, the address names no word: the sentinel, a wrapped coordinate, or unknown. */
  lemma {:induction false} FlatOutside(ext: seq<Dim>, idx: seq<Option<nat>>)
    requires Sized(ext) && 1 <= |ext| == |idx| && AllRepresentable(ext, []) && Words32(idx)
    requires Product(ext) <= MAX_ARRAY_LEN && !AllWithin(ext, idx)
    ensures FlatWord(ext, [], idx).Some? ==> FlatWord(ext, [], idx).value >= Product(ext)
  {
    if |ext| >= 2 {
      hide Product, Offset, Sum, Guards, Representable;
      FlatWordMeaning(ext, [], idx);
    } else {
      var dim := ext[0];
      assert ext == [dim] && ext[1..] == [];
      assert Product(ext) == dim.size * 1;
      if idx[0].Some? {
        var i := idx[0].value;
        OneDimension(dim, false, i);
        assert idx == [Some(i)] && FlatWord([dim], [], [Some(i)]) == FlatWord([dim], [false], [Some(i)]) by {
          FlagsOnly([dim], [], [false], [Some(i)], 1);
        }
      } else {
        SumUnknown(ext, [], idx, 1);
      }
    }
  }

  lemma {:induction false} FlagsOnly(ext: seq<Dim>, f: seq<bool>, g: seq<bool>, idx: seq<Option<nat>>, k: nat)
    requires Sized(ext) && k <= |idx| <= |ext| && forall j :: 0 <= j < k ==> Flag(f, j) == Flag(g, j)
    ensures Sum(ext, f, idx, k) == Sum(ext, g, idx, k)
  {
    if k != 0 { FlagsOnly(ext, f, g, idx, k - 1); }
  }

  // ---- the copy theorem ----

  /** The extents the formal's own declaration gives it. */
  function FormalDims(dims: seq<FormalDim>): (ext: seq<Dim>)
    ensures |ext| == |dims|
  {
    seq(|dims|, k requires 0 <= k < |dims| => Dim(dims[k].lo, dims[k].size))
  }

  /** The actual's declared bounds are not negative. */
  predicate NonNegative(desc: seq<Endpoints>, n: nat)
    requires n <= |desc|
  {
    forall k :: 0 <= k < n ==> IntMin(desc[k].msb, desc[k].lsb) >= 0
  }

  /** A static array as declared: its length is the product of its dimensions. */
  predicate WellDeclared(net: NetInfo) {
    net.StaticArray? && net.unpackedN <= |net.desc|
    && net.arrayLen == Product(DeclaredDims(net.desc[..net.unpackedN]))
    && Addressable(DeclaredDims(net.desc[..net.unpackedN]), net.width)
    && forall k :: 0 <= k < net.unpackedN ==> IntMin(net.desc[k].msb, net.desc[k].lsb) < WORD
  }

  /** `a[idx]` in the caller. */
  function ActualElement(net: NetInfo, words: seq<Vec>, idx: seq<Option<nat>>): Vec
    requires WellDeclared(net) && |idx| == net.unpackedN
  {
    WordAt(words, net.width, FlatWord(DeclaredDims(net.desc[..net.unpackedN]), [], idx))
  }

  /** `m[idx]` in the callee, read from the slot. */
  function FormalElement(af: Formal, slot: Vec, idx: seq<Option<nat>>): Vec
    requires Sized(SlotDims(af.dims, af.elemW)) && |idx| == |af.dims|
  {
    SlotAt(slot, af.elemW, FlatWord(SlotDims(af.dims, af.elemW), [], idx))
  }

  /** A matching actual has the formal's dimensions up to the base of a negative dimension. */
  lemma {:induction false} MatchingDims(net: NetInfo, af: Formal)
    requires WellDeclared(net) && ShapeOk(net, af)
    ensures forall k :: 0 <= k < |af.dims| ==>
              DeclaredDims(net.desc[..net.unpackedN])[k].size == FormalDims(af.dims)[k].size
              && FormalDims(af.dims)[k].lo == if IntMin(net.desc[k].msb, net.desc[k].lsb) < 0 then 0
                                              else IntMin(net.desc[k].msb, net.desc[k].lsb)
    ensures SlotDims(af.dims, af.elemW) == FormalDims(af.dims) + [Dim(0, af.elemW)]
    ensures Addressable(FormalDims(af.dims), af.elemW)
    ensures Product(FormalDims(af.dims)) == net.arrayLen
    ensures NonNegative(net.desc, net.unpackedN) ==> DeclaredDims(net.desc[..net.unpackedN]) == FormalDims(af.dims)
  {
    var n := net.unpackedN;
    var x, y := DeclaredDims(net.desc[..n]), FormalDims(af.dims);
    forall k | 0 <= k < n
      ensures x[k].size == y[k].size
      ensures Representable(y[k], false)
      ensures y[k].lo == if IntMin(net.desc[k].msb, net.desc[k].lsb) < 0 then 0 else IntMin(net.desc[k].msb, net.desc[k].lsb)
    {
      assert DimMatches(net.desc[k], af.dims[k]);
      assert net.desc[..n][k] == net.desc[k];
      assert Representable(x[k], Flag([], k));
    }
    SameSizes(x, y);
  }

  lemma {:induction false} SameSizes(x: seq<Dim>, y: seq<Dim>)
    requires |x| == |y| && forall k :: 0 <= k < |x| ==> x[k].size == y[k].size
    ensures Product(x) == Product(y)
  {
    if x != [] { SameSizes(x[1..], y[1..]); }
  }

  /** Pass by value preserves every element at every index list, out-of-range and unknown ones
      included, when the actual's bounds are not negative (IEEE 1800-2017 section 13.5.1). */
  lemma {:induction false} CopyByIndex(net: NetInfo, af: Formal, words: seq<Vec>, idx: seq<Option<nat>>)
    requires WellDeclared(net) && ShapeOk(net, af) && NonNegative(net.desc, net.unpackedN)
    requires Uniform(words, net.width) && |words| == net.arrayLen
    requires |idx| == |af.dims| && Words32(idx)
    ensures Sized(SlotDims(af.dims, af.elemW))
    ensures FormalElement(af, Pack(words), idx) == ActualElement(net, words, idx)
  {
    MatchingDims(net, af);
    ReadThroughSlot(FormalDims(af.dims), af.elemW, words, idx);
  }

  /** The index list naming position `slots` of an array. */
  function NameOf(ext: seq<Dim>, slots: seq<nat>): (idx: seq<Option<nat>>)
    requires |slots| == |ext|
    ensures |idx| == |ext|
  {
    seq(|ext|, k requires 0 <= k < |ext| => Some((ext[k].lo + slots[k]) % WORD))
  }

  lemma {:induction false} NameReads(ext: seq<Dim>, slots: seq<nat>)
    requires Sized(ext) && AllRepresentable(ext, []) && |slots| == |ext| >= 1 && InRange(ext, slots)
    requires Product(ext) <= MAX_ARRAY_LEN
    ensures Words32(NameOf(ext, slots)) && Offset(ext, slots) < Product(ext)
    ensures FlatWord(ext, [], NameOf(ext, slots)) == Some(Offset(ext, slots))
  {
    hide Product, Offset, FlatWord;
    var idx := NameOf(ext, slots);
    forall k | 0 <= k < |ext|
      ensures Within(ext[k], idx[k].value) && SlotOf(ext[k], false, idx[k].value) == slots[k]
    {
      ModEqual(idx[k].value - ext[k].lo, slots[k], -((ext[k].lo + slots[k]) / WORD));
    }
    FlatInside(ext, idx);
    assert Slots(ext, [], idx) == slots;
  }

  /** By position the copy is exact whatever the bases: the element the callee calls position `slots`
      is the one the caller calls position `slots`. */
  lemma {:induction false} CopyByPosition(net: NetInfo, af: Formal, words: seq<Vec>, slots: seq<nat>)
    requires WellDeclared(net) && ShapeOk(net, af)
    requires Uniform(words, net.width) && |words| == net.arrayLen
    requires |slots| == |af.dims| && InRange(FormalDims(af.dims), slots)
    ensures Sized(SlotDims(af.dims, af.elemW)) && |slots| == net.unpackedN
    ensures FormalElement(af, Pack(words), NameOf(FormalDims(af.dims), slots))
         == ActualElement(net, words, NameOf(DeclaredDims(net.desc[..net.unpackedN]), slots))
         == WordAt(words, net.width, Some(Offset(FormalDims(af.dims), slots)))
  {
    MatchingDims(net, af);
    var x, y := DeclaredDims(net.desc[..net.unpackedN]), FormalDims(af.dims);
    AddressableBounds(x, net.width);
    AddressableBounds(y, net.width);
    SameSizes(x, y);
    SameOffset(x, y, slots);
    NameReads(x, slots);
    NameReads(y, slots);
    ReadThroughSlot(y, af.elemW, words, NameOf(y, slots));
  }

  lemma {:induction false} SameOffset(x: seq<Dim>, y: seq<Dim>, slots: seq<nat>)
    requires |slots| <= |x| == |y| && forall k :: 0 <= k < |x| ==> x[k].size == y[k].size
    ensures Offset(x, slots) == Offset(y, slots)
  {
    if slots != [] {
      SameSizes(x[1..], y[1..]);
      SameOffset(x[1..], y[1..], slots[1..]);
    }
  }

  /** Every index list reads the same element on both sides, whatever the array holds. */
  ghost predicate CopiesByIndex(net: NetInfo, af: Formal)
    requires WellDeclared(net) && ShapeOk(net, af) && Sized(SlotDims(af.dims, af.elemW))
  {
    forall words: seq<Vec>, idx: seq<Option<nat>> ::
      Uniform(words, net.width) && |words| == net.arrayLen && |idx| == |af.dims| && Words32(idx) ==>
        FormalElement(af, Pack(words), idx) == ActualElement(net, words, idx)
  }

  /** The shape gate clamps a negative base to zero, so index-for-index the copy is exact if and only
      if no bound of the actual is negative. */
  lemma {:induction false} CopyByIndexExactly(net: NetInfo, af: Formal)
    requires WellDeclared(net) && ShapeOk(net, af)
    ensures Sized(SlotDims(af.dims, af.elemW))
    ensures CopiesByIndex(net, af) <==> NonNegative(net.desc, net.unpackedN)
  {
    MatchingDims(net, af);
    AddressableBounds(FormalDims(af.dims), af.elemW);
    if NonNegative(net.desc, net.unpackedN) {
      forall words: seq<Vec>, idx: seq<Option<nat>> |
        Uniform(words, net.width) && |words| == net.arrayLen && |idx| == |af.dims| && Words32(idx)
        ensures FormalElement(af, Pack(words), idx) == ActualElement(net, words, idx)
      {
        CopyByIndex(net, af, words, idx);
      }
    } else {
      var words, idx := ShiftedBaseDiffers(net, af);
    }
  }

  /** With a negative base, the callee's first element is not the caller's element of that index. */
  lemma {:induction false} ShiftedBaseDiffers(net: NetInfo, af: Formal)
    returns (words: seq<Vec>, idx: seq<Option<nat>>)
    requires WellDeclared(net) && ShapeOk(net, af) && !NonNegative(net.desc, net.unpackedN)
    ensures Sized(SlotDims(af.dims, af.elemW))
    ensures Uniform(words, net.width) && |words| == net.arrayLen && |idx| == |af.dims| && Words32(idx)
    ensures FormalElement(af, Pack(words), idx) != ActualElement(net, words, idx)
  {
    hide Product, Pack, WellDeclared, ShapeOk, FlatWord, Addressable;
    Agreement(net, af);
    MatchingDims(net, af);
    var w := net.width;
    AddressableBounds(FormalDims(af.dims), af.elemW);
    words := Marked(net.arrayLen, w);
    var zeros := seq(|af.dims|, _ => 0);
    idx := NameOf(FormalDims(af.dims), zeros);
    FirstInFormal(net, af, words, zeros);
    FirstMoved(net, af, idx);
    assert words[0][0] == B1 && forall k :: 0 < k < |words| ==> words[k][0] == B0;
  }

  lemma Agreement(net: NetInfo, af: Formal)
    requires WellDeclared(net) && ShapeOk(net, af)
    ensures net.StaticArray? && net.width == af.elemW >= 1 && |af.dims| == net.unpackedN <= |net.desc|
  {
  }

  /** Words of which only the first is non-zero. */
  function Marked(n: nat, w: nat): (words: seq<Vec>)
    ensures |words| == n
    ensures forall k :: 0 <= k < n ==> words[k] == Repeat(if k == 0 then B1 else B0, w)
    ensures Uniform(words, w)
  {
    seq(n, k => Repeat(if k == 0 then B1 else B0, w))
  }

  /** The formal's own lower bounds name position 0. */
  lemma {:induction false} FirstInFormal(net: NetInfo, af: Formal, words: seq<Vec>, zeros: seq<nat>)
    requires WellDeclared(net) && ShapeOk(net, af) && Uniform(words, net.width) && |words| == net.arrayLen
    requires |zeros| == |af.dims| && forall k :: 0 <= k < |zeros| ==> zeros[k] == 0
    ensures Sized(SlotDims(af.dims, af.elemW)) && Words32(NameOf(FormalDims(af.dims), zeros))
    ensures net.arrayLen >= 1
    ensures FormalElement(af, Pack(words), NameOf(FormalDims(af.dims), zeros)) == words[0]
  {
    var y := FormalDims(af.dims);
    MatchingDims(net, af);
    AddressableBounds(y, net.width);
    NameReads(y, zeros);
    OffsetZero(y, zeros);
    ReadThroughSlot(y, net.width, words, NameOf(y, zeros));
  }

  /** In the caller they name another word, or none, when a base is negative. */
  lemma {:induction false} FirstMoved(net: NetInfo, af: Formal, idx: seq<Option<nat>>)
    requires WellDeclared(net) && ShapeOk(net, af) && !NonNegative(net.desc, net.unpackedN)
    requires idx == NameOf(FormalDims(af.dims), seq(|af.dims|, _ => 0)) && Words32(idx)
    ensures FlatWord(DeclaredDims(net.desc[..net.unpackedN]), [], idx) != Some(0)
  {
    hide Product, FlatWord;
    MatchingDims(net, af);
    var x := DeclaredDims(net.desc[..net.unpackedN]);
    AddressableBounds(x, net.width);
    var k :| 0 <= k < net.unpackedN && IntMin(net.desc[k].msb, net.desc[k].lsb) < 0;
    assert x[k] == DeclaredDim(net.desc[k]) by { assert net.desc[..net.unpackedN][k] == net.desc[k]; }
    assert idx[k] == Some(0);
    assert Representable(x[k], Flag([], k));
    NegativeBaseMoves(x[k]);
    NotFirst(x, idx, k);
  }

  lemma NegativeBaseMoves(dim: Dim)
    requires dim.lo < 0 && 1 <= dim.size < WORD && Representable(dim, false)
    ensures Within(dim, 0) ==> SlotOf(dim, false, 0) >= 1
  {
  }

  lemma {:induction false} OffsetZero(ext: seq<Dim>, slots: seq<nat>)
    requires |slots| <= |ext| && forall k :: 0 <= k < |slots| ==> slots[k] == 0
    ensures Offset(ext, slots) == 0
  {
    if slots != [] { OffsetZero(ext[1..], slots[1..]); }
  }

  lemma {:induction false} NotFirst(ext: seq<Dim>, idx: seq<Option<nat>>, k: nat)
    requires Sized(ext) && AllRepresentable(ext, []) && |idx| == |ext| && Words32(idx) && k < |ext|
    requires Product(ext) <= MAX_ARRAY_LEN && idx[k] == Some(0)
    requires Within(ext[k], 0) ==> SlotOf(ext[k], false, 0) >= 1
    ensures FlatWord(ext, [], idx) != Some(0)
  {
    hide Product, Sum, Guards, Representable, Within, SlotOf;
    if AllWithin(ext, idx) {
      FlatInside(ext, idx);
      var s := Slots(ext, [], idx);
      assert s[k] == SlotOf(ext[k], false, 0);
      if Offset(ext, s) == 0 {
        var zeros := seq(|ext|, _ => 0);
        OffsetZero(ext, zeros);
        ProductPositive(ext);
        OffsetInjective(ext, s, zeros, 0, 0);
      }
    } else {
      FlatOutside(ext, idx);
      ProductPositive(ext);
    }
  }

  lemma {:induction false} ProductPositive(ext: seq<Dim>)
    requires Sized(ext)
    ensures Product(ext) >= 1 && Product(ext[|ext|..]) == 1
    ensures forall k :: 0 <= k < |ext| ==> ext[k].size >= 1
  {
  }

  // ---- forwarding ----

  /** An array value on its way down a chain of calls: a static array, or a formal forwarded whole. */
  datatype Source = Static(net: NetInfo, words: seq<Vec>) | Forwarded(formal: Formal, from: Source)

  /** The shape gate held at every call of the chain. */
  predicate Accepted(s: Source, af: Formal) {
    match s
    case Static(net, words) =>
      WellDeclared(net) && ShapeOk(net, af) && Uniform(words, net.width) && |words| == net.arrayLen
    case Forwarded(formal, from) => ShapeOk(FrameFormal(formal), af) && Accepted(from, formal)
  }

  /** The value bound to the slot at the end of the chain. */
  function SlotValue(s: Source): Vec {
    match s
    case Static(_, words) => Pack(words)
    case Forwarded(_, from) => SlotValue(from)
  }

  function Origin(s: Source): Source {
    if s.Static? then s else Origin(s.from)
  }

  /** However long the chain, the last callee reads the first caller's elements. */
  lemma {:induction false} ForwardChain(s: Source, af: Formal, idx: seq<Option<nat>>)
    requires Accepted(s, af) && |idx| == |af.dims| && Words32(idx)
    ensures Origin(s).Static? && WellDeclared(Origin(s).net) && Origin(s).net.unpackedN == |af.dims|
    ensures Sized(SlotDims(af.dims, af.elemW))
    ensures NonNegative(Origin(s).net.desc, Origin(s).net.unpackedN) ==>
              FormalElement(af, SlotValue(s), idx) == ActualElement(Origin(s).net, Origin(s).words, idx)
  {
    match s
    case Static(net, words) =>
      MatchingDims(net, af);
      AddressableBounds(FormalDims(af.dims), af.elemW);
      if NonNegative(net.desc, net.unpackedN) { CopyByIndex(net, af, words, idx); }
    case Forwarded(formal, from) =>
      ForwardChain(from, formal, idx);
  }
}
