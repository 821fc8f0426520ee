/** The lowering of an array-formal call: packing the actual, reading an element of the formal,
    and reading an element of an ordinary array. */
module FormalCalls {
  import opened Bits
  import opened Wrappers
  import opened Ir
  import opened RowMajor
  import opened Words
  import opened Emitter
  import opened IndexSeal
  import opened Geometry
  import opened ArrayGeom
  import opened ArrayFormal

  /** The words an array net holds. */
  function NetWords(d: Design, st: Store, net: nat, n: nat): (words: seq<Vec>)
    ensures |words| == n && Uniform(words, NetShape(d, net).width)
  {
    seq(n, k requires 0 <= k < n => ReadWord(d, st, net, Some(k)))
  }

  predicate IsWordRead(a: Arena, e: nat, net: nat, k: nat) {
    e < |a| && a[e].Signal? && a[e].net == net && a[e].word.Some? && a[e].word.value < e
    && IsWordConst(a, a[e].word.value, k)
  }

  lemma WordReadMeaning(a: Arena, d: Design, st: Store, e: nat, net: nat, k: nat)
    requires IsWordRead(a, e, net, k)
    ensures EvalSelf(a, d, st, e) == ReadWord(d, st, net, Some(k))
  {
    hide FromNat, Pow2;
    Pow2Word();
    ConstSelf(a, d, st, a[e].word.value, k, 32);
    var v := ReadWord(d, st, net, Some(k));
    assert Resize(v, |v|, NetShape(d, net).signed) == v;
  }

  /** Parts listed from the last word down to word 0 concatenate to the packed array. */
  lemma {:induction false} PartsPack(a: Arena, d: Design, st: Store, net: nat, parts: seq<nat>, bound: nat, n: nat)
    requires bound <= |a| && Below(parts, bound) && |parts| == n
    requires forall j :: 0 <= j < n ==> IsWordRead(a, parts[j], net, n - 1 - j)
    ensures EvalParts(a, d, st, parts, bound) == Pack(NetWords(d, st, net, n))
  {
    hide ReadWord, Pack, FromNat;
    if n == 0 {
      NothingPacked();
    } else {
      WordReadMeaning(a, d, st, parts[0], net, n - 1);
      PartsPack(a, d, st, net, parts[1..], bound, n - 1);
      var words := NetWords(d, st, net, n);
      assert words == NetWords(d, st, net, n - 1) + [ReadWord(d, st, net, Some(n - 1))];
      PackSnoc(NetWords(d, st, net, n - 1), ReadWord(d, st, net, Some(n - 1)));
    }
  }

  lemma NothingPacked()
    ensures Pack([]) == []
  {
  }

  lemma {:induction false} PackSnoc(words: seq<Vec>, last: Vec)
    ensures Pack(words + [last]) == Pack(words) + last
  {
    var all := words + [last];
    if words == [] {
      assert all[1..] == [];
    } else {
      assert all[1..] == words[1..] + [last];
      PackSnoc(words[1..], last);
    }
  }

  /** Pack a matching actual into the callee's slot value; `None` when the shapes differ. */
  method PackHierArrayActual(el: Elaborator, net: nat, info: NetInfo, af: Formal) returns (r: Option<nat>)
    requires info.StaticArray? ==> info.arrayLen <= MAX_ARRAY_LEN
    modifies el`exprs
    ensures Extends(old(el.exprs), el.exprs) && Live(el.exprs, r)
    ensures r.Some? <==> ShapeOk(info, af)
    ensures r.Some? && info.FrameFormal? ==>
              forall st: Store :: EvalSelf(el.exprs, el.design, st, r.value) == ReadWord(el.design, st, net, Some(0))
    ensures r.Some? && info.StaticArray? && 1 <= af.count * NetShape(el.design, net).width <= WIDTH_MAX ==>
              forall st: Store :: EvalSelf(el.exprs, el.design, st, r.value) == Pack(NetWords(el.design, st, net, af.count))
  {
    if !ShapeOk(info, af) { return None; }
    ghost var d := el.design;
    if !info.StaticArray? {
      var whole := el.Push(Signal(net, None));
      forall st: Store ensures EvalSelf(el.exprs, d, st, whole) == ReadWord(d, st, net, Some(0)) {
        var v := ReadWord(d, st, net, Some(0));
        assert Resize(v, |v|, NetShape(d, net).signed) == v;
      }
      return Some(whole);
    }
    ghost var a0 := el.exprs;
    var n := af.count;
    var parts: seq<nat> := [];
    var k := n;
    while k > 0
      invariant 0 <= k <= n && |parts| == n - k && Extends(a0, el.exprs)
      invariant Below(parts, |el.exprs|)
      invariant forall j :: 0 <= j < |parts| ==> IsWordRead(el.exprs, parts[j], net, n - 1 - j)
    {
      k := k - 1;
      var word := el.ConstU32(k, 32);
      var part := el.Push(Signal(net, Some(word)));
      parts := parts + [part];
    }
    ghost var a1 := el.exprs;
    var c := el.Push(Concat(parts));
    r := Some(c);
    if 1 <= n * NetShape(d, net).width <= WIDTH_MAX {
      forall st: Store ensures EvalSelf(el.exprs, d, st, c) == Pack(NetWords(d, st, net, n)) {
        ConcatPack(el.exprs, d, st, net, c, n);
      }
    }
  }

  lemma ConcatPack(a: Arena, d: Design, st: Store, net: nat, c: nat, n: nat)
    requires c < |a| && a[c].Concat? && |a[c].parts| == n && 1 <= n * NetShape(d, net).width <= WIDTH_MAX
    requires forall j :: 0 <= j < n ==> IsWordRead(a, a[c].parts[j], net, n - 1 - j)
    ensures EvalSelf(a, d, st, c) == Pack(NetWords(d, st, net, n))
  {
    PartsPack(a, d, st, net, a[c].parts, c, n);
    PackedLength(NetWords(d, st, net, n), NetShape(d, net).width);
    var v := Pack(NetWords(d, st, net, n));
    assert Resize(v, |v|, false) == v;
  }

  /** `net[idx]` of an ordinary array. */
  method LowerArrayRead(el: Elaborator, net: nat, ext: seq<Dim>, idx: seq<nat>, facts: seq<Facts>) returns (r: nat)
    requires Sized(ext) && |idx| == |ext| == |facts| && Below(idx, |el.exprs|)
    requires forall k :: 0 <= k < |idx| ==> ShapeOf(el.exprs, el.design, idx[k]).width >= 1
    modifies el
    ensures Extends(old(el.exprs), el.exprs) && r < |el.exprs|
    ensures AllNarrow(old(el.exprs), el.design, idx, ArrayWord, facts) ==>
              forall st: Store ::
                EvalSelf(el.exprs, el.design, st, r)
                == ReadWord(el.design, st, net,
                            FlatWord(ext, [], Readings(old(el.exprs), el.design, st, ext, [], idx, ArrayWord, facts)))
    ensures forall st: Store :: AllSealed(old(el.exprs), el.design, st, idx, ArrayWord, facts) ==>
              EvalSelf(el.exprs, el.design, st, r)
              == ReadWord(el.design, st, net, FlatWord(ext, [], IndexWords(old(el.exprs), el.design, st, idx)))
    ensures AllStable(old(el.exprs), el.design, idx, ArrayWord, facts) ==>
              forall st: Store ::
                EvalSelf(el.exprs, el.design, st, r)
                == ReadWord(el.design, st, net, FlatWord(ext, [], OwnWords(old(el.exprs), el.design, st, idx)))
  {
    hide AllStable, AllSealed, AllNarrow, Reading, IsWord, FlatWord, FromNat, Lone;
    ghost var a0, d := el.exprs, el.design;
    var word := FlattenWordEids(el, ext, idx, [], ArrayWord, facts);
    ghost var a1 := el.exprs;
    r := el.Push(Signal(net, Some(word)));
    if AllNarrow(a0, d, idx, ArrayWord, facts) {
      forall st: Store
        ensures EvalSelf(el.exprs, d, st, r)
             == ReadWord(d, st, net, FlatWord(ext, [], Readings(a0, d, st, ext, [], idx, ArrayWord, facts)))
      {
        EvalSelfExtends(a1, el.exprs, d, st, word);
        SignalMeaning(el.exprs, d, st, r);
      }
    }
    forall st: Store | AllSealed(a0, d, st, idx, ArrayWord, facts)
      ensures EvalSelf(el.exprs, d, st, r) == ReadWord(d, st, net, FlatWord(ext, [], IndexWords(a0, d, st, idx)))
    {
      SealedSeals(a0, d, st, ext, [], idx, ArrayWord, facts);
    }
    if AllStable(a0, d, idx, ArrayWord, facts) {
      forall st: Store
        ensures EvalSelf(el.exprs, d, st, r) == ReadWord(d, st, net, FlatWord(ext, [], OwnWords(a0, d, st, idx)))
      {
        StableSeals(a0, d, st, ext, [], idx, ArrayWord, facts);
      }
    }
  }

  lemma SignalMeaning(a: Arena, d: Design, st: Store, e: nat)
    requires e < |a| && a[e].Signal? && a[e].word.Some?
    ensures EvalSelf(a, d, st, e) == ReadWord(d, st, a[e].net, IndexOf(EvalSelf(a, d, st, a[e].word.value)))
  {
    var v := ReadWord(d, st, a[e].net, IndexOf(EvalSelf(a, d, st, a[e].word.value)));
    assert Resize(v, |v|, NetShape(d, a[e].net).signed) == v;
  }

  /** `m[idx]` of an array formal: a whole element selected out of the packed slot, re-stamped signed
      when the element type is. */
  method LowerPackedRead(el: Elaborator, slot: nat, af: Formal, idx: seq<nat>, facts: seq<Facts>) returns (r: nat)
    requires Sized(SlotDims(af.dims, af.elemW)) && 1 <= af.elemW <= WIDTH_MAX
    requires |idx| == |af.dims| == |facts| && Below(idx, |el.exprs|)
    requires forall k :: 0 <= k < |idx| ==> ShapeOf(el.exprs, el.design, idx[k]).width >= 1
    modifies el
    ensures Extends(old(el.exprs), el.exprs) && r < |el.exprs|
    ensures af.elemSigned ==> ShapeOf(el.exprs, el.design, r).signed
    ensures AllNarrow(old(el.exprs), el.design, idx, WordsThenElem(|af.dims|), facts) ==>
              forall st: Store ::
                EvalSelf(el.exprs, el.design, st, r)
                == FormalElement(af, ReadWord(el.design, st, slot, Some(0)),
                                 Readings(old(el.exprs), el.design, st, SlotDims(af.dims, af.elemW), [], idx,
                                          WordsThenElem(|af.dims|), facts))
    ensures forall st: Store ::
              AllSealed(old(el.exprs), el.design, st, idx, WordsThenElem(|af.dims|), facts) ==>
                EvalSelf(el.exprs, el.design, st, r)
                == FormalElement(af, ReadWord(el.design, st, slot, Some(0)),
                                 IndexWords(old(el.exprs), el.design, st, idx))
    ensures AllStable(old(el.exprs), el.design, idx, WordsThenElem(|af.dims|), facts) ==>
              forall st: Store ::
                EvalSelf(el.exprs, el.design, st, r)
                == FormalElement(af, ReadWord(el.design, st, slot, Some(0)), OwnWords(old(el.exprs), el.design, st, idx))
  {
    hide AllStable, AllSealed, AllNarrow, Reading, IsWord, FlatWord, FromNat, Pow2, SelectBits, Lone;
    ghost var a0, d := el.exprs, el.design;
    var ext := SlotDims(af.dims, af.elemW);
    var offset := FlattenWordEids(el, ext, idx, [], WordsThenElem(|af.dims|), facts);
    ghost var a1 := el.exprs;
    var base := el.Push(Signal(slot, None));
    var width := el.ConstU32(af.elemW, 32);
    var sel := el.Push(Select(base, offset, width, PartIdxUp));
    r := sel;
    if af.elemSigned { r := el.Push(SysFunc(Signed, [sel])); }
    if AllNarrow(a0, d, idx, WordsThenElem(|af.dims|), facts) {
      forall st: Store
        ensures EvalSelf(el.exprs, d, st, r)
             == FormalElement(af, ReadWord(d, st, slot, Some(0)),
                              Readings(a0, d, st, ext, [], idx, WordsThenElem(|af.dims|), facts))
      {
        EvalSelfExtends(a1, el.exprs, d, st, offset);
        SelectMeaning(el.exprs, d, st, sel, slot, af.elemW);
        if af.elemSigned { CastMeaning(el.exprs, d, st, r, sel); }
      }
    }
    forall st: Store | AllSealed(a0, d, st, idx, WordsThenElem(|af.dims|), facts)
      ensures EvalSelf(el.exprs, d, st, r)
           == FormalElement(af, ReadWord(d, st, slot, Some(0)), IndexWords(a0, d, st, idx))
    {
      SealedSeals(a0, d, st, ext, [], idx, WordsThenElem(|af.dims|), facts);
    }
    if AllStable(a0, d, idx, WordsThenElem(|af.dims|), facts) {
      forall st: Store
        ensures EvalSelf(el.exprs, d, st, r)
             == FormalElement(af, ReadWord(d, st, slot, Some(0)), OwnWords(a0, d, st, idx))
      {
        StableSeals(a0, d, st, ext, [], idx, WordsThenElem(|af.dims|), facts);
      }
    }
  }

  lemma SelectMeaning(a: Arena, d: Design, st: Store, e: nat, slot: nat, w: nat)
    requires e < |a| && a[e].Select? && a[e].kind.PartIdxUp? && a[a[e].base] == Signal(slot, None)
    requires IsWordConst(a, a[e].width, w) && 1 <= w <= WIDTH_MAX
    ensures EvalSelf(a, d, st, e) == SlotAt(ReadWord(d, st, slot, Some(0)), w, IndexOf(EvalSelf(a, d, st, a[e].offset)))
    ensures ShapeOf(a, d, e).width == w
  {
    hide FromNat, Pow2;
    Pow2Word();
    ConstFolds(a, a[e].width, w, 32, 1);
    var v := ReadWord(d, st, slot, Some(0));
    assert Resize(v, |v|, NetShape(d, slot).signed) == v;
    assert EvalSelf(a, d, st, a[e].base) == v;
    var s := SlotAt(v, w, IndexOf(EvalSelf(a, d, st, a[e].offset)));
    assert Resize(s, w, false) == s;
  }

  lemma CastMeaning(a: Arena, d: Design, st: Store, e: nat, arg: nat)
    requires e < |a| && arg < e && a[e] == SysFunc(Signed, [arg]) && ShapeOf(a, d, arg).width >= 1
    ensures EvalSelf(a, d, st, e) == EvalSelf(a, d, st, arg)
  {
    var v := EvalSelf(a, d, st, arg);
    assert Resize(v, |v|, true) == v;
  }

  /** Binding the packed actual to the slot and reading it back gives the caller's own element, for
      every index list, in every state. */
  lemma {:induction false} PassByValue(d: Design, caller: Store, callee: Store, net: nat, slot: nat, info: NetInfo,
                                       af: Formal, idx: seq<Option<nat>>)
    requires WellDeclared(info) && ShapeOk(info, af) && NonNegative(info.desc, info.unpackedN)
    requires NetShape(d, net).width == info.width && net in caller.cells && |caller.cells[net]| == info.arrayLen
    requires ReadWord(d, callee, slot, Some(0)) == Pack(NetWords(d, caller, net, af.count))
    requires |idx| == |af.dims| && Words32(idx)
    ensures Sized(SlotDims(af.dims, af.elemW))
    ensures FormalElement(af, ReadWord(d, callee, slot, Some(0)), idx)
         == ReadWord(d, caller, net, FlatWord(DeclaredDims(info.desc[..info.unpackedN]), [], idx))
  {
    hide FlatWord, Pack, Product, SelectBits;
    CopyByIndex(info, af, NetWords(d, caller, net, af.count), idx);
  }
}
