/** The other way to the same address: each source index is lowered when its turn comes, between the nodes of the
    address itself. */
module FlattenSource {
  import opened Bits
  import opened Wrappers
  import opened Ir
  import opened RowMajor
  import opened Words
  import opened Emitter
  import opened IndexSeal
  import opened Geometry
  import opened ArrayGeom

  /** Lowering one source index: given the arena so far, the nodes it appends and the node it yields. */
  type Lowering = Arena -> (seq<Expr>, nat)

  /** It appends nodes only, and yields one of at least a bit. */
  ghost predicate Appends(l: Lowering, d: Design) {
    forall a: Arena :: PostOrder(a + l(a).0) && l(a).1 < |a + l(a).0| && ShapeOf(a + l(a).0, d, l(a).1).width >= 1
  }

  /** Wherever it is lowered, the index seals to at most 32 bits and the address reads it as `word`. */
  ghost predicate Lowers(l: Lowering, d: Design, ext: seq<Dim>, ascending: seq<bool>, domain: IndexDomain, f: Facts,
                         word: Store -> Option<nat>)
    requires Appends(l, d)
  {
    forall a: Arena :: LowersAt(a, l, d, ext, ascending, domain, f, word)
  }

  ghost predicate LowersAt(a: Arena, l: Lowering, d: Design, ext: seq<Dim>, ascending: seq<bool>, domain: IndexDomain,
                           f: Facts, word: Store -> Option<nat>)
    requires Appends(l, d)
  {
    var b: Arena := a + l(a).0;
    SealsNarrow(ShapeOf(b, d, l(a).1), domain, f)
    && forall st: Store :: Reading(b, d, st, ext, ascending, l(a).1, domain, f) == word(st)
  }

  ghost predicate AllLower(ls: seq<Lowering>, d: Design, ext: seq<Dim>, ascending: seq<bool>, domain: IndexDomain,
                           facts: seq<Facts>, words: seq<Store -> Option<nat>>)
    requires |facts| == |ls| == |words| && forall k :: 0 <= k < |ls| ==> Appends(ls[k], d)
  {
    forall k :: 0 <= k < |ls| ==> Lowers(ls[k], d, ext, ascending, domain.At(k), facts[k], words[k])
  }

  function WordsIn(words: seq<Store -> Option<nat>>, st: Store): (v: seq<Option<nat>>)
    ensures |v| == |words|
  {
    seq(|words|, k requires 0 <= k < |words| => words[k](st))
  }

  method LowerIndex(el: Elaborator, l: Lowering) returns (id: nat)
    requires Appends(l, el.design)
    modifies el`exprs
    ensures el.exprs == old(el.exprs) + l(old(el.exprs)).0 && id == l(old(el.exprs)).1
    ensures Extends(old(el.exprs), el.exprs) && id < |el.exprs| && ShapeOf(el.exprs, el.design, id).width >= 1
  {
    var (nodes, e) := l(el.exprs);
    el.exprs := el.exprs + nodes;
    id := e;
  }

  /** One flat word expression for source indices, lowered on the way. In every store it selects `FlatWord` of what
      the address reads the lowered indices as. */
  method FlattenWord(el: Elaborator, ext: seq<Dim>, ls: seq<Lowering>, ascending: seq<bool>, domain: IndexDomain,
                     facts: seq<Facts>, ghost words: seq<Store -> Option<nat>>) returns (r: nat)
    requires Sized(ext) && |ls| <= |ext| && |facts| == |ls| == |words|
    requires forall k :: 0 <= k < |ls| ==> Appends(ls[k], el.design)
    modifies el
    ensures Extends(old(el.exprs), el.exprs) && r < |el.exprs|
    ensures el.errors == old(el.errors) + NegativeAscending(ext, ascending, |ls|)
    ensures AllLower(ls, el.design, ext, ascending, domain, facts, words) ==>
              forall st: Store :: FlatMeans(el.exprs, el.design, st, r, ext, ascending, WordsIn(words, st))
  {
    hide IsWord, Appends, AllLower, SealedAt, IndexWord, Reading, SealsNarrow, FlatState, FlatMeans, Lone, OwnSum, FlatWord;
    ghost var a0, d, good := el.exprs, el.design, AllLower(ls, el.design, ext, ascending, domain, facts, words);
    var strides := Strides(ext);
    var valid: Option<nat>, acc: Option<nat> := None, None;
    StartState(a0, d, ext, ascending);
    var k := 0;
    while k < |ls|
      invariant 0 <= k <= |ls| && Extends(a0, el.exprs)
      invariant Live(el.exprs, valid) && Live(el.exprs, acc)
      invariant el.errors == old(el.errors) + NegativeAscending(ext, ascending, k)
      invariant valid.Some? <==> |ext| >= 2 && k > 0
      invariant acc.Some? <==> k > 0
      invariant good ==> OwnSum(el.exprs, d, ext, ascending, acc) && forall st: Store ::
                  FlatState(el.exprs, d, st, ext, ascending, WordsIn(words, st), k, valid, acc)
    {
      ghost var a1 := el.exprs;
      var id := LowerIndex(el, ls[k]);
      StateExtends(a1, el.exprs, d, ext, ascending, valid, acc);
      if good { LoweredReads(a1, d, ls, ext, ascending, domain, facts, words, k); }
      valid, acc := AddIndex(el, ext, ascending, k, id, strides[k], domain.At(k), facts[k], valid, acc);
      k := k + 1;
    }
    r := FinishFlat(el, ext, ascending, |ls|, valid, acc);
  }

  lemma {:induction false} LoweredReads(a: Arena, d: Design, ls: seq<Lowering>, ext: seq<Dim>, ascending: seq<bool>,
                                        domain: IndexDomain, facts: seq<Facts>, words: seq<Store -> Option<nat>>, k: nat)
    requires |facts| == |ls| == |words| && (forall j :: 0 <= j < |ls| ==> Appends(ls[j], d)) && k < |ls|
    requires AllLower(ls, d, ext, ascending, domain, facts, words)
    ensures var b: Arena := a + ls[k](a).0;
      ls[k](a).1 < |b| && SealsNarrow(ShapeOf(b, d, ls[k](a).1), domain.At(k), facts[k])
      && forall st: Store :: Reading(b, d, st, ext, ascending, ls[k](a).1, domain.At(k), facts[k]) == WordsIn(words, st)[k]
  {
    hide Reading, SealsNarrow;
    assert Lowers(ls[k], d, ext, ascending, domain.At(k), facts[k], words[k]);
    assert LowersAt(a, ls[k], d, ext, ascending, domain.At(k), facts[k], words[k]);
  }

  /** The two ways side by side: source indices lowered on the way into one arena, and the same indices lowered
      before, in another. Wherever one is lowered, the address reads it as it reads the node it was lowered to before.
      Both select one word, in every store. */
  method BothWays(el: Elaborator, em: Elaborator, ext: seq<Dim>, ls: seq<Lowering>, idx: seq<nat>, ascending: seq<bool>,
                  domain: IndexDomain, facts: seq<Facts>) returns (r: nat, q: nat)
    requires el != em && el.design == em.design
    requires Sized(ext) && |ls| == |idx| == |facts| && |idx| <= |ext| && Below(idx, |em.exprs|)
    requires forall k :: 0 <= k < |ls| ==> Appends(ls[k], el.design)
    requires forall k :: 0 <= k < |idx| ==> ShapeOf(em.exprs, em.design, idx[k]).width >= 1
    requires AllNarrow(em.exprs, em.design, idx, domain, facts)
    requires AllLower(ls, el.design, ext, ascending, domain, facts,
                      IndexReadings(em.exprs, em.design, ext, ascending, idx, domain, facts))
    modifies el, em
    ensures r < |el.exprs| && q < |em.exprs|
    ensures forall st: Store ::
              IndexOf(EvalSelf(el.exprs, el.design, st, r)) == IndexOf(EvalSelf(em.exprs, el.design, st, q))
  {
    hide AllLower, AllNarrow, Reading, FlatWord, IsWord, Lone;
    ghost var b0, d := em.exprs, em.design;
    ghost var words := IndexReadings(b0, d, ext, ascending, idx, domain, facts);
    r := FlattenWord(el, ext, ls, ascending, domain, facts, words);
    q := FlattenWordEids(em, ext, idx, ascending, domain, facts);
    forall st: Store
      ensures IndexOf(EvalSelf(el.exprs, d, st, r)) == IndexOf(EvalSelf(em.exprs, d, st, q))
    {
      ReadingsAre(b0, d, st, ext, ascending, idx, domain, facts);
      assert FlatMeans(el.exprs, d, st, r, ext, ascending, WordsIn(words, st));
    }
  }

  /** What the address reads each index as, store by store. */
  ghost function IndexReadings(a: Arena, d: Design, ext: seq<Dim>, ascending: seq<bool>, idx: seq<nat>,
                               domain: IndexDomain, facts: seq<Facts>): (words: seq<Store -> Option<nat>>)
    requires Below(idx, |a|) && |facts| == |idx|
    ensures |words| == |idx|
  {
    seq(|idx|, k requires 0 <= k < |idx| => (st: Store) => Reading(a, d, st, ext, ascending, idx[k], domain.At(k), facts[k]))
  }

  lemma ReadingsAre(a: Arena, d: Design, st: Store, ext: seq<Dim>, ascending: seq<bool>, idx: seq<nat>,
                    domain: IndexDomain, facts: seq<Facts>)
    requires Below(idx, |a|) && |facts| == |idx|
    ensures WordsIn(IndexReadings(a, d, ext, ascending, idx, domain, facts), st)
         == Readings(a, d, st, ext, ascending, idx, domain, facts)
  {
    hide Reading;
  }

  /** A plain net as the source index: one node, whatever the arena. */
  function NetIndex(net: nat): Lowering { (a: Arena) => ([Signal(net, None)], |a|) }

  /** The number in a net, modulo 2^32. */
  function NetNumber(d: Design, st: Store, net: nat): Option<nat> {
    var v := ReadWord(d, st, net, Some(0));
    if Known(v) then Some(ToInt(v, NetShape(d, net).signed) % WORD) else None
  }

  /** Nets of any width and sign are such indices: lowered anywhere, the address reads each as its own number. */
  lemma {:induction false} NetsLower(d: Design, ext: seq<Dim>, ascending: seq<bool>, nets: seq<nat>, ls: seq<Lowering>,
                                     facts: seq<Facts>, words: seq<Store -> Option<nat>>)
    requires |facts| == |nets| == |ls| == |words|
    requires forall k :: 0 <= k < |nets| ==> ls[k] == NetIndex(nets[k]) && NetShape(d, nets[k]).width >= 1
    requires forall k, st: Store :: 0 <= k < |nets| ==> words[k](st) == NetNumber(d, st, nets[k])
    requires forall k :: 0 <= k < |nets| ==> facts[k].widthKnown && !facts[k].constant && facts[k].repeatable
    ensures forall k :: 0 <= k < |ls| ==> Appends(ls[k], d)
    ensures AllLower(ls, d, ext, ascending, ArrayWord, facts, words)
  {
    forall k | 0 <= k < |nets|
      ensures Appends(ls[k], d) && Lowers(ls[k], d, ext, ascending, ArrayWord, facts[k], words[k])
    {
      forall a: Arena
        ensures PostOrder(a + ls[k](a).0) && ls[k](a).1 < |a + ls[k](a).0| && ShapeOf(a + ls[k](a).0, d, ls[k](a).1).width >= 1
      {
        NetNode(a, d, nets[k]);
      }
      forall a: Arena ensures LowersAt(a, ls[k], d, ext, ascending, ArrayWord, facts[k], words[k]) {
        NetReads(a, d, ext, ascending, nets[k], facts[k], ls[k], words[k]);
      }
    }
  }

  lemma NetNode(a: Arena, d: Design, net: nat)
    ensures var b := a + [Signal(net, None)];
      PostOrder(b) && ShapeOf(b, d, |a|) == NetShape(d, net)
      && forall st: Store :: EvalSelf(b, d, st, |a|) == ReadWord(d, st, net, Some(0))
  {
  }

  lemma NetReads(a: Arena, d: Design, ext: seq<Dim>, ascending: seq<bool>, net: nat, f: Facts, l: Lowering,
                 word: Store -> Option<nat>)
    requires l == NetIndex(net) && NetShape(d, net).width >= 1 && f.widthKnown && !f.constant && f.repeatable
    requires forall st: Store :: word(st) == NetNumber(d, st, net)
    requires Appends(l, d)
    ensures LowersAt(a, l, d, ext, ascending, ArrayWord, f, word)
  {
    NetNode(a, d, net);
    var b: Arena := a + [Signal(net, None)];
    assert StableAt(b, d, |a|, ArrayWord, f);
    forall st: Store ensures Reading(b, d, st, ext, ascending, |a|, ArrayWord, f) == word(st) {
      StableReads(b, d, st, |a|, ArrayWord, f);
    }
  }
}
