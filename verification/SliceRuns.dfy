/** Executing the element copies of an array assignment. The leading indices are evaluated again at every copy;
    the guard is what keeps them from moving while the target is being written. */
module SliceRuns {
  import opened Bits
  import opened Wrappers
  import opened Ir
  import opened RowMajor
  import opened Words
  import opened IndexSeal
  import opened Geometry
  import opened ArrayGeom
  import opened ArrayAssign
  import opened SliceCopy
  import opened EvalReads
  import AliasGuard
  import ReadSet

  // ---- execution ----

  function Execute(a: Arena, d: Design, st: Store, s: Stmt): Store
    requires s.tWord < |a| && s.sWord < |a|
  {
    var v := ReadWord(d, st, s.sNet, IndexOf(EvalSelf(a, d, st, s.sWord)));
    Store(StoreAt(st.cells, s.tNet, IndexOf(EvalSelf(a, d, st, s.tWord)), v), st.other)
  }

  function Run(a: Arena, d: Design, st: Store, stmts: seq<Stmt>, k: nat): Store
    requires k <= |stmts| && forall i :: 0 <= i < |stmts| ==> stmts[i].tWord < |a| && stmts[i].sWord < |a|
  {
    if k == 0 then st else Execute(a, d, Run(a, d, st, stmts, k - 1), stmts[k - 1])
  }

  /** The states that differ from `st` only in the words of `net`. */
  ghost predicate Elsewhere(st: Store, st': Store, net: nat) {
    st'.other == st.other && st'.cells.Keys == st.cells.Keys
    && forall n :: n in st.cells && n != net ==> st'.cells[n] == st.cells[n]
  }

  /** No write to the target's words moves the leading indices of either slice. */
  ghost predicate IndicesHold(a0: Arena, d: Design, st: Store, t: Slice, f: Slice)
    requires WellFormed(a0, d, t) && WellFormed(a0, d, f)
  {
    forall st': Store :: Elsewhere(st, st', t.net) ==>
      BaseIn(a0, d, st', t) == BaseIn(a0, d, st, t) && BaseIn(a0, d, st', f) == BaseIn(a0, d, st, f)
  }

  /** The copies an assignment performs, the bases as they are before the first one. */
  function CopyOf(a0: Arena, d: Design, st: Store, t: Slice, f: Slice): Copy
    requires WellFormed(a0, d, t) && WellFormed(a0, d, f)
  {
    Copy(t.net, BaseIn(a0, d, st, t), SliceOffsets(Rest(t), RestDesc(t)),
         f.net, BaseIn(a0, d, st, f), SliceOffsets(Rest(f), RestDesc(f)), NetShape(d, f.net).width)
  }

  predicate Emitted(a: Arena, stmts: seq<Stmt>) {
    forall i :: 0 <= i < |stmts| ==> stmts[i].tWord < |a| && stmts[i].sWord < |a|
  }

  lemma LoadIsRead(d: Design, st: Store, net: nat, at: Option<nat>)
    ensures ReadWord(d, st, net, at) == Load(st.cells, net, at, NetShape(d, net).width)
  {
  }

  lemma ExecuteMeans(a: Arena, d: Design, st: Store, mid: Store, s: Stmt, x: Option<nat>, y: Option<nat>)
    requires IsWord(a, d, mid, s.tWord, x) && IsWord(a, d, mid, s.sWord, y) && Elsewhere(st, mid, s.tNet)
    ensures Execute(a, d, mid, s)
         == Store(StoreAt(mid.cells, s.tNet, x, Load(mid.cells, s.sNet, y, NetShape(d, s.sNet).width)), mid.other)
    ensures Elsewhere(st, Execute(a, d, mid, s), s.tNet)
  {
    WordIndex(a, d, mid, s.tWord, x);
    WordIndex(a, d, mid, s.sWord, y);
    LoadIsRead(d, mid, s.sNet, y);
  }

  /** While the indices hold still, executing the emitted statements is copying in order. */
  lemma {:induction false} HeldRun(a0: Arena, a: Arena, d: Design, st: Store, stmts: seq<Stmt>, t: Slice, f: Slice, k: nat)
    requires WellFormed(a0, d, t) && WellFormed(a0, d, f) && SameSizes(Rest(t), Rest(f))
    requires Narrow(a0, d, t) && Narrow(a0, d, f)
    requires IndicesHold(a0, d, st, t, f) && Emitted(a, stmts) && k <= |stmts| == Product(Rest(t)) == Product(Rest(f))
    requires forall i :: 0 <= i < |stmts| ==>
               Names(a0, a, d, stmts[i], t, f, Residual(Rest(t), RestDesc(t), i), Residual(Rest(f), RestDesc(f), i))
    ensures Run(a, d, st, stmts, k) == Store(InOrder(CopyOf(a0, d, st, t, f), st.cells, k), st.other)
    ensures Elsewhere(st, Run(a, d, st, stmts, k), t.net)
  {
    hide IsWord, SliceBase, ElementAt, Product, Residual, StoreAt, Load, Narrow, Execute;
    if k != 0 {
      HeldRun(a0, a, d, st, stmts, t, f, k - 1);
      var mid := Run(a, d, st, stmts, k - 1);
      var s := stmts[k - 1];
      var c := CopyOf(a0, d, st, t, f);
      assert Names(a0, a, d, s, t, f, c.toffs[k - 1], c.soffs[k - 1]);
      ExecuteMeans(a, d, st, mid, s, ElementAt(c.tb, c.toffs[k - 1]), ElementAt(c.sb, c.soffs[k - 1]));
    }
  }

  // ---- indices that do not read the target ----

  /** No leading index of the slice reads the net. */
  predicate Untouched(a: Arena, d: Design, x: Slice, net: nat)
    requires WellFormed(a, d, x)
  {
    forall k :: 0 <= k < |x.lead| ==> net !in ReadSet.Reads(a, x.lead[k])
  }

  lemma ElsewhereAgrees(a: Arena, e: nat, st: Store, st': Store, net: nat)
    requires e < |a| && net !in ReadSet.Reads(a, e) && Elsewhere(st, st', net)
    ensures AgreeOn(ReadSet.Reads(a, e), st, st')
  {
    hide ReadSet.Reads;
    assert forall n: nat :: n in st.cells <==> n in st.cells.Keys;
    assert forall n: nat :: n in st'.cells <==> n in st'.cells.Keys;
  }

  lemma {:induction false} IndexHolds(a: Arena, d: Design, st: Store, st': Store, e: nat, net: nat, f: Facts,
                                      ext: seq<Dim>)
    requires e < |a| && net !in ReadSet.Reads(a, e) && Elsewhere(st, st', net)
    ensures Reading(a, d, st', ext, [], e, ArrayWord, f) == Reading(a, d, st, ext, [], e, ArrayWord, f)
  {
    hide ReadSet.Reads, Eval, AgreeOn, KeptRaw;
    ElsewhereAgrees(a, e, st, st', net);
    EvalSelfAgrees(a, d, st, st', e);
    EvalAgrees(a, d, st, st', e, ShapeOf(a, d, e).width, false);
    EvalAgrees(a, d, st, st', e, 32, false);
  }

  lemma {:induction false} SliceHolds(a: Arena, d: Design, st: Store, st': Store, x: Slice, net: nat)
    requires WellFormed(a, d, x) && Untouched(a, d, x, net) && Elsewhere(st, st', net)
    ensures BaseIn(a, d, st', x) == BaseIn(a, d, st, x)
  {
    hide Reading, FlatWord, ReadSet.Reads;
    forall k | 0 <= k < |x.lead| ensures LeadWords(a, d, st', x)[k] == LeadWords(a, d, st, x)[k] {
      IndexHolds(a, d, st, st', x.lead[k], net, x.facts[k], x.ext);
    }
    assert LeadWords(a, d, st', x) == LeadWords(a, d, st, x);
  }

  /** Indices that do not read the target hold still while it is written. */
  lemma {:induction false} UntouchedHolds(a0: Arena, d: Design, st: Store, t: Slice, f: Slice)
    requires WellFormed(a0, d, t) && WellFormed(a0, d, f)
    requires Untouched(a0, d, t, t.net) && Untouched(a0, d, f, t.net)
    ensures IndicesHold(a0, d, st, t, f)
  {
    hide BaseIn, Untouched, Elsewhere;
    forall st': Store | Elsewhere(st, st', t.net)
      ensures BaseIn(a0, d, st', t) == BaseIn(a0, d, st, t) && BaseIn(a0, d, st', f) == BaseIn(a0, d, st, f)
    {
      SliceHolds(a0, d, st, st', t, t.net);
      SliceHolds(a0, d, st, st', f, t.net);
    }
  }

  /** The lowered indices read what the source indices mention, and nothing else. */
  ghost predicate Lowered(a: Arena, d: Design, x: Slice)
    requires WellFormed(a, d, x)
  {
    |x.ast| == |x.lead|
    && forall k, n :: 0 <= k < |x.lead| && n in ReadSet.Reads(a, x.lead[k]) ==> AliasGuard.Mentions(x.ast[k], n)
  }

  /** What the guard passes does not read the target, unless the target is mentioned below a node of a kind the
      guard does not name. */
  lemma {:induction false} PassedIsUntouched(a: Arena, d: Design, t: Slice, f: Slice, x: Slice)
    requires WellFormed(a, d, x) && Lowered(a, d, x) && !GuardRefuses(t, f) && (x == t || x == f)
    requires forall k :: 0 <= k < |x.ast| ==> !AliasGuard.Hidden(x.ast[k], t.net)
    ensures Untouched(a, d, x, t.net)
  {
    hide ReadSet.Reads, AliasGuard.Mentions, AliasGuard.ReadsNet, AliasGuard.Hidden;
    forall k | 0 <= k < |x.lead| ensures t.net !in ReadSet.Reads(a, x.lead[k]) {
      assert x.ast[k] in t.ast + f.ast;
      AliasGuard.MentionsAre(x.ast[k], t.net);
    }
  }

  /** When no leading index reads the target, executing the emitted statements is copying in order. */
  lemma {:induction false} RunIsInOrder(a0: Arena, a: Arena, d: Design, st: Store, stmts: seq<Stmt>, t: Slice, f: Slice, k: nat)
    requires WellFormed(a0, d, t) && WellFormed(a0, d, f) && SameSizes(Rest(t), Rest(f))
    requires Narrow(a0, d, t) && Narrow(a0, d, f)
    requires Untouched(a0, d, t, t.net) && Untouched(a0, d, f, t.net)
    requires Emitted(a, stmts) && k <= |stmts| == Product(Rest(t)) == Product(Rest(f))
    requires forall i :: 0 <= i < |stmts| ==>
               Names(a0, a, d, stmts[i], t, f, Residual(Rest(t), RestDesc(t), i), Residual(Rest(f), RestDesc(f), i))
    ensures Run(a, d, st, stmts, k) == Store(InOrder(CopyOf(a0, d, st, t, f), st.cells, k), st.other)
  {
    UntouchedHolds(a0, d, st, t, f);
    HeldRun(a0, a, d, st, stmts, t, f, k);
  }

  /** The element-by-element expansion leaves the store that evaluating the whole source first and
      then assigning leaves (IEEE 1800-2017 section 7.6), whenever no leading index reads the target. */
  lemma {:induction false} ElementWiseIsWhole(a0: Arena, a: Arena, d: Design, st: Store, stmts: seq<Stmt>, t: Slice, f: Slice)
    requires WellFormed(a0, d, t) && WellFormed(a0, d, f) && SameSizes(Rest(t), Rest(f))
    requires Narrow(a0, d, t) && Narrow(a0, d, f)
    requires Untouched(a0, d, t, t.net) && Untouched(a0, d, f, t.net)
    requires Emitted(a, stmts) && |stmts| == Product(Rest(t)) == Product(Rest(f))
    requires forall i :: 0 <= i < |stmts| ==>
               Names(a0, a, d, stmts[i], t, f, Residual(Rest(t), RestDesc(t), i), Residual(Rest(f), RestDesc(f), i))
    requires t.net == f.net ==> t.ext == f.ext && t.desc == f.desc && AllRepresentable(t.ext, [])
    requires t.net == f.net && t.net in st.cells ==> |st.cells[t.net]| == Product(t.ext)
    ensures Run(a, d, st, stmts, |stmts|)
         == Store(AllAtOnce(CopyOf(a0, d, st, t, f), st.cells, |stmts|), st.other)
  {
    hide IsWord, SliceBase, ElementAt, Product, Residual;
    var c := CopyOf(a0, d, st, t, f);
    RunIsInOrder(a0, a, d, st, stmts, t, f, |stmts|);
    if t.net == f.net {
      assert |t.lead| == |f.lead|;
      LeadWordsAreWords(a0, d, st, t);
      LeadWordsAreWords(a0, d, st, f);
      SlicesUntangled(c, st.cells, t.ext, RestDesc(t), LeadWords(a0, d, st, t), LeadWords(a0, d, st, f));
    }
    InOrderIsAllAtOnce(c, st.cells, |stmts|);
  }

  lemma LeadWordsAreWords(a: Arena, d: Design, st: Store, x: Slice)
    requires WellFormed(a, d, x) && Narrow(a, d, x)
    ensures Words32(LeadWords(a, d, st, x))
  {
    hide AddressWord, LoneWord, SealsNarrow;
    forall k | 0 <= k < |x.lead| ensures WordValue(LeadWords(a, d, st, x)[k]) {
      NarrowAt(a, d, x.lead, ArrayWord, x.facts, k);
      ReadingIsWord(a, d, st, x.ext, [], x.lead[k], ArrayWord, x.facts[k]);
    }
  }

  // ---- an accepted assignment ----

  /** Both sides name one array alike, and it has the length of its declaration. */
  predicate SameArray(st: Store, t: Slice, f: Slice)
    requires |t.lead| <= |t.ext| && Sized(t.ext)
  {
    t.net == f.net ==>
      t.ext == f.ext && t.desc == f.desc && AllRepresentable(t.ext, [])
      && (t.net in st.cells ==> |st.cells[t.net]| == Product(t.ext))
  }

  ghost predicate NamedAll(a0: Arena, a: Arena, d: Design, stmts: seq<Stmt>, t: Slice, f: Slice)
    requires WellFormed(a0, d, t) && WellFormed(a0, d, f)
  {
    |stmts| == Product(Rest(t)) == Product(Rest(f))
    && forall i :: 0 <= i < |stmts| ==>
         Names(a0, a, d, stmts[i], t, f, Residual(Rest(t), RestDesc(t), i), Residual(Rest(f), RestDesc(f), i))
  }

  /** An assignment the elaborator accepts leaves what assigning the whole source value leaves, when every mention of
      the target in an index stands where the guard looks. Nothing here is asked of the store but that the array has
      its declared length. */
  lemma {:induction false} AcceptedIsWhole(a0: Arena, a: Arena, d: Design, st: Store, stmts: seq<Stmt>, t: Slice, f: Slice)
    requires WellFormed(a0, d, t) && WellFormed(a0, d, f) && Refused(t, f, false, None).None?
    requires Narrow(a0, d, t) && Narrow(a0, d, f)
    requires Lowered(a0, d, t) && Lowered(a0, d, f)
    requires forall k :: 0 <= k < |t.ast| ==> !AliasGuard.Hidden(t.ast[k], t.net)
    requires forall k :: 0 <= k < |f.ast| ==> !AliasGuard.Hidden(f.ast[k], t.net)
    requires Emitted(a, stmts) && NamedAll(a0, a, d, stmts, t, f) && SameArray(st, t, f)
    ensures Run(a, d, st, stmts, |stmts|)
         == Store(AllAtOnce(CopyOf(a0, d, st, t, f), st.cells, |stmts|), st.other)
  {
    hide Names, Narrow, Lowered, Untouched, GuardRefuses, AliasGuard.Hidden;
    PassedIsUntouched(a0, d, t, f, t);
    PassedIsUntouched(a0, d, t, f, f);
    ElementWiseIsWhole(a0, a, d, st, stmts, t, f);
  }

  // ---- nonblocking copies ----

  /** A write held back: place and value are those of the moment it is scheduled. */
  datatype Pending = Pending(net: nat, at: Option<nat>, v: Vec)

  function Schedule(a: Arena, d: Design, st: Store, s: Stmt): Pending
    requires s.tWord < |a| && s.sWord < |a|
  {
    Pending(s.tNet, IndexOf(EvalSelf(a, d, st, s.tWord)), ReadWord(d, st, s.sNet, IndexOf(EvalSelf(a, d, st, s.sWord))))
  }

  /** The first `k` statements, scheduled and then applied in that order. */
  function Deferred(a: Arena, d: Design, st: Store, stmts: seq<Stmt>, k: nat): Cells
    requires k <= |stmts| && Emitted(a, stmts)
  {
    if k == 0 then st.cells
    else
      var p := Schedule(a, d, st, stmts[k - 1]);
      StoreAt(Deferred(a, d, st, stmts, k - 1), p.net, p.at, p.v)
  }

  /** Nonblocking copies are a whole assignment whatever the indices read. */
  lemma {:induction false} DeferredIsWhole(a0: Arena, a: Arena, d: Design, st: Store, stmts: seq<Stmt>, t: Slice, f: Slice, k: nat)
    requires WellFormed(a0, d, t) && WellFormed(a0, d, f) && Narrow(a0, d, t) && Narrow(a0, d, f)
    requires Emitted(a, stmts) && NamedAll(a0, a, d, stmts, t, f) && k <= |stmts|
    ensures Deferred(a, d, st, stmts, k) == AllAtOnce(CopyOf(a0, d, st, t, f), st.cells, k)
  {
    hide Narrow, BaseIn, Residual, IsWord, Schedule, StoreAt, Load, WellFormed;
    if k > 0 {
      DeferredIsWhole(a0, a, d, st, stmts, t, f, k - 1);
      var s, c := stmts[k - 1], CopyOf(a0, d, st, t, f);
      assert Names(a0, a, d, s, t, f, c.toffs[k - 1], c.soffs[k - 1]);
      ScheduleMeans(a, d, st, s, ElementAt(c.tb, c.toffs[k - 1]), ElementAt(c.sb, c.soffs[k - 1]));
    }
  }

  lemma ScheduleMeans(a: Arena, d: Design, st: Store, s: Stmt, x: Option<nat>, y: Option<nat>)
    requires IsWord(a, d, st, s.tWord, x) && IsWord(a, d, st, s.sWord, y)
    ensures Schedule(a, d, st, s) == Pending(s.tNet, x, Load(st.cells, s.sNet, y, NetShape(d, s.sNet).width))
  {
    hide Eval;
    WordIndex(a, d, st, s.tWord, x);
    WordIndex(a, d, st, s.sWord, y);
    LoadIsRead(d, st, s.sNet, y);
  }
}
