/** Completeness of the collected read set: two runs of a body that agree on it are the same run,
    whatever the operators, system calls and frame functions compute. */
module ReadRuns {
  import opened Bits
  import opened Wrappers
  import opened Ir
  import opened ReadSet

  type Cells = map<nat, seq<Vec>>

  /** Where an expression stands, which is what fixes its context. */
  datatype Site = AtNode(e: nat, context: nat) | AtStmt(s: Stmt) | AtTerm(t: Terminator)

  /** What the engine makes of every node, statement and callee. `step` stands for time and for the
      random streams; a callee sees the whole store; an effect on a net sees that net and the values
      the statement evaluated. */
  datatype Sem = Sem(
    context: (Site, nat) -> nat,
    signal: (nat, nat, Option<seq<Vec>>, seq<Vec>, nat) -> Vec,
    call: (nat, nat, seq<Vec>, Cells, nat) -> Vec,
    node: (nat, nat, seq<Vec>, nat) -> Vec,
    truth: Vec -> bool,
    effect: (Site, seq<Vec>, nat, nat, seq<Vec>) -> seq<Vec>,
    task: (nat, seq<Vec>, Cells, nat) -> (Cells, seq<Vec>))

  datatype Event =
    | Ran(s: Stmt, values: seq<Vec>)
    | Branched(value: Vec)
    | Entered(task: nat, args: seq<Vec>)
    | Left(task: nat, outs: seq<Vec>, indexes: seq<Vec>)

  datatype State = State(pc: Option<nat>, cells: Cells, trace: seq<Event>)

  function Content(x: Cells, n: nat): Option<seq<Vec>> {
    if n in x then Some(x[n]) else None
  }

  ghost predicate Agree(R: set<nat>, x: Cells, y: Cells) {
    forall n: nat :: n in R ==> Content(x, n) == Content(y, n)
  }

  // ---- evaluation ----

  function Operands(x: Expr): seq<nat> {
    match x
    case Const(_, _) => []
    case Signal(_, word) => OptRoot(word)
    case Select(base, offset, width, _) => [base, offset, width]
    case Concat(parts) => parts
    case Replicate(count, value) => [count, value]
    case Unary(_, operand) => [operand]
    case Binary(_, lhs, rhs) => [lhs, rhs]
    case Ternary(cond, thenE, elseE) => [cond, thenE, elseE]
    case SysFunc(_, args) => args
    case Call(_, args) => args
    case ArrayItem(_, _, _) => []
  }

  function Value(sem: Sem, a: Arena, x: Cells, step: nat, e: nat, context: nat): Vec
    requires e < |a|
    decreases e, 1, 0
  {
    var vs := Values(sem, a, x, step, Operands(a[e]), e, AtNode(e, context));
    match a[e]
    case Signal(net, _) => sem.signal(net, context, Content(x, net), vs, step)
    case Call(f, _) => sem.call(f, context, vs, x, step)
    case _ => sem.node(e, context, vs, step)
  }

  function Values(sem: Sem, a: Arena, x: Cells, step: nat, es: seq<nat>, bound: nat, at: Site): (vs: seq<Vec>)
    requires bound <= |a| && Below(es, bound)
    ensures |vs| == |es|
    decreases bound, 0, |es|
  {
    if es == [] then []
    else [Value(sem, a, x, step, es[0], sem.context(at, |es|))] + Values(sem, a, x, step, es[1..], bound, at)
  }

  /** A frame function that depends on its arguments and, beyond them, on nets of `R` only. */
  ghost predicate FuncWithin(sem: Sem, f: nat, R: set<nat>) {
    forall c: nat, args: seq<Vec>, x: Cells, y: Cells, step: nat ::
      Agree(R, x, y) ==> sem.call(f, c, args, x, step) == sem.call(f, c, args, y, step)
  }

  ghost predicate AllWithin(sem: Sem, fs: seq<nat>, R: set<nat>) {
    forall f :: f in fs ==> FuncWithin(sem, f, R)
  }

  /** The net a node reads itself. */
  function OwnNet(x: Expr): set<nat> { if x.Signal? then {x.net} else {} }

  function OwnCall(x: Expr): seq<nat> { if x.Call? then [x.func] else [] }

  lemma {:induction false} NodeReads(a: Arena, e: nat)
    requires e < |a|
    ensures Reads(a, e) == OwnNet(a[e]) + ListReads(a, Operands(a[e]), e)
    ensures Calls(a, e) == OwnCall(a[e]) + ListCalls(a, Operands(a[e]), e)
  {
    var es := Operands(a[e]);
    if a[e].Select? || a[e].Ternary? {
      ListOfThree(a, es[0], es[1], es[2], e);
    } else if a[e].Replicate? || a[e].Binary? {
      ListOfTwo(a, es[0], es[1], e);
    }
  }

  lemma {:induction false} ListOfTwo(a: Arena, p: nat, q: nat, bound: nat)
    requires bound <= |a| && p < bound && q < bound
    ensures ListReads(a, [p, q], bound) == Reads(a, p) + Reads(a, q)
    ensures ListCalls(a, [p, q], bound) == Calls(a, p) + Calls(a, q)
  {
    assert [p, q][1..] == [q] && [q][1..] == [];
    assert ListReads(a, [q], bound) == Reads(a, q);
    assert ListCalls(a, [q], bound) == Calls(a, q) + ListCalls(a, [], bound) == Calls(a, q);
  }

  lemma {:induction false} ListOfThree(a: Arena, p: nat, q: nat, r: nat, bound: nat)
    requires bound <= |a| && p < bound && q < bound && r < bound
    ensures ListReads(a, [p, q, r], bound) == Reads(a, p) + Reads(a, q) + Reads(a, r)
    ensures ListCalls(a, [p, q, r], bound) == Calls(a, p) + Calls(a, q) + Calls(a, r)
  {
    assert [p, q, r][1..] == [q, r];
    ListOfTwo(a, q, r, bound);
  }

  /** States agreeing on an expression's reads give it the same value. */
  lemma {:induction false} ValueAgrees(sem: Sem, a: Arena, x: Cells, y: Cells, step: nat, e: nat, c: nat, R: set<nat>)
    requires e < |a| && Reads(a, e) <= R && Agree(R, x, y) && AllWithin(sem, Calls(a, e), R)
    ensures Value(sem, a, x, step, e, c) == Value(sem, a, y, step, e, c)
    decreases e, 1, 0
  {
    hide Reads, Calls, ListReads, ListCalls, Values;
    NodeReads(a, e);
    assert AllWithin(sem, ListCalls(a, Operands(a[e]), e), R);
    ValuesAgree(sem, a, x, y, step, Operands(a[e]), e, AtNode(e, c), R);
    if a[e].Call? { assert FuncWithin(sem, a[e].func, R); }
  }

  lemma {:induction false} ValuesAgree(sem: Sem, a: Arena, x: Cells, y: Cells, step: nat, es: seq<nat>, bound: nat,
                                       at: Site, R: set<nat>)
    requires bound <= |a| && Below(es, bound) && ListReads(a, es, bound) <= R && Agree(R, x, y)
    requires AllWithin(sem, ListCalls(a, es, bound), R)
    ensures Values(sem, a, x, step, es, bound, at) == Values(sem, a, y, step, es, bound, at)
    decreases bound, 0, |es|
  {
    hide Reads, Calls, Value;
    if es != [] {
      assert AllWithin(sem, Calls(a, es[0]), R) && AllWithin(sem, ListCalls(a, es[1..], bound), R);
      ValueAgrees(sem, a, x, y, step, es[0], sem.context(at, |es|), R);
      ValuesAgree(sem, a, x, y, step, es[1..], bound, at, R);
    }
  }

  // ---- the read set is no larger than it must be ----

  /** Some meaning of the operators, with frame functions that see their arguments only, tells apart
      two stores that differ in net `n` alone. */
  ghost predicate Matters(a: Arena, e: nat, n: nat)
    requires e < |a|
  {
    exists sem: Sem, x: Cells, y: Cells, step: nat, c: nat ::
      AllWithin(sem, Calls(a, e), {}) && x - {n} == y - {n}
      && Value(sem, a, x, step, e, c) != Value(sem, a, y, step, e, c)
  }

  const MARK: seq<Vec> := [[B1]]

  function Glow(vs: seq<Vec>): Vec { if [B1] in vs then [B1] else [B0] }

  /** The meaning that lights a node up when net `n` holds the mark and the node depends on it. */
  function Tracer(n: nat): Sem {
    Sem((_, _) => 0,
        (net, _, content, vs, _) => if net == n && content == Some(MARK) then [B1] else Glow(vs),
        (_, _, vs, _, _) => Glow(vs),
        (_, _, vs, _) => Glow(vs),
        _ => true,
        (_, _, _, _, was) => was,
        (_, _, x, _) => (x, []))
  }

  lemma {:induction false} TracerValue(a: Arena, x: Cells, step: nat, e: nat, c: nat, n: nat)
    requires e < |a|
    ensures Value(Tracer(n), a, x, step, e, c)
         == if Content(x, n) == Some(MARK) && n in Reads(a, e) then [B1] else [B0]
    decreases e, 1, 0
  {
    hide Reads, Calls, ListReads, ListCalls, Values;
    NodeReads(a, e);
    TracerValues(a, x, step, Operands(a[e]), e, AtNode(e, c), n);
  }

  lemma {:induction false} TracerValues(a: Arena, x: Cells, step: nat, es: seq<nat>, bound: nat, at: Site, n: nat)
    requires bound <= |a| && Below(es, bound)
    ensures ([B1] in Values(Tracer(n), a, x, step, es, bound, at))
        <==> Content(x, n) == Some(MARK) && n in ListReads(a, es, bound)
    decreases bound, 0, |es|
  {
    hide Reads, Value;
    if es != [] {
      TracerValue(a, x, step, es[0], 0, n);
      TracerValues(a, x, step, es[1..], bound, at, n);
    }
  }

  lemma TracerWithin(n: nat, fs: seq<nat>, R: set<nat>)
    ensures AllWithin(Tracer(n), fs, R)
  {
  }

  /** The collected reads of an expression are exactly the nets its value can depend on. */
  lemma {:induction false} ReadsExact(a: Arena, e: nat, n: nat)
    requires e < |a|
    ensures n in Reads(a, e) <==> Matters(a, e, n)
  {
    hide Reads, Value, Calls;
    if n in Reads(a, e) {
      var x: Cells, y: Cells := map[n := MARK], map[];
      TracerValue(a, x, 0, e, 0, n);
      TracerValue(a, y, 0, e, 0, n);
      TracerWithin(n, Calls(a, e), {});
      assert x - {n} == y - {n};
    } else if Matters(a, e, n) {
      var sem: Sem, x: Cells, y: Cells, step: nat, c: nat :|
        AllWithin(sem, Calls(a, e), {}) && x - {n} == y - {n}
        && Value(sem, a, x, step, e, c) != Value(sem, a, y, step, e, c);
      SameElsewhere(x, y, n, Reads(a, e));
      WithinMore(sem, Calls(a, e), {}, Reads(a, e));
      ValueAgrees(sem, a, x, y, step, e, c, Reads(a, e));
    }
  }

  lemma SameElsewhere(x: Cells, y: Cells, n: nat, R: set<nat>)
    requires x - {n} == y - {n} && n !in R
    ensures Agree(R, x, y)
  {
    forall k: nat | k in R ensures Content(x, k) == Content(y, k) {
      assert k in x <==> k in x - {n};
      assert k in y <==> k in y - {n};
      if k in x { assert (x - {n})[k] == (y - {n})[k]; }
    }
  }

  lemma WithinMore(sem: Sem, fs: seq<nat>, R: set<nat>, Q: set<nat>)
    requires AllWithin(sem, fs, R) && R <= Q
    ensures AllWithin(sem, fs, Q)
  {
    forall f | f in fs ensures FuncWithin(sem, f, Q) {
      forall c: nat, args: seq<Vec>, x: Cells, y: Cells, step: nat | Agree(Q, x, y)
        ensures sem.call(f, c, args, x, step) == sem.call(f, c, args, y, step)
      {
        assert FuncWithin(sem, f, R) && Agree(R, x, y);
      }
    }
  }

  // ---- statements ----

  function DelayRoots(s: Stmt): seq<nat> {
    if s.NonblockingAssign? then OptRoot(s.delay) else []
  }

  /** Every expression the engine evaluates when it runs the statement. */
  function StmtRoots(s: Stmt): seq<nat> {
    LvalRoots(StmtLhs(s)) + ValueRoots(s) + DelayRoots(s)
  }

  lemma {:induction false} StmtRootsBelow(s: Stmt, bound: nat)
    requires StmtBelow(s, bound)
    ensures Below(LvalRoots(StmtLhs(s)), bound) && Below(ValueRoots(s), bound) && Below(DelayRoots(s), bound)
    ensures Below(StmtRoots(s), bound)
  {
    LvalRootsBelow(StmtLhs(s), bound);
  }

  function StmtValues(sem: Sem, a: Arena, x: Cells, step: nat, s: Stmt): seq<Vec>
    requires StmtBelow(s, |a|)
  {
    StmtRootsBelow(s, |a|);
    Values(sem, a, x, step, StmtRoots(s), |a|, AtStmt(s))
  }

  /** Every function the statement calls, those in its index expressions included. */
  function StmtAllCalls(a: Arena, s: Stmt): seq<nat>
    requires StmtBelow(s, |a|)
  {
    StmtRootsBelow(s, |a|);
    ListCalls(a, StmtRoots(s), |a|)
  }

  function DelayReads(a: Arena, s: Stmt): set<nat>
    requires StmtBelow(s, |a|)
  {
    ListReads(a, DelayRoots(s), |a|)
  }

  lemma {:induction false} StmtRootReads(a: Arena, s: Stmt)
    requires StmtBelow(s, |a|)
    ensures Below(StmtRoots(s), |a|)
    ensures ListReads(a, StmtRoots(s), |a|) == StmtReads(a, s) + DelayReads(a, s)
  {
    hide ListReads, LvalRoots, ValueRoots;
    StmtRootsBelow(s, |a|);
    ListReadsAppend(a, LvalRoots(StmtLhs(s)), ValueRoots(s));
    ListReadsAppend(a, LvalRoots(StmtLhs(s)) + ValueRoots(s), DelayRoots(s));
  }

  lemma {:induction false} StmtAgrees(sem: Sem, a: Arena, x: Cells, y: Cells, step: nat, s: Stmt, R: set<nat>)
    requires StmtBelow(s, |a|) && StmtReads(a, s) + DelayReads(a, s) <= R && Agree(R, x, y)
    requires AllWithin(sem, StmtAllCalls(a, s), R)
    ensures StmtValues(sem, a, x, step, s) == StmtValues(sem, a, y, step, s)
  {
    hide ListReads, ListCalls, Values, StmtReads, DelayReads, StmtRoots, StmtBelow, AllWithin, Agree;
    StmtRootReads(a, s);
    ValuesAgree(sem, a, x, y, step, StmtRoots(s), |a|, AtStmt(s), R);
  }

  /** The collected reads decide everything the statement evaluates. */
  ghost predicate StmtComplete(a: Arena, s: Stmt)
    requires StmtBelow(s, |a|)
  {
    forall sem: Sem, x: Cells, y: Cells, step: nat ::
      AllWithin(sem, StmtAllCalls(a, s), StmtReads(a, s)) && Agree(StmtReads(a, s), x, y) ==>
        StmtValues(sem, a, x, step, s) == StmtValues(sem, a, y, step, s)
  }

  /** The one thing the walk leaves out is the delay of a nonblocking assignment. */
  lemma {:induction false} StmtCompleteExactly(a: Arena, s: Stmt)
    requires StmtBelow(s, |a|)
    ensures StmtComplete(a, s) <==> DelayReads(a, s) <= StmtReads(a, s)
  {
    hide StmtReads, DelayReads, StmtAllCalls, StmtValues, StmtBelow, AllWithin, Agree;
    var R := StmtReads(a, s);
    if DelayReads(a, s) <= R {
      forall sem: Sem, x: Cells, y: Cells, step: nat | AllWithin(sem, StmtAllCalls(a, s), R) && Agree(R, x, y)
        ensures StmtValues(sem, a, x, step, s) == StmtValues(sem, a, y, step, s)
      {
        StmtAgrees(sem, a, x, y, step, s, R);
      }
    } else {
      var n :| n in DelayReads(a, s) && n !in R;
      DelayShows(a, s, n);
    }
  }

  lemma {:induction false} DelayShows(a: Arena, s: Stmt, n: nat)
    requires StmtBelow(s, |a|) && n in DelayReads(a, s) && n !in StmtReads(a, s)
    ensures !StmtComplete(a, s)
  {
    hide ListReads, ListCalls, Values, StmtReads, DelayReads, StmtRoots, StmtBelow, AllWithin, Agree;
    var x: Cells, y: Cells := map[n := MARK], map[];
    StmtRootReads(a, s);
    TracerValues(a, x, 0, StmtRoots(s), |a|, AtStmt(s), n);
    TracerValues(a, y, 0, StmtRoots(s), |a|, AtStmt(s), n);
    TracerWithin(n, StmtAllCalls(a, s), StmtReads(a, s));
    assert x - {n} == y - {n};
    SameElsewhere(x, y, n, StmtReads(a, s));
    assert StmtValues(Tracer(n), a, x, 0, s) != StmtValues(Tracer(n), a, y, 0, s);
  }

  // ---- what the recorded calls leave out ----

  lemma {:induction false} ListCallsAppend(a: Arena, x: seq<nat>, y: seq<nat>)
    requires Below(x, |a|) && Below(y, |a|)
    ensures Below(x + y, |a|) && ListCalls(a, x + y, |a|) == ListCalls(a, x, |a|) + ListCalls(a, y, |a|)
  {
    hide Calls;
    if x == [] {
      assert x + y == y;
    } else {
      assert (x + y)[1..] == x[1..] + y;
      ListCallsAppend(a, x[1..], y);
      assert ListCalls(a, x + y, |a|) == Calls(a, x[0]) + ListCalls(a, x[1..] + y, |a|);
    }
  }

  /** The functions called where the walk does not record: in a target's indexes, and in a delay. */
  function UnrecordedCalls(a: Arena, s: Stmt): seq<nat>
    requires StmtBelow(s, |a|)
  {
    StmtRootsBelow(s, |a|);
    ListCalls(a, LvalRoots(StmtLhs(s)), |a|) + ListCalls(a, DelayRoots(s), |a|)
  }

  /** Node `n` calls `f`, and stands under node `e`. */
  predicate CalledUnder(a: Arena, e: nat, n: nat, f: nat)
    requires e < |a|
    decreases e
  {
    if n == e then a[e].Call? && a[e].func == f
    else exists k: nat :: k < |Operands(a[e])| && CalledUnder(a, Operands(a[e])[k], n, f)
  }

  /** Some call of `f` stands under one of the roots. */
  ghost predicate CalledBelow(a: Arena, roots: seq<nat>, f: nat)
    requires Below(roots, |a|)
  {
    exists k: nat, n: nat :: k < |roots| && CalledUnder(a, roots[k], n, f)
  }

  lemma {:induction false} UnderCalls(a: Arena, e: nat, f: nat)
    requires e < |a|
    ensures f in Calls(a, e) <==> exists n: nat :: CalledUnder(a, e, n, f)
    decreases e, 1, 0
  {
    hide Calls, ListCalls;
    NodeReads(a, e);
    BelowCalls(a, Operands(a[e]), e, f);
    if f in Calls(a, e) {
      if f in OwnCall(a[e]) {
        assert CalledUnder(a, e, e, f);
      } else {
        var k: nat, n: nat :| k < |Operands(a[e])| && CalledUnder(a, Operands(a[e])[k], n, f);
        UnderIsBelow(a, Operands(a[e])[k], n, f);
        assert CalledUnder(a, e, n, f);
      }
    }
    if n: nat :| CalledUnder(a, e, n, f) {
      if n != e {
        var k: nat :| k < |Operands(a[e])| && CalledUnder(a, Operands(a[e])[k], n, f);
        assert CalledBelow(a, Operands(a[e]), f);
      }
    }
  }

  lemma OperandsAre(a: Arena, e: nat)
    requires e < |a|
    ensures Below(Operands(a[e]), e)
  {
  }

  lemma {:induction false} UnderIsBelow(a: Arena, e: nat, n: nat, f: nat)
    requires e < |a| && CalledUnder(a, e, n, f)
    ensures n <= e
    decreases e
  {
    hide Operands;
    OperandsAre(a, e);
    if n != e {
      var k: nat :| k < |Operands(a[e])| && CalledUnder(a, Operands(a[e])[k], n, f);
      UnderIsBelow(a, Operands(a[e])[k], n, f);
    }
  }

  lemma {:induction false} BelowCalls(a: Arena, es: seq<nat>, bound: nat, f: nat)
    requires bound <= |a| && Below(es, bound)
    ensures f in ListCalls(a, es, bound) <==> CalledBelow(a, es, f)
    decreases bound, 0, |es|
  {
    hide Calls, CalledUnder;
    if es != [] {
      UnderCalls(a, es[0], f);
      BelowCalls(a, es[1..], bound, f);
      BelowFirst(a, es, f);
    }
  }

  lemma BelowFirst(a: Arena, es: seq<nat>, f: nat)
    requires Below(es, |a|) && es != []
    ensures CalledBelow(a, es, f) <==> (exists n: nat :: CalledUnder(a, es[0], n, f)) || CalledBelow(a, es[1..], f)
  {
    hide CalledUnder;
    assert forall k: nat :: k < |es[1..]| ==> es[1..][k] == es[k + 1];
    if CalledBelow(a, es, f) {
      var k: nat, n: nat :| k < |es| && CalledUnder(a, es[k], n, f);
      if k > 0 { assert es[1..][k - 1] == es[k]; }
    }
    if n: nat :| CalledUnder(a, es[0], n, f) {
      var k: nat := 0;
      assert CalledUnder(a, es[k], n, f);
    }
    if CalledBelow(a, es[1..], f) {
      var k: nat, n: nat :| k < |es[1..]| && CalledUnder(a, es[1..][k], n, f);
      var j := k + 1;
      assert j < |es| && CalledUnder(a, es[j], n, f);
    }
  }

  predicate Among(fs: seq<nat>, gs: seq<nat>) { forall f :: f in fs ==> f in gs }

  lemma {:induction false} AllCallsAre(a: Arena, s: Stmt, f: nat)
    requires StmtBelow(s, |a|)
    ensures f in StmtAllCalls(a, s) <==> f in StmtCalls(a, s) || f in UnrecordedCalls(a, s)
  {
    hide ListCalls, LvalRoots, ValueRoots, DelayRoots;
    StmtRootsBelow(s, |a|);
    ListCallsAppend(a, LvalRoots(StmtLhs(s)), ValueRoots(s));
    ListCallsAppend(a, LvalRoots(StmtLhs(s)) + ValueRoots(s), DelayRoots(s));
  }

  /** The index expressions of the target, and the delay. */
  function IndexRoots(s: Stmt): seq<nat> { LvalRoots(StmtLhs(s)) + DelayRoots(s) }

  /** The recorded calls of a statement are all it makes exactly when every function with a call node below an index
      of the target, or below the delay, has one below the statement's values too. */
  lemma {:induction false} StmtCallsExactly(a: Arena, s: Stmt)
    requires StmtBelow(s, |a|)
    ensures Below(IndexRoots(s), |a|) && Below(ValueRoots(s), |a|)
    ensures Among(StmtAllCalls(a, s), StmtCalls(a, s))
       <==> forall f: nat :: CalledBelow(a, IndexRoots(s), f) ==> CalledBelow(a, ValueRoots(s), f)
  {
    hide StmtAllCalls, UnrecordedCalls, StmtBelow, LvalRoots, DelayRoots, ValueRoots, CalledBelow;
    StmtRootsBelow(s, |a|);
    forall f: nat
      ensures f in StmtAllCalls(a, s) <==> f in StmtCalls(a, s) || CalledBelow(a, IndexRoots(s), f)
      ensures f in StmtCalls(a, s) <==> CalledBelow(a, ValueRoots(s), f)
    {
      AllCallsAre(a, s, f);
      UnrecordedAre(a, s, f);
      BelowCalls(a, ValueRoots(s), |a|, f);
    }
  }

  lemma {:induction false} UnrecordedAre(a: Arena, s: Stmt, f: nat)
    requires StmtBelow(s, |a|)
    ensures Below(IndexRoots(s), |a|) && (f in UnrecordedCalls(a, s) <==> CalledBelow(a, IndexRoots(s), f))
  {
    hide ListCalls, LvalRoots, DelayRoots, CalledBelow;
    StmtRootsBelow(s, |a|);
    ListCallsAppend(a, LvalRoots(StmtLhs(s)), DelayRoots(s));
    BelowCalls(a, IndexRoots(s), |a|, f);
  }

  function TermCalls(a: Arena, t: Terminator): seq<nat>
    requires TermBelow(t, |a|)
  {
    match t
    case Branch(cond, _, _) => Calls(a, cond)
    case TaskCall(_, inBinds, outBinds, _) =>
      ListsRootsBelow(outBinds, |a|);
      ListCalls(a, inBinds, |a|) + ListCalls(a, ListsRoots(outBinds), |a|)
    case _ => []
  }

  predicate CallsInBody(a: Arena, body: seq<Block>, f: nat)
    requires BodyBelow(body, |a|)
  {
    exists k :: 0 <= k < |body| && CallsInBlock(a, body[k], f)
  }

  predicate CallsInBlock(a: Arena, b: Block, f: nat)
    requires BlockBelow(b, |a|)
  {
    f in TermCalls(a, b.term) || exists j :: 0 <= j < |b.stmts| && f in StmtAllCalls(a, b.stmts[j])
  }

  /** Called below an index of a target, below a delay, or below an index a task's result is written to. */
  ghost predicate UnrecordedInBlock(a: Arena, b: Block, f: nat)
    requires BlockBelow(b, |a|)
  {
    OutBindCalled(a, b.term, f) || exists j :: 0 <= j < |b.stmts| && IndexCalled(a, b.stmts[j], f)
  }

  ghost predicate IndexCalled(a: Arena, s: Stmt, f: nat)
    requires StmtBelow(s, |a|)
  {
    StmtRootsBelow(s, |a|);
    CalledBelow(a, IndexRoots(s), f)
  }

  ghost predicate OutBindCalled(a: Arena, t: Terminator, f: nat)
    requires TermBelow(t, |a|)
  {
    t.TaskCall? && (ListsRootsBelow(t.outBinds, |a|); CalledBelow(a, ListsRoots(t.outBinds), f))
  }

  function OutBindCalls(a: Arena, t: Terminator): seq<nat>
    requires TermBelow(t, |a|)
  {
    if t.TaskCall? then
      ListsRootsBelow(t.outBinds, |a|);
      ListCalls(a, ListsRoots(t.outBinds), |a|)
    else []
  }

  lemma {:induction false} OutBindCallsAre(a: Arena, t: Terminator, f: nat)
    requires TermBelow(t, |a|)
    ensures f in OutBindCalls(a, t) <==> OutBindCalled(a, t, f)
  {
    hide ListCalls, ListsRoots, CalledBelow;
    if t.TaskCall? {
      ListsRootsBelow(t.outBinds, |a|);
      BelowCalls(a, ListsRoots(t.outBinds), |a|, f);
    }
  }

  lemma {:induction false} StmtsCallsHold(a: Arena, stmts: seq<Stmt>, f: nat)
    requires StmtsBelow(stmts, |a|)
    ensures f in StmtsCalls(a, stmts) <==> exists j :: 0 <= j < |stmts| && f in StmtCalls(a, stmts[j])
  {
    hide StmtCalls, StmtBelow;
    if stmts != [] {
      var front := stmts[..|stmts| - 1];
      StmtsCallsHold(a, front, f);
      if j :| 0 <= j < |front| && f in StmtCalls(a, front[j]) { assert f in StmtCalls(a, stmts[j]); }
      if j :| 0 <= j < |stmts| && f in StmtCalls(a, stmts[j]) {
        if j < |front| { assert f in StmtCalls(a, front[j]); }
      }
    }
  }

  lemma {:induction false} BlockCallsAre(a: Arena, b: Block, f: nat)
    requires BlockBelow(b, |a|)
    ensures CallsInBlock(a, b, f) <==> f in RecordedCalls(a, b) || UnrecordedInBlock(a, b, f)
  {
    hide StmtCalls, StmtAllCalls, UnrecordedCalls, StmtBelow, StmtsCalls, Calls, ListCalls, ListsRoots, CalledBelow;
    StmtsCallsHold(a, b.stmts, f);
    forall j | 0 <= j < |b.stmts|
      ensures f in StmtAllCalls(a, b.stmts[j]) <==> f in StmtCalls(a, b.stmts[j]) || IndexCalled(a, b.stmts[j], f)
    {
      AllCallsAre(a, b.stmts[j], f);
      UnrecordedAre(a, b.stmts[j], f);
    }
    OutBindCallsAre(a, b.term, f);
    TermCallsSplit(a, b.term, f);
  }

  lemma TermCallsSplit(a: Arena, t: Terminator, f: nat)
    requires TermBelow(t, |a|)
    ensures f in TermCalls(a, t) <==>
      (t.Branch? && f in Calls(a, t.cond)) || f in BindCalls(a, t) || f in OutBindCalls(a, t)
  {
  }

  lemma {:induction false} BodyCallsHold(a: Arena, body: seq<Block>, f: nat)
    requires BodyBelow(body, |a|)
    ensures f in BodyCalls(a, body)
       <==> exists k :: 0 <= k < |body| && f in RecordedCalls(a, body[k])
  {
    hide RecordedCalls, BlockBelow;
    if body != [] {
      var front := body[..|body| - 1];
      BodyCallsHold(a, front, f);
      if k :| 0 <= k < |front| && f in RecordedCalls(a, front[k]) {
        assert f in RecordedCalls(a, body[k]);
      }
      if k :| 0 <= k < |body| && f in RecordedCalls(a, body[k]) {
        if k < |front| { assert f in RecordedCalls(a, front[k]); }
      }
    }
  }

  /** The recorded calls of a body are all it makes exactly when every function with a call node below a target's
      index, a delay or a task's write-back is recorded for some other place. */
  lemma {:induction false} BodyCallsExactly(a: Arena, body: seq<Block>)
    requires BodyBelow(body, |a|)
    ensures (forall f :: CallsInBody(a, body, f) ==> f in BodyCalls(a, body))
       <==> forall k, f :: 0 <= k < |body| && UnrecordedInBlock(a, body[k], f) ==> f in BodyCalls(a, body)
  {
    hide RecordedCalls, BlockBelow, CallsInBlock, UnrecordedInBlock, BodyCalls;
    forall k: nat, f: nat | k < |body|
      ensures CallsInBlock(a, body[k], f)
         <==> f in RecordedCalls(a, body[k]) || UnrecordedInBlock(a, body[k], f)
    {
      BlockCallsAre(a, body[k], f);
    }
    forall f: nat
      ensures f in BodyCalls(a, body)
         <==> exists k :: 0 <= k < |body| && f in RecordedCalls(a, body[k])
    {
      BodyCallsHold(a, body, f);
    }
  }

  /** A function called inside an index expression of a target is not among the recorded calls. */
  lemma IndexCallIsNotRecorded()
    ensures
      var a: Arena := [Call(7, []), Const([B1], false)];
      var s := BlockingAssign([Chunk(0, Some(0), None, None, PartConst)], 1);
      StmtBelow(s, |a|) && StmtCalls(a, s) == [] && StmtAllCalls(a, s) == [7]
  {
    var a: Arena := [Call(7, []), Const([B1], false)];
    var s := BlockingAssign([Chunk(0, Some(0), None, None, PartConst)], 1);
    assert LvalRoots(StmtLhs(s)) == [0] by { assert StmtLhs(s)[1..] == []; }
    StmtRootsBelow(s, |a|);
    assert StmtRoots(s) == [0, 1];
    ListOfTwo(a, 0, 1, 2);
    assert ListCalls(a, [], 0) == [];
    assert Calls(a, 0) == [7] && Calls(a, 1) == [];
    assert ValueRoots(s) == [1] && [1][1..] == [];
  }

  // ---- the collected sets, place by place ----

  predicate OptReads(a: Arena, e: Option<nat>, n: nat)
    requires OptionBelow(e, |a|)
  {
    e.Some? && n in Reads(a, e.value)
  }

  /** An index expression of some part of the target reads the net. */
  predicate IndexReads(a: Arena, lhs: seq<Chunk>, n: nat)
    requires ChunksBelow(lhs, |a|)
  {
    exists k :: 0 <= k < |lhs| && (OptReads(a, lhs[k].word, n) || OptReads(a, lhs[k].offset, n) || OptReads(a, lhs[k].width, n))
  }

  /** The value assigned, or the format or an argument printed, reads the net. */
  predicate ValueReads(a: Arena, s: Stmt, n: nat)
    requires StmtBelow(s, |a|)
  {
    match s
    case SysTask(_, fmt, args) => OptReads(a, fmt, n) || exists k :: 0 <= k < |args| && n in Reads(a, args[k])
    case BlockingAssign(_, rhs) => n in Reads(a, rhs)
    case NonblockingAssign(_, rhs, _) => n in Reads(a, rhs)
    case Force(_, rhs) => n in Reads(a, rhs)
    case _ => false
  }

  lemma {:induction false} ListReadsHold(a: Arena, es: seq<nat>, n: nat)
    requires Below(es, |a|)
    ensures n in ListReads(a, es, |a|) <==> exists k :: 0 <= k < |es| && n in Reads(a, es[k])
  {
    hide Reads;
    if es != [] {
      ListReadsHold(a, es[1..], n);
      assert forall k :: 0 < k < |es| ==> es[k] == es[1..][k - 1];
      if k :| 0 <= k < |es[1..]| && n in Reads(a, es[1..][k]) { assert n in Reads(a, es[k + 1]); }
    }
  }

  lemma OptReadsIs(a: Arena, e: Option<nat>, n: nat)
    requires OptionBelow(e, |a|)
    ensures Below(OptRoot(e), |a|) && (n in ListReads(a, OptRoot(e), |a|) <==> OptReads(a, e, n))
  {
    ListReadsHold(a, OptRoot(e), n);
    if e.Some? { assert OptRoot(e)[0] == e.value; }
  }

  lemma {:induction false} LvalReadsHold(a: Arena, lhs: seq<Chunk>, n: nat)
    requires ChunksBelow(lhs, |a|)
    ensures Below(LvalRoots(lhs), |a|) && (n in ListReads(a, LvalRoots(lhs), |a|) <==> IndexReads(a, lhs, n))
  {
    hide Reads, ListReads, OptReads;
    LvalRootsBelow(lhs, |a|);
    if lhs == [] {
      ListReadsHold(a, LvalRoots(lhs), n);
    } else {
      LvalRootsBelow(lhs[1..], |a|);
      LvalReadsHold(a, lhs[1..], n);
      LvalReadsStep(a, lhs);
      OptReadsIs(a, lhs[0].word, n);
      OptReadsIs(a, lhs[0].offset, n);
      OptReadsIs(a, lhs[0].width, n);
      IndexReadsStep(a, lhs, n);
    }
  }

  lemma IndexReadsStep(a: Arena, lhs: seq<Chunk>, n: nat)
    requires ChunksBelow(lhs, |a|) && lhs != []
    ensures IndexReads(a, lhs, n) <==>
      OptReads(a, lhs[0].word, n) || OptReads(a, lhs[0].offset, n) || OptReads(a, lhs[0].width, n)
      || IndexReads(a, lhs[1..], n)
  {
    hide OptReads;
    assert forall k :: 0 < k < |lhs| ==> lhs[k] == lhs[1..][k - 1];
    if IndexReads(a, lhs[1..], n) {
      var k :| 0 <= k < |lhs[1..]|
        && (OptReads(a, lhs[1..][k].word, n) || OptReads(a, lhs[1..][k].offset, n) || OptReads(a, lhs[1..][k].width, n));
      assert lhs[k + 1] == lhs[1..][k];
    }
  }

  /** A net is collected from a statement exactly when an index of its target or its value reads it. */
  lemma {:induction false} StmtReadsExactly(a: Arena, s: Stmt, n: nat)
    requires StmtBelow(s, |a|)
    ensures n in StmtReads(a, s) <==> IndexReads(a, StmtLhs(s), n) || ValueReads(a, s, n)
  {
    hide Reads, IndexReads, OptReads;
    StmtRootsBelow(s, |a|);
    LvalReadsHold(a, StmtLhs(s), n);
    ListReadsHold(a, ValueRoots(s), n);
    match s
    case SysTask(_, fmt, args) =>
      OptReadsIs(a, fmt, n);
      ListReadsHold(a, OptRoot(fmt), n);
      ListReadsHold(a, args, n);
      ListReadsAppend(a, OptRoot(fmt), args);
    case BlockingAssign(_, rhs) => assert ValueRoots(s)[0] == rhs;
    case NonblockingAssign(_, rhs, _) => assert ValueRoots(s)[0] == rhs;
    case Force(_, rhs) => assert ValueRoots(s)[0] == rhs;
    case _ =>
  }

  /** A branch condition, an argument of a task call, or an index its result is written to, reads the net. */
  predicate TermReads(a: Arena, t: Terminator, n: nat)
    requires TermBelow(t, |a|)
  {
    match t
    case Branch(cond, _, _) => n in Reads(a, cond)
    case TaskCall(_, inBinds, outBinds, _) =>
      (exists k :: 0 <= k < |inBinds| && n in Reads(a, inBinds[k]))
      || exists k :: 0 <= k < |outBinds| && IndexReads(a, outBinds[k], n)
    case _ => false
  }

  lemma {:induction false} ListsReadsHold(a: Arena, lvals: seq<seq<Chunk>>, n: nat)
    requires forall k :: 0 <= k < |lvals| ==> ChunksBelow(lvals[k], |a|)
    ensures Below(ListsRoots(lvals), |a|)
    ensures n in ListReads(a, ListsRoots(lvals), |a|) <==> exists k :: 0 <= k < |lvals| && IndexReads(a, lvals[k], n)
  {
    hide Reads, ListReads, IndexReads;
    ListsRootsBelow(lvals, |a|);
    if lvals == [] {
      ListReadsHold(a, ListsRoots(lvals), n);
    } else {
      LvalReadsHold(a, lvals[0], n);
      ListsReadsHold(a, lvals[1..], n);
      ListReadsAppend(a, LvalRoots(lvals[0]), ListsRoots(lvals[1..]));
      assert forall k :: 0 < k < |lvals| ==> lvals[k] == lvals[1..][k - 1];
      if k :| 0 <= k < |lvals[1..]| && IndexReads(a, lvals[1..][k], n) { assert IndexReads(a, lvals[k + 1], n); }
    }
  }

  predicate BlockHasRead(a: Arena, b: Block, n: nat)
    requires BlockBelow(b, |a|)
  {
    TermReads(a, b.term, n) || exists j :: 0 <= j < |b.stmts| && n in StmtReads(a, b.stmts[j])
  }

  lemma {:induction false} StmtsReadsHold(a: Arena, stmts: seq<Stmt>, n: nat)
    requires StmtsBelow(stmts, |a|)
    ensures n in StmtsReads(a, stmts) <==> exists j :: 0 <= j < |stmts| && n in StmtReads(a, stmts[j])
  {
    hide StmtReads, StmtBelow;
    if stmts != [] {
      var front := stmts[..|stmts| - 1];
      StmtsReadsHold(a, front, n);
      if j :| 0 <= j < |front| && n in StmtReads(a, front[j]) { assert n in StmtReads(a, stmts[j]); }
      if j :| 0 <= j < |stmts| && n in StmtReads(a, stmts[j]) {
        if j < |front| { assert n in StmtReads(a, front[j]); }
      }
    }
  }

  lemma {:induction false} BlockReadsHold(a: Arena, b: Block, n: nat)
    requires BlockBelow(b, |a|)
    ensures n in BlockReads(a, b) + BindReads(a, b.term) <==> BlockHasRead(a, b, n)
  {
    hide Reads, ListReads, IndexReads, StmtReads, StmtsReads, StmtBelow;
    StmtsReadsHold(a, b.stmts, n);
    if b.term.TaskCall? {
      ListReadsHold(a, b.term.inBinds, n);
      ListsReadsHold(a, b.term.outBinds, n);
    }
  }

  /** A net is in the collected set of a body exactly when a statement, a branch condition or a bind of some block
      reads it. */
  lemma {:induction false} BodyReadsExactly(a: Arena, body: seq<Block>, n: nat)
    requires BodyBelow(body, |a|)
    ensures n in BodyReads(a, body) <==> exists k :: 0 <= k < |body| && BlockHasRead(a, body[k], n)
  {
    hide BlockReads, BindReads, BlockBelow, BlockHasRead;
    if body != [] {
      var front, last := body[..|body| - 1], body[|body| - 1];
      BodyReadsExactly(a, front, n);
      BlockReadsHold(a, last, n);
      if k :| 0 <= k < |front| && BlockHasRead(a, front[k], n) { assert BlockHasRead(a, body[k], n); }
      if k :| 0 <= k < |body| && BlockHasRead(a, body[k], n) {
        if k < |front| { assert BlockHasRead(a, front[k], n); }
      }
    }
  }
}
