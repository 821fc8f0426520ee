/** The implicit read set of a frame body (IEEE 1800-2017 section 9.4.2.2): the walk that collects it,
    and its completeness for every run of the body, whatever the operators mean. */
module ReadSet {
  import opened Wrappers
  import opened Ir

  datatype Chunk = Chunk(net: nat, word: Option<nat>, offset: Option<nat>, width: Option<nat>, kind: SelKind)

  datatype Stmt =
    | BlockingAssign(lhs: seq<Chunk>, rhs: nat)
    | NonblockingAssign(lhs: seq<Chunk>, rhs: nat, delay: Option<nat>)
    | SysTask(which: nat, fmt: Option<nat>, args: seq<nat>)
    | Disable(target: nat)
    | Force(lhs: seq<Chunk>, rhs: nat)
    | Release(lhs: seq<Chunk>)

  datatype Terminator =
    | Goto(target: nat)
    | Branch(cond: nat, thenBb: nat, elseBb: nat)
    | TaskCall(task: nat, inBinds: seq<nat>, outBinds: seq<seq<Chunk>>, back: nat)
    | Suspend(cause: nat)
    | Return

  datatype Block = Block(stmts: seq<Stmt>, term: Terminator)

  // ---- the collected sets ----

  function OptionReads(a: Arena, e: Option<nat>, bound: nat): set<nat>
    requires bound <= |a| && (e.Some? ==> e.value < bound)
    decreases bound, 0, 0
  {
    if e.Some? then Reads(a, e.value) else {}
  }

  /** Every net an expression reads, array words and select offsets included. */
  function Reads(a: Arena, e: nat): set<nat>
    requires e < |a|
    decreases e, 1, 0
  {
    match a[e]
    case Const(_, _) => {}
    case Signal(net, word) => {net} + OptionReads(a, word, e)
    case Select(base, offset, width, _) => Reads(a, base) + Reads(a, offset) + Reads(a, width)
    case Concat(parts) => ListReads(a, parts, e)
    case Replicate(count, value) => Reads(a, count) + Reads(a, value)
    case Unary(_, operand) => Reads(a, operand)
    case Binary(_, lhs, rhs) => Reads(a, lhs) + Reads(a, rhs)
    case Ternary(cond, thenE, elseE) => Reads(a, cond) + Reads(a, thenE) + Reads(a, elseE)
    case SysFunc(_, args) => ListReads(a, args, e)
    case Call(_, args) => ListReads(a, args, e)
    case ArrayItem(_, _, _) => {}
  }

  function ListReads(a: Arena, es: seq<nat>, bound: nat): set<nat>
    requires bound <= |a| && Below(es, bound)
    decreases bound, 0, |es|
  {
    if es == [] then {} else Reads(a, es[0]) + ListReads(a, es[1..], bound)
  }

  /** The frame functions an expression calls, in evaluation order. */
  function Calls(a: Arena, e: nat): seq<nat>
    requires e < |a|
    decreases e, 1, 0
  {
    match a[e]
    case Const(_, _) => []
    case Signal(_, word) => if word.Some? then Calls(a, word.value) else []
    case Select(base, offset, width, _) => Calls(a, base) + Calls(a, offset) + Calls(a, width)
    case Concat(parts) => ListCalls(a, parts, e)
    case Replicate(count, value) => Calls(a, count) + Calls(a, value)
    case Unary(_, operand) => Calls(a, operand)
    case Binary(_, lhs, rhs) => Calls(a, lhs) + Calls(a, rhs)
    case Ternary(cond, thenE, elseE) => Calls(a, cond) + Calls(a, thenE) + Calls(a, elseE)
    case SysFunc(_, args) => ListCalls(a, args, e)
    case Call(func, args) => [func] + ListCalls(a, args, e)
    case ArrayItem(_, _, _) => []
  }

  function ListCalls(a: Arena, es: seq<nat>, bound: nat): seq<nat>
    requires bound <= |a| && Below(es, bound)
    decreases bound, 0, |es|
  {
    if es == [] then [] else Calls(a, es[0]) + ListCalls(a, es[1..], bound)
  }

  predicate OptionBelow(e: Option<nat>, bound: nat) { e.Some? ==> e.value < bound }

  predicate ChunksBelow(lhs: seq<Chunk>, bound: nat) {
    forall k :: 0 <= k < |lhs| ==>
      OptionBelow(lhs[k].word, bound) && OptionBelow(lhs[k].offset, bound) && OptionBelow(lhs[k].width, bound)
  }

  predicate StmtBelow(s: Stmt, bound: nat) {
    match s
    case BlockingAssign(lhs, rhs) => ChunksBelow(lhs, bound) && rhs < bound
    case NonblockingAssign(lhs, rhs, delay) => ChunksBelow(lhs, bound) && rhs < bound && OptionBelow(delay, bound)
    case SysTask(_, fmt, args) => OptionBelow(fmt, bound) && Below(args, bound)
    case Disable(_) => true
    case Force(lhs, rhs) => ChunksBelow(lhs, bound) && rhs < bound
    case Release(lhs) => ChunksBelow(lhs, bound)
  }

  predicate TermBelow(t: Terminator, bound: nat) {
    match t
    case Branch(cond, _, _) => cond < bound
    case TaskCall(_, inBinds, outBinds, _) =>
      Below(inBinds, bound) && forall k :: 0 <= k < |outBinds| ==> ChunksBelow(outBinds[k], bound)
    case _ => true
  }

  predicate StmtsBelow(stmts: seq<Stmt>, bound: nat) {
    forall k :: 0 <= k < |stmts| ==> StmtBelow(stmts[k], bound)
  }

  predicate BlockBelow(b: Block, bound: nat) {
    TermBelow(b.term, bound) && StmtsBelow(b.stmts, bound)
  }

  predicate BodyBelow(body: seq<Block>, bound: nat) {
    forall k :: 0 <= k < |body| ==> BlockBelow(body[k], bound)
  }

  function OptRoot(e: Option<nat>): seq<nat> { if e.Some? then [e.value] else [] }

  /** The index expressions of an lvalue: every chunk's word, offset and width. */
  function LvalRoots(lhs: seq<Chunk>): seq<nat> {
    if lhs == [] then []
    else OptRoot(lhs[0].word) + OptRoot(lhs[0].offset) + OptRoot(lhs[0].width) + LvalRoots(lhs[1..])
  }

  /** The expressions whose reads and calls are both collected. */
  function ValueRoots(s: Stmt): seq<nat> {
    match s
    case BlockingAssign(_, rhs) => [rhs]
    case NonblockingAssign(_, rhs, _) => [rhs]
    case SysTask(_, fmt, args) => OptRoot(fmt) + args
    case Disable(_) => []
    case Force(_, rhs) => [rhs]
    case Release(_) => []
  }

  function StmtLhs(s: Stmt): seq<Chunk> {
    match s
    case BlockingAssign(lhs, _) => lhs
    case NonblockingAssign(lhs, _, _) => lhs
    case Force(lhs, _) => lhs
    case Release(lhs) => lhs
    case _ => []
  }

  function ListsRoots(lvals: seq<seq<Chunk>>): seq<nat> {
    if lvals == [] then [] else LvalRoots(lvals[0]) + ListsRoots(lvals[1..])
  }

  lemma {:induction false} LvalRootsBelow(lhs: seq<Chunk>, bound: nat)
    requires ChunksBelow(lhs, bound)
    ensures Below(LvalRoots(lhs), bound)
  {
    if lhs != [] { LvalRootsBelow(lhs[1..], bound); }
  }

  lemma {:induction false} ListsRootsBelow(lvals: seq<seq<Chunk>>, bound: nat)
    requires forall k :: 0 <= k < |lvals| ==> ChunksBelow(lvals[k], bound)
    ensures Below(ListsRoots(lvals), bound)
  {
    if lvals != [] {
      LvalRootsBelow(lvals[0], bound);
      ListsRootsBelow(lvals[1..], bound);
    }
  }

  function StmtReads(a: Arena, s: Stmt): set<nat>
    requires StmtBelow(s, |a|)
  {
    LvalRootsBelow(StmtLhs(s), |a|);
    ListReads(a, LvalRoots(StmtLhs(s)), |a|) + ListReads(a, ValueRoots(s), |a|)
  }

  function StmtCalls(a: Arena, s: Stmt): seq<nat>
    requires StmtBelow(s, |a|)
  {
    ListCalls(a, ValueRoots(s), |a|)
  }

  /** The reads of a frame task call's binds. */
  function BindReads(a: Arena, t: Terminator): set<nat>
    requires TermBelow(t, |a|)
  {
    if t.TaskCall? then
      ListsRootsBelow(t.outBinds, |a|);
      ListReads(a, t.inBinds, |a|) + ListReads(a, ListsRoots(t.outBinds), |a|)
    else {}
  }

  function StmtsReads(a: Arena, stmts: seq<Stmt>): set<nat>
    requires StmtsBelow(stmts, |a|)
  {
    if stmts == [] then {} else StmtsReads(a, stmts[..|stmts| - 1]) + StmtReads(a, stmts[|stmts| - 1])
  }

  function StmtsCalls(a: Arena, stmts: seq<Stmt>): seq<nat>
    requires StmtsBelow(stmts, |a|)
  {
    if stmts == [] then [] else StmtsCalls(a, stmts[..|stmts| - 1]) + StmtCalls(a, stmts[|stmts| - 1])
  }

  function BlockReads(a: Arena, b: Block): set<nat>
    requires BlockBelow(b, |a|)
  {
    StmtsReads(a, b.stmts) + if b.term.Branch? then Reads(a, b.term.cond) else {}
  }

  function BlockCalls(a: Arena, b: Block): seq<nat>
    requires BlockBelow(b, |a|)
  {
    StmtsCalls(a, b.stmts) + if b.term.Branch? then Calls(a, b.term.cond) else []
  }

  function BindCalls(a: Arena, t: Terminator): seq<nat>
    requires TermBelow(t, |a|)
  {
    if t.TaskCall? then ListCalls(a, t.inBinds, |a|) else []
  }

  /** What the walk records of one block and its task call. */
  function RecordedCalls(a: Arena, b: Block): seq<nat>
    requires BlockBelow(b, |a|)
  {
    BlockCalls(a, b) + BindCalls(a, b.term)
  }

  function BodyCalls(a: Arena, body: seq<Block>): seq<nat>
    requires BodyBelow(body, |a|)
  {
    if body == [] then [] else BodyCalls(a, body[..|body| - 1]) + RecordedCalls(a, body[|body| - 1])
  }

  function BodyReads(a: Arena, body: seq<Block>): set<nat>
    requires BodyBelow(body, |a|)
  {
    if body == [] then {}
    else
      var b := body[|body| - 1];
      BodyReads(a, body[..|body| - 1]) + BlockReads(a, b) + BindReads(a, b.term)
  }

  // ---- the walk ----

  class Collector {
    var nets: set<nat>
    var calls: seq<nat>

    constructor ()
      ensures nets == {} && calls == []
    {
      nets, calls := {}, [];
    }

    /** Insert every net `e` reads and append every function it calls. */
    method CollectExprReadsCalls(a: Arena, e: nat)
      requires e < |a|
      modifies this
      ensures nets == old(nets) + Reads(a, e)
      ensures calls == old(calls) + Calls(a, e)
      decreases e, 1, 0
    {
      hide ListReads, ListCalls;
      match a[e]
      case Const(_, _) =>
      case Signal(net, word) =>
        nets := nets + {net};
        if word.Some? { CollectExprReadsCalls(a, word.value); }
      case Select(base, offset, width, _) => CollectThree(a, base, offset, width, e);
      case Concat(parts) => CollectList(a, parts, e);
      case Replicate(count, value) => CollectTwo(a, count, value, e);
      case Unary(_, operand) => CollectExprReadsCalls(a, operand);
      case Binary(_, lhs, rhs) => CollectTwo(a, lhs, rhs, e);
      case Ternary(cond, thenE, elseE) => CollectThree(a, cond, thenE, elseE, e);
      case SysFunc(_, args) => CollectList(a, args, e);
      case Call(func, args) =>
        calls := calls + [func];
        CollectList(a, args, e);
      case ArrayItem(_, _, _) =>
    }

    method CollectTwo(a: Arena, p: nat, q: nat, bound: nat)
      requires p < bound && q < bound <= |a|
      modifies this
      ensures nets == old(nets) + (Reads(a, p) + Reads(a, q))
      ensures calls == old(calls) + (Calls(a, p) + Calls(a, q))
      decreases bound, 0, 0
    {
      hide Reads, Calls;
      CollectExprReadsCalls(a, p);
      CollectExprReadsCalls(a, q);
    }

    method CollectThree(a: Arena, p: nat, q: nat, r: nat, bound: nat)
      requires p < bound && q < bound && r < bound <= |a|
      modifies this
      ensures nets == old(nets) + (Reads(a, p) + Reads(a, q) + Reads(a, r))
      ensures calls == old(calls) + (Calls(a, p) + Calls(a, q) + Calls(a, r))
      decreases bound, 0, 0
    {
      hide Reads, Calls;
      CollectExprReadsCalls(a, p);
      CollectExprReadsCalls(a, q);
      CollectExprReadsCalls(a, r);
    }

    method CollectList(a: Arena, es: seq<nat>, bound: nat)
      requires bound <= |a| && Below(es, bound)
      modifies this
      ensures nets == old(nets) + ListReads(a, es, bound)
      ensures calls == old(calls) + ListCalls(a, es, bound)
      decreases bound, 0, |es|
    {
      if es != [] {
        CollectExprReadsCalls(a, es[0]);
        CollectList(a, es[1..], bound);
      }
    }

    /** The reads of one optional index expression, dropping the functions it calls. */
    method CollectIndexReads(a: Arena, e: Option<nat>)
      requires OptionBelow(e, |a|)
      modifies this`nets
      ensures nets == old(nets) + ListReads(a, OptRoot(e), |a|)
    {
      if e.Some? {
        var scratch := new Collector();
        scratch.CollectExprReadsCalls(a, e.value);
        nets := nets + scratch.nets;
      }
    }

    /** The reads of an lvalue's index expressions; the functions they call are not recorded. */
    method CollectLvalReads(a: Arena, lhs: seq<Chunk>)
      requires ChunksBelow(lhs, |a|)
      modifies this`nets
      ensures Below(LvalRoots(lhs), |a|)
      ensures nets == old(nets) + ListReads(a, LvalRoots(lhs), |a|)
    {
      LvalRootsBelow(lhs, |a|);
      if lhs != [] {
        CollectIndexReads(a, lhs[0].word);
        CollectIndexReads(a, lhs[0].offset);
        CollectIndexReads(a, lhs[0].width);
        CollectLvalReads(a, lhs[1..]);
        LvalReadsStep(a, lhs);
      }
    }

    /** The reads and calls of one statement. */
    method CollectStmtReads(a: Arena, s: Stmt)
      requires StmtBelow(s, |a|)
      modifies this
      ensures nets == old(nets) + StmtReads(a, s)
      ensures calls == old(calls) + StmtCalls(a, s)
    {
      CollectLvalReads(a, StmtLhs(s));
      CollectList(a, ValueRoots(s), |a|);
    }

    method CollectStmts(a: Arena, stmts: seq<Stmt>)
      requires StmtsBelow(stmts, |a|)
      modifies this
      ensures nets == old(nets) + StmtsReads(a, stmts)
      ensures calls == old(calls) + StmtsCalls(a, stmts)
    {
      hide StmtReads, StmtCalls, StmtBelow;
      ghost var n0, c0 := nets, calls;
      var k := 0;
      assert stmts[..0] == [];
      while k < |stmts|
        invariant 0 <= k <= |stmts|
        invariant nets == n0 + StmtsReads(a, stmts[..k])
        invariant calls == c0 + StmtsCalls(a, stmts[..k])
      {
        assert stmts[..k + 1][..k] == stmts[..k] && stmts[..k + 1][k] == stmts[k];
        CollectStmtReads(a, stmts[k]);
        k := k + 1;
      }
      assert stmts[..|stmts|] == stmts;
    }

    /** The reads of one basic block: its statements and its branch condition. */
    method CollectBlockReads(a: Arena, b: Block)
      requires BlockBelow(b, |a|)
      modifies this
      ensures nets == old(nets) + BlockReads(a, b)
      ensures calls == old(calls) + BlockCalls(a, b)
    {
      hide Reads, Calls, StmtsReads, StmtsCalls, StmtsBelow;
      CollectStmts(a, b.stmts);
      if b.term.Branch? { CollectExprReadsCalls(a, b.term.cond); }
    }

    /** The binds of a frame task call: the arguments, then the index expressions of the targets. */
    method CollectBindReads(a: Arena, t: Terminator)
      requires TermBelow(t, |a|)
      modifies this
      ensures nets == old(nets) + BindReads(a, t)
      ensures calls == old(calls) + BindCalls(a, t)
    {
      if t.TaskCall? {
        CollectList(a, t.inBinds, |a|);
        CollectLvals(a, t.outBinds);
      }
    }

    method CollectLvals(a: Arena, lvals: seq<seq<Chunk>>)
      requires forall k :: 0 <= k < |lvals| ==> ChunksBelow(lvals[k], |a|)
      modifies this`nets
      ensures Below(ListsRoots(lvals), |a|)
      ensures nets == old(nets) + ListReads(a, ListsRoots(lvals), |a|)
    {
      ListsRootsBelow(lvals, |a|);
      if lvals != [] {
        CollectLvalReads(a, lvals[0]);
        CollectLvals(a, lvals[1..]);
        ListReadsAppend(a, LvalRoots(lvals[0]), ListsRoots(lvals[1..]));
      }
    }

    /** The cause of an in-body `@(*)`: every net some block of the body reads. */
    method FrameStarReadSet(a: Arena, body: seq<Block>) returns (r: set<nat>)
      requires BodyBelow(body, |a|)
      requires nets == {}
      modifies this
      ensures r == BodyReads(a, body) && calls == old(calls) + BodyCalls(a, body)
    {
      hide BlockReads, BindReads, BlockCalls, BindCalls, StmtsBelow, TermBelow;
      ghost var c0 := calls;
      var k := 0;
      assert body[..0] == [];
      while k < |body|
        invariant 0 <= k <= |body| && nets == BodyReads(a, body[..k])
        invariant calls == c0 + BodyCalls(a, body[..k])
      {
        assert body[..k + 1][..k] == body[..k];
        CollectBlockReads(a, body[k]);
        CollectBindReads(a, body[k].term);
        k := k + 1;
      }
      assert body[..|body|] == body;
      r := nets;
    }
  }

  lemma {:induction false} ListReadsAppend(a: Arena, x: seq<nat>, y: seq<nat>)
    requires Below(x, |a|) && Below(y, |a|)
    ensures Below(x + y, |a|) && ListReads(a, x + y, |a|) == ListReads(a, x, |a|) + ListReads(a, y, |a|)
  {
    if x == [] {
      assert x + y == y;
    } else {
      assert (x + y)[1..] == x[1..] + y;
      ListReadsAppend(a, x[1..], y);
    }
  }

  lemma {:induction false} LvalReadsStep(a: Arena, lhs: seq<Chunk>)
    requires ChunksBelow(lhs, |a|) && lhs != [] && Below(LvalRoots(lhs), |a|) && Below(LvalRoots(lhs[1..]), |a|)
    ensures ListReads(a, LvalRoots(lhs), |a|)
         == ListReads(a, OptRoot(lhs[0].word), |a|) + ListReads(a, OptRoot(lhs[0].offset), |a|)
            + ListReads(a, OptRoot(lhs[0].width), |a|) + ListReads(a, LvalRoots(lhs[1..]), |a|)
  {
    var w, o, d := OptRoot(lhs[0].word), OptRoot(lhs[0].offset), OptRoot(lhs[0].width);
    ListReadsAppend(a, w, o);
    ListReadsAppend(a, w + o, d);
    ListReadsAppend(a, w + o + d, LvalRoots(lhs[1..]));
  }
}
