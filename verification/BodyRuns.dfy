/** Runs of a frame body: two runs from stores that agree on the collected read set are the same run, exactly when
    no reachable block needs a net outside it. */
module BodyRuns {
  import opened Bits
  import opened Wrappers
  import opened Ir
  import opened ReadSet
  import opened ReadRuns
  import opened FrameReads

  // ---- runs ----

  /** The store after a statement or a call's write-back: each net from its own words and the values. */
  function After(sem: Sem, at: Site, values: seq<Vec>, step: nat, x: Cells): Cells {
    map n | n in x :: sem.effect(at, values, step, n, x[n])
  }

  lemma AfterAgrees(sem: Sem, at: Site, values: seq<Vec>, step: nat, x: Cells, y: Cells, R: set<nat>)
    requires Agree(R, x, y)
    ensures Agree(R, After(sem, at, values, step, x), After(sem, at, values, step, y))
  {
    forall n: nat | n in R
      ensures Content(After(sem, at, values, step, x), n) == Content(After(sem, at, values, step, y), n)
    {
      assert Content(x, n) == Content(y, n);
    }
  }

  function RunStmts(sem: Sem, a: Arena, stmts: seq<Stmt>, x: Cells, trace: seq<Event>): (Cells, seq<Event>)
    requires StmtsBelow(stmts, |a|)
  {
    if stmts == [] then (x, trace)
    else
      var vs := StmtValues(sem, a, x, |trace|, stmts[0]);
      RunStmts(sem, a, stmts[1..], After(sem, AtStmt(stmts[0]), vs, |trace|, x), trace + [Ran(stmts[0], vs)])
  }

  /** The terminator: a branch is decided, a task is entered, left and its results written back; any
      other terminator but a jump ends the run. */
  function RunTerm(sem: Sem, a: Arena, t: Terminator, x: Cells, trace: seq<Event>): State
    requires TermBelow(t, |a|)
  {
    match t
    case Goto(target) => State(Some(target), x, trace)
    case Branch(cond, thenBb, elseBb) =>
      var v := Value(sem, a, x, |trace|, cond, sem.context(AtTerm(t), 0));
      State(Some(if sem.truth(v) then thenBb else elseBb), x, trace + [Branched(v)])
    case TaskCall(task, inBinds, outBinds, back) =>
      ListsRootsBelow(outBinds, |a|);
      var args := Values(sem, a, x, |trace|, inBinds, |a|, AtTerm(t));
      var (mid, outs) := sem.task(task, args, x, |trace|);
      var indexes := Values(sem, a, mid, |trace|, ListsRoots(outBinds), |a|, AtTerm(t));
      State(Some(back), After(sem, AtTerm(t), outs + indexes, |trace|, mid),
            trace + [Entered(task, args), Left(task, outs, indexes)])
    case _ => State(None, x, trace)
  }

  /** One basic block. */
  function RunBlock(sem: Sem, a: Arena, body: seq<Block>, st: State): State
    requires BodyBelow(body, |a|)
  {
    if st.pc.None? || st.pc.value >= |body| then st
    else
      var b := body[st.pc.value];
      var (x, trace) := RunStmts(sem, a, b.stmts, st.cells, st.trace);
      RunTerm(sem, a, b.term, x, trace)
  }

  /** The first `n` blocks of a run from the start of the body. */
  function Run(sem: Sem, a: Arena, body: seq<Block>, x: Cells, n: nat): State
    requires BodyBelow(body, |a|)
  {
    if n == 0 then State(Some(0), x, []) else RunBlock(sem, a, body, Run(sem, a, body, x, n - 1))
  }

  predicate StmtCovered(a: Arena, s: Stmt, R: set<nat>)
    requires StmtBelow(s, |a|)
  {
    StmtReads(a, s) + DelayReads(a, s) <= R
  }

  ghost predicate StmtsFit(sem: Sem, a: Arena, stmts: seq<Stmt>, R: set<nat>)
    requires StmtsBelow(stmts, |a|)
  {
    forall k :: 0 <= k < |stmts| ==>
      StmtCovered(a, stmts[k], R) && AllWithin(sem, StmtAllCalls(a, stmts[k]), R)
  }

  ghost predicate TermFits(sem: Sem, a: Arena, t: Terminator, R: set<nat>)
    requires TermBelow(t, |a|)
  {
    match t
    case Branch(cond, _, _) => Reads(a, cond) <= R && AllWithin(sem, Calls(a, cond), R)
    case TaskCall(task, inBinds, outBinds, _) =>
      ListsRootsBelow(outBinds, |a|);
      ListReads(a, inBinds, |a|) <= R && AllWithin(sem, ListCalls(a, inBinds, |a|), R)
      && ListReads(a, ListsRoots(outBinds), |a|) <= R && TaskWithin(sem, task, R)
      && AllWithin(sem, ListCalls(a, ListsRoots(outBinds), |a|), R)
    case _ => true
  }

  lemma {:induction false} RunStmtsAgrees(sem: Sem, a: Arena, stmts: seq<Stmt>, x: Cells, y: Cells, trace: seq<Event>,
                                          R: set<nat>)
    requires StmtsBelow(stmts, |a|) && StmtsFit(sem, a, stmts, R) && Agree(R, x, y)
    ensures RunStmts(sem, a, stmts, x, trace).1 == RunStmts(sem, a, stmts, y, trace).1
    ensures Agree(R, RunStmts(sem, a, stmts, x, trace).0, RunStmts(sem, a, stmts, y, trace).0)
  {
    hide StmtReads, DelayReads, StmtAllCalls, StmtValues, StmtBelow, AllWithin, Agree, After;
    if stmts != [] {
      var s := stmts[0];
      assert StmtCovered(a, s, R);
      StmtAgrees(sem, a, x, y, |trace|, s, R);
      var vs := StmtValues(sem, a, x, |trace|, s);
      AfterAgrees(sem, AtStmt(s), vs, |trace|, x, y, R);
      assert StmtsFit(sem, a, stmts[1..], R);
      RunStmtsAgrees(sem, a, stmts[1..], After(sem, AtStmt(s), vs, |trace|, x), After(sem, AtStmt(s), vs, |trace|, y),
                     trace + [Ran(s, vs)], R);
    }
  }

  lemma {:induction false} RunTermAgrees(sem: Sem, a: Arena, t: Terminator, x: Cells, y: Cells, trace: seq<Event>,
                                         R: set<nat>)
    requires TermBelow(t, |a|) && TermFits(sem, a, t, R) && Agree(R, x, y)
    ensures RunTerm(sem, a, t, x, trace).trace == RunTerm(sem, a, t, y, trace).trace
    ensures RunTerm(sem, a, t, x, trace).pc == RunTerm(sem, a, t, y, trace).pc
    ensures Agree(R, RunTerm(sem, a, t, x, trace).cells, RunTerm(sem, a, t, y, trace).cells)
  {
    hide Reads, Calls, ListReads, ListCalls, Values, Value, AllWithin, Agree, After, ListsRoots, TaskWithin;
    match t
    case Branch(cond, _, _) =>
      ValueAgrees(sem, a, x, y, |trace|, cond, sem.context(AtTerm(t), 0), R);
    case TaskCall(task, inBinds, outBinds, _) =>
      ListsRootsBelow(outBinds, |a|);
      ValuesAgree(sem, a, x, y, |trace|, inBinds, |a|, AtTerm(t), R);
      var args := Values(sem, a, x, |trace|, inBinds, |a|, AtTerm(t));
      TaskAgrees(sem, task, R, args, x, y, |trace|);
      var (mx, outs) := sem.task(task, args, x, |trace|);
      var (my, _) := sem.task(task, args, y, |trace|);
      ValuesAgree(sem, a, mx, my, |trace|, ListsRoots(outBinds), |a|, AtTerm(t), R);
      var indexes := Values(sem, a, mx, |trace|, ListsRoots(outBinds), |a|, AtTerm(t));
      AfterAgrees(sem, AtTerm(t), outs + indexes, |trace|, mx, my, R);
    case _ =>
  }

  lemma {:induction false} StmtReadsIn(a: Arena, stmts: seq<Stmt>, k: nat)
    requires StmtsBelow(stmts, |a|) && k < |stmts|
    ensures StmtReads(a, stmts[k]) <= StmtsReads(a, stmts)
  {
    hide StmtReads, StmtBelow;
    if k < |stmts| - 1 { StmtReadsIn(a, stmts[..|stmts| - 1], k); }
  }

  lemma {:induction false} BlockReadsIn(a: Arena, body: seq<Block>, k: nat)
    requires BodyBelow(body, |a|) && k < |body|
    ensures BlockReads(a, body[k]) + BindReads(a, body[k].term) <= BodyReads(a, body)
  {
    hide BlockReads, BindReads, BlockBelow;
    if k < |body| - 1 { BlockReadsIn(a, body[..|body| - 1], k); }
  }

  // ---- what a body needs ----

  /** What a terminator depends on beyond what the walk collects. */
  function TermNeeds(a: Arena, t: Terminator, own: Own): set<nat>
    requires TermBelow(t, |a|)
  {
    CalledReads(own, TermCalls(a, t)) + if t.TaskCall? then own.task(t.task) else {}
  }

  predicate BlockCovered(a: Arena, b: Block, own: Own, R: set<nat>)
    requires BlockBelow(b, |a|)
  {
    (forall j :: 0 <= j < |b.stmts| ==> StmtNeeds(a, b.stmts[j], own) <= R) && TermNeeds(a, b.term, own) <= R
  }

  /** Where a run can go on after the terminator. */
  function Succs(t: Terminator): set<nat> {
    match t
    case Goto(target) => {target}
    case Branch(_, thenBb, elseBb) => {thenBb, elseBb}
    case TaskCall(_, _, _, back) => {back}
    case _ => {}
  }

  /** Blocks of the body, each a successor of the one before, from the first on. */
  predicate IsPath(body: seq<Block>, p: seq<nat>) {
    p != [] && p[0] == 0 && (forall k :: 0 <= k < |p| ==> p[k] < |body|)
    && forall k :: 0 < k < |p| ==> p[k] in Succs(body[p[k - 1]].term)
  }

  ghost predicate Reachable(body: seq<Block>, k: nat) {
    exists p: seq<nat> :: IsPath(body, p) && p[|p| - 1] == k
  }

  /** No block a run can come to needs a net outside the collected set. */
  ghost predicate BodyCovered(a: Arena, body: seq<Block>, own: Own)
    requires BodyBelow(body, |a|)
  {
    forall k: nat :: k < |body| && Reachable(body, k) ==> BlockCovered(a, body[k], own, BodyReads(a, body))
  }

  lemma TaskMore(sem: Sem, t: nat, R: set<nat>, Q: set<nat>)
    requires TaskWithin(sem, t, R) && R <= Q
    ensures TaskWithin(sem, t, Q)
  {
    forall args: seq<Vec>, x: Cells, y: Cells, step: nat | Agree(Q, x, y)
      ensures sem.task(t, args, x, step).1 == sem.task(t, args, y, step).1
      ensures forall m: nat :: Content(x, m) == Content(y, m) ==>
        Content(sem.task(t, args, x, step).0, m) == Content(sem.task(t, args, y, step).0, m)
    {
      assert Agree(R, x, y);
    }
  }

  lemma TaskAgrees(sem: Sem, t: nat, R: set<nat>, args: seq<Vec>, x: Cells, y: Cells, step: nat)
    requires TaskWithin(sem, t, R) && Agree(R, x, y)
    ensures sem.task(t, args, x, step).1 == sem.task(t, args, y, step).1
    ensures Agree(R, sem.task(t, args, x, step).0, sem.task(t, args, y, step).0)
  {
  }

  lemma {:induction false} StmtsFitHere(sem: Sem, a: Arena, body: seq<Block>, own: Own, k: nat)
    requires BodyBelow(body, |a|) && k < |body| && Within(sem, own) && BlockCovered(a, body[k], own, BodyReads(a, body))
    ensures StmtsFit(sem, a, body[k].stmts, BodyReads(a, body))
  {
    hide BodyReads, BlockReads, BindReads, StmtReads, DelayReads, StmtAllCalls, StmtBelow, StmtsReads, AllWithin, CalledReads, Within;
    var R, b := BodyReads(a, body), body[k];
    BlockReadsIn(a, body, k);
    assert StmtsReads(a, b.stmts) <= BlockReads(a, b) by { StmtsInBlock(a, b); }
    forall j | 0 <= j < |b.stmts|
      ensures StmtCovered(a, b.stmts[j], R) && AllWithin(sem, StmtAllCalls(a, b.stmts[j]), R)
    {
      StmtReadsIn(a, b.stmts, j);
      assert StmtNeeds(a, b.stmts[j], own) <= R;
      CalledWithin(sem, own, StmtAllCalls(a, b.stmts[j]), R);
    }
  }

  lemma StmtsInBlock(a: Arena, b: Block)
    requires BlockBelow(b, |a|)
    ensures StmtsReads(a, b.stmts) <= BlockReads(a, b)
  {
  }

  lemma {:induction false} TermFitsHere(sem: Sem, a: Arena, body: seq<Block>, own: Own, k: nat)
    requires BodyBelow(body, |a|) && k < |body| && Within(sem, own) && BlockCovered(a, body[k], own, BodyReads(a, body))
    ensures TermFits(sem, a, body[k].term, BodyReads(a, body))
  {
    hide BodyReads, StmtsReads, StmtNeeds, StmtBelow, ListReads, ListCalls, Reads, Calls, ListsRoots, AllWithin,
         CalledReads, FuncWithin, TaskWithin;
    var R, t := BodyReads(a, body), body[k].term;
    BlockReadsIn(a, body, k);
    match t
    case Branch(cond, _, _) => CalledWithin(sem, own, Calls(a, cond), R);
    case TaskCall(task, inBinds, outBinds, _) =>
      ListsRootsBelow(outBinds, |a|);
      CalledAppend(own, ListCalls(a, inBinds, |a|), ListCalls(a, ListsRoots(outBinds), |a|));
      CalledWithin(sem, own, ListCalls(a, inBinds, |a|), R);
      CalledWithin(sem, own, ListCalls(a, ListsRoots(outBinds), |a|), R);
      TaskMore(sem, task, own.task(task), R);
    case _ =>
  }

  /** A run only comes to reachable blocks. */
  lemma {:induction false} RunIsReachable(sem: Sem, a: Arena, body: seq<Block>, x: Cells, n: nat)
    requires BodyBelow(body, |a|)
    ensures var pc := Run(sem, a, body, x, n).pc; pc.Some? && pc.value < |body| ==> Reachable(body, pc.value)
  {
    hide RunStmts, StmtBelow, Value, Values;
    if n == 0 {
      if body != [] { assert IsPath(body, [0]); }
    } else {
      RunIsReachable(sem, a, body, x, n - 1);
      var was, now := Run(sem, a, body, x, n - 1).pc, Run(sem, a, body, x, n).pc;
      if was.Some? && was.value < |body| && now.Some? && now.value < |body| {
        var p: seq<nat> :| IsPath(body, p) && p[|p| - 1] == was.value;
        NextIsSucc(sem, a, body[was.value].term, body, Run(sem, a, body, x, n - 1));
        assert IsPath(body, p + [now.value]);
        assert (p + [now.value])[|p|] == now.value;
      }
    }
  }

  lemma NextIsSucc(sem: Sem, a: Arena, t: Terminator, body: seq<Block>, st: State)
    requires BodyBelow(body, |a|) && st.pc.Some? && st.pc.value < |body| && t == body[st.pc.value].term
    ensures var pc := RunBlock(sem, a, body, st).pc; pc.Some? ==> pc.value in Succs(t)
  {
    hide RunStmts, StmtBelow, Value, Values;
  }

  /** Two runs from stores that agree on the collected read set make the same events, take the same
      path and go on agreeing, however many blocks they run. */
  lemma {:induction false} ReadSetComplete(sem: Sem, a: Arena, body: seq<Block>, own: Own, x: Cells, y: Cells, n: nat)
    requires BodyBelow(body, |a|) && Agree(BodyReads(a, body), x, y)
    requires BodyCovered(a, body, own) && Within(sem, own)
    ensures Run(sem, a, body, x, n).trace == Run(sem, a, body, y, n).trace
    ensures Run(sem, a, body, x, n).pc == Run(sem, a, body, y, n).pc
    ensures Agree(BodyReads(a, body), Run(sem, a, body, x, n).cells, Run(sem, a, body, y, n).cells)
  {
    hide BodyReads, RunStmts, RunTerm, Agree, StmtsFit, TermFits, Within, StmtBelow, TermBelow, BlockCovered, Reachable;
    if n > 0 {
      ReadSetComplete(sem, a, body, own, x, y, n - 1);
      var p, q, R := Run(sem, a, body, x, n - 1), Run(sem, a, body, y, n - 1), BodyReads(a, body);
      if p.pc.Some? && p.pc.value < |body| {
        var b := body[p.pc.value];
        RunIsReachable(sem, a, body, x, n - 1);
        StmtsFitHere(sem, a, body, own, p.pc.value);
        TermFitsHere(sem, a, body, own, p.pc.value);
        RunStmtsAgrees(sem, a, b.stmts, p.cells, q.cells, p.trace, R);
        var (xs, trace) := RunStmts(sem, a, b.stmts, p.cells, p.trace);
        var (ys, _) := RunStmts(sem, a, b.stmts, q.cells, p.trace);
        RunTermAgrees(sem, a, b.term, xs, ys, trace, R);
      }
    }
  }

  // ---- and only then ----

  /** The events of one block, and of the blocks of a path before the `i`-th. */
  function TermEvents(t: Terminator): nat { if t.Branch? then 1 else if t.TaskCall? then 2 else 0 }

  function StepsTo(body: seq<Block>, p: seq<nat>, i: nat): nat
    requires i <= |p| && forall k :: 0 <= k < |p| ==> p[k] < |body|
  {
    if i == 0 then 0 else StepsTo(body, p, i - 1) + |body[p[i - 1]].stmts| + TermEvents(body[p[i - 1]].term)
  }

  lemma {:induction false} StepsGrow(body: seq<Block>, p: seq<nat>, i: nat, j: nat)
    requires i <= j <= |p| && forall k :: 0 <= k < |p| ==> p[k] < |body|
    ensures StepsTo(body, p, i) <= StepsTo(body, p, j)
  {
    if i < j { StepsGrow(body, p, i, j - 1); }
  }

  /** At this step the path's `k`-th block branches to its first arm. */
  predicate TurnsAt(body: seq<Block>, p: seq<nat>, k: nat, step: nat)
    requires IsPath(body, p) && k + 1 < |p|
  {
    var b := body[p[k]];
    b.term.Branch? && step == StepsTo(body, p, k) + |b.stmts| && p[k + 1] == b.term.thenBb
  }

  /** The directions that lead along the path, step by step. */
  function Along(body: seq<Block>, p: seq<nat>): nat -> bool
    requires IsPath(body, p)
  {
    (step: nat) => IsPath(body, p) && exists k: nat :: k < |p| - 1 && TurnsAt(body, p, k, step)
  }

  lemma {:induction false} AlongIs(body: seq<Block>, p: seq<nat>, k: nat)
    requires IsPath(body, p) && k + 1 < |p| && body[p[k]].term.Branch?
    ensures Along(body, p)(StepsTo(body, p, k) + |body[p[k]].stmts|) <==> p[k + 1] == body[p[k]].term.thenBb
  {
    var step := StepsTo(body, p, k) + |body[p[k]].stmts|;
    if p[k + 1] == body[p[k]].term.thenBb { assert TurnsAt(body, p, k, step); }
    if j: nat :| j < |p| - 1 && TurnsAt(body, p, j, step) {
      if j < k {
        StepsGrow(body, p, j + 1, k);
      } else if k < j {
        StepsGrow(body, p, k + 1, j);
      }
    }
  }

  /** Under the lamp nothing is written, and every statement leaves its event. */
  lemma {:induction false} LampStmts(a: Arena, stmts: seq<Stmt>, x: Cells, trace: seq<Event>, n: nat, own: Own, dir: nat -> bool)
    requires StmtsBelow(stmts, |a|)
    ensures var r := RunStmts(Lamp(n, own, dir), a, stmts, x, trace);
      r.0 == x && |r.1| == |trace| + |stmts| && trace <= r.1
      && forall j: nat :: j < |stmts| ==>
           r.1[|trace| + j] == Ran(stmts[j], StmtValues(Lamp(n, own, dir), a, x, |trace| + j, stmts[j]))
  {
    hide StmtValues, StmtBelow;
    if stmts != [] {
      var sem := Lamp(n, own, dir);
      var vs := StmtValues(sem, a, x, |trace|, stmts[0]);
      LampKeeps(AtStmt(stmts[0]), vs, |trace|, x, n, own, dir);
      LampStmts(a, stmts[1..], x, trace + [Ran(stmts[0], vs)], n, own, dir);
      var r := RunStmts(sem, a, stmts, x, trace);
      assert r == RunStmts(sem, a, stmts[1..], x, trace + [Ran(stmts[0], vs)]);
      forall j: nat | j < |stmts|
        ensures r.1[|trace| + j] == Ran(stmts[j], StmtValues(sem, a, x, |trace| + j, stmts[j]))
      {
        if j == 0 {
          assert (trace + [Ran(stmts[0], vs)])[|trace|] == Ran(stmts[0], vs);
        } else {
          assert stmts[1..][j - 1] == stmts[j];
        }
      }
    }
  }

  lemma LampKeeps(at: Site, values: seq<Vec>, step: nat, x: Cells, n: nat, own: Own, dir: nat -> bool)
    ensures After(Lamp(n, own, dir), at, values, step, x) == x
  {
  }

  /** Nor does the terminator write; a branch goes the way its step says. */
  lemma {:induction false} LampTerm(a: Arena, t: Terminator, x: Cells, trace: seq<Event>, n: nat, own: Own, dir: nat -> bool)
    requires TermBelow(t, |a|)
    ensures var r := RunTerm(Lamp(n, own, dir), a, t, x, trace);
      r.cells == x && trace <= r.trace && |r.trace| == |trace| + TermEvents(t)
      && (t.Branch? ==> r.pc == Some(if dir(|trace|) then t.thenBb else t.elseBb))
      && (t.Goto? ==> r.pc == Some(t.target)) && (t.TaskCall? ==> r.pc == Some(t.back))
  {
    hide Value, Values, ListsRoots;
    var sem := Lamp(n, own, dir);
    match t
    case Branch(cond, _, _) => LampValue(a, x, |trace|, cond, sem.context(AtTerm(t), 0), n, own, dir);
    case TaskCall(task, inBinds, outBinds, _) =>
      ListsRootsBelow(outBinds, |a|);
      var outs := sem.task(task, Values(sem, a, x, |trace|, inBinds, |a|, AtTerm(t)), x, |trace|).1;
      LampKeeps(AtTerm(t), outs + Values(sem, a, x, |trace|, ListsRoots(outBinds), |a|, AtTerm(t)), |trace|, x, n, own, dir);
    case _ =>
  }

  /** The run follows the path. */
  lemma {:induction false} FollowsPath(a: Arena, body: seq<Block>, p: seq<nat>, i: nat, x: Cells, n: nat, own: Own)
    requires BodyBelow(body, |a|) && IsPath(body, p) && i < |p|
    ensures Run(Lamp(n, own, Along(body, p)), a, body, x, i).pc == Some(p[i])
    ensures Run(Lamp(n, own, Along(body, p)), a, body, x, i).cells == x
    ensures |Run(Lamp(n, own, Along(body, p)), a, body, x, i).trace| == StepsTo(body, p, i)
  {
    hide RunBlock, BodyBelow, Along, Lamp;
    if i > 0 {
      FollowsPath(a, body, p, i - 1, x, n, own);
      FollowsStep(a, body, p, i - 1, Run(Lamp(n, own, Along(body, p)), a, body, x, i - 1), x, n, own);
    }
  }

  lemma {:induction false} FollowsStep(a: Arena, body: seq<Block>, p: seq<nat>, i: nat, st: State, x: Cells, n: nat, own: Own)
    requires BodyBelow(body, |a|) && IsPath(body, p) && i + 1 < |p|
    requires st.pc == Some(p[i]) && st.cells == x && |st.trace| == StepsTo(body, p, i)
    ensures var r := RunBlock(Lamp(n, own, Along(body, p)), a, body, st);
      r.pc == Some(p[i + 1]) && r.cells == x && |r.trace| == StepsTo(body, p, i + 1)
  {
    hide RunStmts, RunTerm, StmtBelow, TermBelow, Along, Lamp;
    var dir, b := Along(body, p), body[p[i]];
    var sem := Lamp(n, own, dir);
    LampStmts(a, b.stmts, x, st.trace, n, own, dir);
    var r := RunStmts(sem, a, b.stmts, x, st.trace);
    LampTerm(a, b.term, x, r.1, n, own, dir);
    if b.term.Branch? { AlongIs(body, p, i); }
    assert p[i + 1] in Succs(b.term);
    assert RunBlock(sem, a, body, st) == RunTerm(sem, a, b.term, x, r.1);
  }

  /** A statement that needs net `n` leaves another event when the net holds the mark. */
  lemma {:induction false} StmtTells(a: Arena, body: seq<Block>, p: seq<nat>, j: nat, n: nat, own: Own)
    requires BodyBelow(body, |a|) && IsPath(body, p)
    requires j < |body[p[|p| - 1]].stmts| && n in StmtNeeds(a, body[p[|p| - 1]].stmts[j], own)
    ensures var sem := Lamp(n, own, Along(body, p));
      Run(sem, a, body, map[n := MARK], |p|).trace != Run(sem, a, body, map[], |p|).trace
  {
    hide RunStmts, RunTerm, StmtBelow, TermBelow, Along, StmtValues, StmtNeeds, Lit, StmtReads;
    var dir, i := Along(body, p), |p| - 1;
    var sem, b := Lamp(n, own, dir), body[p[i]];
    var x: Cells, y: Cells := map[n := MARK], map[];
    var step := StepsTo(body, p, i) + j;
    EventOf(a, body, p, j, x, n, own);
    EventOf(a, body, p, j, y, n, own);
    OneMark(n, {});
    StmtShows(a, x, step, b.stmts[j], n, own, dir);
    StmtShows(a, y, step, b.stmts[j], n, own, dir);
  }

  lemma {:induction false} EventOf(a: Arena, body: seq<Block>, p: seq<nat>, j: nat, x: Cells, n: nat, own: Own)
    requires BodyBelow(body, |a|) && IsPath(body, p) && j < |body[p[|p| - 1]].stmts|
    ensures
      var sem, s, step := Lamp(n, own, Along(body, p)), body[p[|p| - 1]].stmts[j], StepsTo(body, p, |p| - 1) + j;
      step < |Run(sem, a, body, x, |p|).trace|
      && Run(sem, a, body, x, |p|).trace[step] == Ran(s, StmtValues(sem, a, x, step, s))
  {
    hide RunStmts, RunTerm, StmtBelow, TermBelow, Along, StmtValues;
    var dir, i := Along(body, p), |p| - 1;
    var sem, b := Lamp(n, own, dir), body[p[i]];
    FollowsPath(a, body, p, i, x, n, own);
    var st := Run(sem, a, body, x, i);
    LampStmts(a, b.stmts, x, st.trace, n, own, dir);
    LampTerm(a, b.term, x, RunStmts(sem, a, b.stmts, x, st.trace).1, n, own, dir);
  }

  /** So does a terminator. */
  lemma {:induction false} TermTells(a: Arena, body: seq<Block>, p: seq<nat>, n: nat, own: Own)
    requires BodyBelow(body, |a|) && IsPath(body, p) && n in TermNeeds(a, body[p[|p| - 1]].term, own)
    ensures var sem := Lamp(n, own, Along(body, p));
      Run(sem, a, body, map[n := MARK], |p|).trace != Run(sem, a, body, map[], |p|).trace
  {
    hide RunStmts, RunTerm, StmtBelow, TermBelow, Along, TermNeeds;
    var dir, i := Along(body, p), |p| - 1;
    var sem, b := Lamp(n, own, dir), body[p[i]];
    var x: Cells, y: Cells := map[n := MARK], map[];
    FollowsPath(a, body, p, i, x, n, own);
    FollowsPath(a, body, p, i, y, n, own);
    var sx, sy := Run(sem, a, body, x, i), Run(sem, a, body, y, i);
    LampStmts(a, b.stmts, x, sx.trace, n, own, dir);
    LampStmts(a, b.stmts, y, sy.trace, n, own, dir);
    TermDiffers(a, b.term, RunStmts(sem, a, b.stmts, x, sx.trace).1, RunStmts(sem, a, b.stmts, y, sy.trace).1, n, own, dir);
  }

  lemma {:induction false} TermDiffers(a: Arena, t: Terminator, tx: seq<Event>, ty: seq<Event>, n: nat, own: Own, dir: nat -> bool)
    requires TermBelow(t, |a|) && n in TermNeeds(a, t, own) && |tx| == |ty|
    ensures RunTerm(Lamp(n, own, dir), a, t, map[n := MARK], tx).trace != RunTerm(Lamp(n, own, dir), a, t, map[], ty).trace
  {
    hide RunTerm, CalledReads, Lamp;
    match t
    case Branch(_, _, _) => BranchDiffers(a, t, tx, ty, n, own, dir);
    case TaskCall(_, _, _, _) => TaskDiffers(a, t, tx, ty, n, own, dir);
    case _ => NothingCalled(own);
  }

  lemma {:induction false} BranchDiffers(a: Arena, t: Terminator, tx: seq<Event>, ty: seq<Event>, n: nat, own: Own, dir: nat -> bool)
    requires TermBelow(t, |a|) && t.Branch? && n in TermNeeds(a, t, own) && |tx| == |ty|
    ensures RunTerm(Lamp(n, own, dir), a, t, map[n := MARK], tx).trace != RunTerm(Lamp(n, own, dir), a, t, map[], ty).trace
  {
    hide Value, Reads, Calls, CalledReads;
    var sem := Lamp(n, own, dir);
    var x: Cells, y: Cells := map[n := MARK], map[];
    OneMark(n, {});
    LampValue(a, x, |tx|, t.cond, 0, n, own, dir);
    LampValue(a, y, |ty|, t.cond, 0, n, own, dir);
    var vx, vy := Value(sem, a, x, |tx|, t.cond, 0), Value(sem, a, y, |ty|, t.cond, 0);
    assert vx[0] == B1 && vy[0] == B0;
    assert RunTerm(sem, a, t, x, tx).trace == tx + [Branched(vx)] && RunTerm(sem, a, t, y, ty).trace == ty + [Branched(vy)];
    assert (tx + [Branched(vx)])[|tx|] != (ty + [Branched(vy)])[|tx|];
  }

  lemma {:induction false} TaskDiffers(a: Arena, t: Terminator, tx: seq<Event>, ty: seq<Event>, n: nat, own: Own, dir: nat -> bool)
    requires TermBelow(t, |a|) && t.TaskCall? && n in TermNeeds(a, t, own) && |tx| == |ty|
    ensures RunTerm(Lamp(n, own, dir), a, t, map[n := MARK], tx).trace != RunTerm(Lamp(n, own, dir), a, t, map[], ty).trace
  {
    hide RunTerm, Values, ListsRoots, Reads, Calls, ListReads, ListCalls, CalledReads, Lit, Lamp;
    var sem := Lamp(n, own, dir);
    var x: Cells, y: Cells := map[n := MARK], map[];
    OneMark(n, {});
    ListsRootsBelow(t.outBinds, |a|);
    var roots, step, at := ListsRoots(t.outBinds), |tx|, AtTerm(t);
    CalledAppend(own, ListCalls(a, t.inBinds, |a|), ListCalls(a, roots, |a|));
    LampValues(a, x, step, t.inBinds, |a|, at, n, own, dir);
    LampValues(a, y, step, t.inBinds, |a|, at, n, own, dir);
    LampValues(a, x, step, roots, |a|, at, n, own, dir);
    LampValues(a, y, step, roots, |a|, at, n, own, dir);
    TaskEvents(a, t, x, tx, n, own, dir);
    TaskEvents(a, t, y, ty, n, own, dir);
    var rx, ry := RunTerm(sem, a, t, x, tx).trace, RunTerm(sem, a, t, y, ty).trace;
    assert rx[step].Entered? && ry[step].Entered? && rx[step + 1].Left? && ry[step + 1].Left?;
    assert rx[step].args != ry[step].args || rx[step + 1].outs != ry[step + 1].outs || rx[step + 1].indexes != ry[step + 1].indexes;
  }

  lemma TaskEvents(a: Arena, t: Terminator, x: Cells, trace: seq<Event>, n: nat, own: Own, dir: nat -> bool)
    requires TermBelow(t, |a|) && t.TaskCall? && Below(ListsRoots(t.outBinds), |a|)
    ensures
      var sem := Lamp(n, own, dir);
      var outs: seq<Vec> := if n in own.task(t.task) && Marked(x, n) then [[B1]] else [];
      RunTerm(sem, a, t, x, trace).trace
      == trace + [Entered(t.task, Values(sem, a, x, |trace|, t.inBinds, |a|, AtTerm(t))),
                  Left(t.task, outs, Values(sem, a, x, |trace|, ListsRoots(t.outBinds), |a|, AtTerm(t)))]
  {
    hide Values, ListsRoots;
  }

  /** Any two runs from stores that agree on the collected set are the same run. */
  ghost predicate DecidesBody(a: Arena, body: seq<Block>, own: Own)
    requires BodyBelow(body, |a|)
  {
    forall sem: Sem, x: Cells, y: Cells, n: nat :: Within(sem, own) && Agree(BodyReads(a, body), x, y) ==>
      Run(sem, a, body, x, n).trace == Run(sem, a, body, y, n).trace
  }

  /** The collected read set decides every run of the body exactly when no reachable block has a delay, a called
      function or a called task that reads a net outside it. */
  lemma {:induction false} DecidesBodyExactly(a: Arena, body: seq<Block>, own: Own)
    requires BodyBelow(body, |a|)
    ensures DecidesBody(a, body, own) <==> BodyCovered(a, body, own)
  {
    hide BodyReads, Run, Agree, Within, BlockBelow, BlockCovered, Reachable;
    var R := BodyReads(a, body);
    if BodyCovered(a, body, own) {
      forall sem: Sem, x: Cells, y: Cells, n: nat | Within(sem, own) && Agree(R, x, y)
        ensures Run(sem, a, body, x, n).trace == Run(sem, a, body, y, n).trace
      {
        ReadSetComplete(sem, a, body, own, x, y, n);
      }
    } else {
      var k: nat :| k < |body| && Reachable(body, k) && !BlockCovered(a, body[k], own, R);
      BlockTells(a, body, k, own);
    }
  }

  lemma {:induction false} BlockTells(a: Arena, body: seq<Block>, k: nat, own: Own)
    requires BodyBelow(body, |a|) && k < |body| && Reachable(body, k)
    requires !BlockCovered(a, body[k], own, BodyReads(a, body))
    ensures !DecidesBody(a, body, own)
  {
    hide BodyReads, Run, Agree, Within, StmtBelow, TermBelow, StmtNeeds, TermNeeds, Along;
    var R, b := BodyReads(a, body), body[k];
    var p: seq<nat> :| IsPath(body, p) && p[|p| - 1] == k;
    var n: nat;
    if j: nat :| j < |b.stmts| && !(StmtNeeds(a, b.stmts[j], own) <= R) {
      n :| n in StmtNeeds(a, b.stmts[j], own) && n !in R;
      StmtTells(a, body, p, j, n, own);
    } else {
      n :| n in TermNeeds(a, b.term, own) && n !in R;
      TermTells(a, body, p, n, own);
    }
    LampWithin(n, own, Along(body, p));
    OneMark(n, R);
  }
}
