/** What called functions add: the nets a frame function reads itself. Exactly when the collected reads of a
    statement decide it all the same. */
module FrameReads {
  import opened Bits
  import opened Wrappers
  import opened Ir
  import opened ReadSet
  import opened ReadRuns

  /** The nets each frame function, and each frame task, reads in its own body. */
  datatype Own = Own(func: nat -> set<nat>, task: nat -> set<nat>)

  /** A task whose results depend on its arguments and on nets of `R`, and whose effect on a net on that net too. */
  ghost predicate TaskWithin(sem: Sem, t: nat, R: set<nat>) {
    forall args: seq<Vec>, x: Cells, y: Cells, step: nat :: Agree(R, x, y) ==>
      sem.task(t, args, x, step).1 == sem.task(t, args, y, step).1
      && forall m: nat :: Content(x, m) == Content(y, m) ==>
           Content(sem.task(t, args, x, step).0, m) == Content(sem.task(t, args, y, step).0, m)
  }

  /** Every function and every task keeps within what it is said to read. */
  ghost predicate Within(sem: Sem, own: Own) {
    (forall f: nat :: FuncWithin(sem, f, own.func(f))) && forall t: nat :: TaskWithin(sem, t, own.task(t))
  }

  function CalledReads(own: Own, fs: seq<nat>): set<nat> {
    if fs == [] then {} else own.func(fs[0]) + CalledReads(own, fs[1..])
  }

  lemma {:induction false} CalledAppend(own: Own, x: seq<nat>, y: seq<nat>)
    ensures CalledReads(own, x + y) == CalledReads(own, x) + CalledReads(own, y)
  {
    if x == [] {
      assert x + y == y;
    } else {
      assert (x + y)[1..] == x[1..] + y;
      CalledAppend(own, x[1..], y);
    }
  }

  lemma {:induction false} CalledHolds(own: Own, fs: seq<nat>, f: nat)
    requires f in fs
    ensures own.func(f) <= CalledReads(own, fs)
  {
    if f != fs[0] {
      assert fs == [fs[0]] + fs[1..];
      CalledHolds(own, fs[1..], f);
    }
  }

  lemma {:induction false} CalledWithin(sem: Sem, own: Own, fs: seq<nat>, R: set<nat>)
    requires Within(sem, own) && CalledReads(own, fs) <= R
    ensures AllWithin(sem, fs, R)
  {
    hide FuncWithin, CalledReads;
    forall f | f in fs ensures FuncWithin(sem, f, R) {
      CalledHolds(own, fs, f);
      FuncMore(sem, f, own.func(f), R);
    }
  }

  lemma FuncMore(sem: Sem, f: nat, R: set<nat>, Q: set<nat>)
    requires FuncWithin(sem, f, R) && R <= Q
    ensures FuncWithin(sem, f, Q)
  {
    WithinMore(sem, [f], R, Q);
  }

  // ---- a meaning that shows what is read ----

  predicate Lit(vs: seq<Vec>) { [B1, B0] in vs || [B1, B1] in vs }

  function OnOff(b: bool): Bit { if b then B1 else B0 }

  predicate Marked(x: Cells, n: nat) { Content(x, n) == Some(MARK) }

  /** Lights a node when net `n` holds the mark and the node, or a function or task called there, reads it; its
      second bit is the way a branch at that step goes. Nothing is written. */
  function Lamp(n: nat, own: Own, dir: nat -> bool): Sem {
    Sem((_, _) => 0,
        (net, _, content, vs, step: nat) => [OnOff((net == n && content == Some(MARK)) || Lit(vs)), OnOff(dir(step))],
        (f, _, vs, x, step: nat) => [OnOff((n in own.func(f) && Marked(x, n)) || Lit(vs)), OnOff(dir(step))],
        (_, _, vs, step: nat) => [OnOff(Lit(vs)), OnOff(dir(step))],
        v => |v| == 2 && v[1] == B1,
        (_, _, _, _, was) => was,
        (t, _, x, _) => (x, if n in own.task(t) && Marked(x, n) then [[B1]] else []))
  }

  lemma LampWithin(n: nat, own: Own, dir: nat -> bool)
    ensures Within(Lamp(n, own, dir), own)
  {
    var sem := Lamp(n, own, dir);
    forall f: nat ensures FuncWithin(sem, f, own.func(f)) {
      forall c: nat, args: seq<Vec>, x: Cells, y: Cells, step: nat | Agree(own.func(f), x, y)
        ensures sem.call(f, c, args, x, step) == sem.call(f, c, args, y, step)
      {
        assert n in own.func(f) ==> Marked(x, n) == Marked(y, n);
        assert sem.call(f, c, args, x, step) == [OnOff((n in own.func(f) && Marked(x, n)) || Lit(args)), OnOff(dir(step))];
        assert sem.call(f, c, args, y, step) == [OnOff((n in own.func(f) && Marked(y, n)) || Lit(args)), OnOff(dir(step))];
      }
    }
    forall t: nat ensures TaskWithin(sem, t, own.task(t)) {
      forall args: seq<Vec>, x: Cells, y: Cells, step: nat | Agree(own.task(t), x, y)
        ensures sem.task(t, args, x, step).1 == sem.task(t, args, y, step).1
      {
        assert n in own.task(t) ==> Content(x, n) == Content(y, n);
      }
    }
  }

  lemma {:induction false} LampValue(a: Arena, x: Cells, step: nat, e: nat, c: nat, n: nat, own: Own, dir: nat -> bool)
    requires e < |a|
    ensures Value(Lamp(n, own, dir), a, x, step, e, c)
         == [OnOff(Marked(x, n) && n in Reads(a, e) + CalledReads(own, Calls(a, e))), OnOff(dir(step))]
    decreases e, 1, 0
  {
    hide Reads, Calls, ListReads, ListCalls, Values, CalledReads;
    NodeReads(a, e);
    CalledAppend(own, OwnCall(a[e]), ListCalls(a, Operands(a[e]), e));
    CalledOne(own, a[e]);
    LampValues(a, x, step, Operands(a[e]), e, AtNode(e, c), n, own, dir);
  }

  lemma CalledOne(own: Own, x: Expr)
    ensures CalledReads(own, OwnCall(x)) == if x.Call? then own.func(x.func) else {}
  {
  }

  lemma {:induction false} LampValues(a: Arena, x: Cells, step: nat, es: seq<nat>, bound: nat, at: Site, n: nat, own: Own,
                                      dir: nat -> bool)
    requires bound <= |a| && Below(es, bound)
    ensures Lit(Values(Lamp(n, own, dir), a, x, step, es, bound, at))
        <==> Marked(x, n) && n in ListReads(a, es, bound) + CalledReads(own, ListCalls(a, es, bound))
    decreases bound, 0, |es|
  {
    hide Reads, Calls, Value, CalledReads;
    if es != [] {
      LampValue(a, x, step, es[0], 0, n, own, dir);
      LampValues(a, x, step, es[1..], bound, at, n, own, dir);
      CalledAppend(own, Calls(a, es[0]), ListCalls(a, es[1..], bound));
      LitFirst(Value(Lamp(n, own, dir), a, x, step, es[0], 0), Values(Lamp(n, own, dir), a, x, step, es[1..], bound, at));
    } else {
      NothingCalled(own);
    }
  }

  lemma NothingCalled(own: Own)
    ensures CalledReads(own, []) == {} && !Lit([])
  {
  }

  lemma LitFirst(v: Vec, vs: seq<Vec>)
    ensures Lit([v] + vs) <==> v == [B1, B0] || v == [B1, B1] || Lit(vs)
  {
  }

  // ---- statements ----

  /** What a statement depends on beyond what the walk collects: its delay, and its functions' own reads. */
  function StmtNeeds(a: Arena, s: Stmt, own: Own): set<nat>
    requires StmtBelow(s, |a|)
  {
    DelayReads(a, s) + CalledReads(own, StmtAllCalls(a, s))
  }

  /** The collected reads decide everything the statement evaluates, whatever the operators mean, for functions
      that read no more than they are said to. */
  ghost predicate Decides(a: Arena, s: Stmt, own: Own)
    requires StmtBelow(s, |a|)
  {
    forall sem: Sem, x: Cells, y: Cells, step: nat :: Within(sem, own) && Agree(StmtReads(a, s), x, y) ==>
      StmtValues(sem, a, x, step, s) == StmtValues(sem, a, y, step, s)
  }

  /** That is so exactly when the delay and every called function read nothing that was not collected anyway. */
  lemma {:induction false} DecidesExactly(a: Arena, s: Stmt, own: Own)
    requires StmtBelow(s, |a|)
    ensures Decides(a, s, own) <==> StmtNeeds(a, s, own) <= StmtReads(a, s)
  {
    hide StmtReads, DelayReads, StmtAllCalls, StmtValues, StmtBelow, AllWithin, Agree, CalledReads, Within;
    var R := StmtReads(a, s);
    if StmtNeeds(a, s, own) <= R {
      forall sem: Sem, x: Cells, y: Cells, step: nat | Within(sem, own) && Agree(R, x, y)
        ensures StmtValues(sem, a, x, step, s) == StmtValues(sem, a, y, step, s)
      {
        CalledWithin(sem, own, StmtAllCalls(a, s), R);
        StmtAgrees(sem, a, x, y, step, s, R);
      }
    } else {
      var n :| n in StmtNeeds(a, s, own) && n !in R;
      var x: Cells, y: Cells := map[n := MARK], map[];
      var dir := (_: nat) => false;
      StmtShows(a, x, 0, s, n, own, dir);
      StmtShows(a, y, 0, s, n, own, dir);
      LampWithin(n, own, dir);
      OneMark(n, R);
      assert StmtValues(Lamp(n, own, dir), a, x, 0, s) != StmtValues(Lamp(n, own, dir), a, y, 0, s);
    }
  }

  lemma OneMark(n: nat, R: set<nat>)
    requires n !in R
    ensures var x: Cells, y: Cells := map[n := MARK], map[];
      Agree(R, x, y) && Marked(x, n) && !Marked(y, n)
  {
  }

  lemma {:induction false} StmtShows(a: Arena, x: Cells, step: nat, s: Stmt, n: nat, own: Own, dir: nat -> bool)
    requires StmtBelow(s, |a|)
    ensures Lit(StmtValues(Lamp(n, own, dir), a, x, step, s))
        <==> Marked(x, n) && n in StmtReads(a, s) + StmtNeeds(a, s, own)
  {
    hide ListReads, ListCalls, Values, StmtReads, DelayReads, StmtRoots, StmtBelow, CalledReads, Lit;
    StmtRootReads(a, s);
    LampValues(a, x, step, StmtRoots(s), |a|, AtStmt(s), n, own, dir);
  }

  /** `q = f();` where `f` reads net `n`: nothing is collected, and the value moves with `n`. */
  lemma CalledReadIsMissed(n: nat, f: nat)
    ensures
      var a: Arena := [Call(f, [])];
      var s, own := BlockingAssign([], 0), Own(g => if g == f then {n} else {}, _ => {});
      StmtBelow(s, |a|) && StmtReads(a, s) == {} && !Decides(a, s, own)
  {
    var a: Arena := [Call(f, [])];
    var s, own := BlockingAssign([], 0), Own(g => if g == f then {n} else {}, _ => {});
    assert ValueRoots(s) == [0] && LvalRoots(StmtLhs(s)) == [] && DelayRoots(s) == [];
    assert StmtRoots(s) == [0];
    assert ListReads(a, [], 1) == {} && ListReads(a, [0], 1) == Reads(a, 0) == {};
    assert Calls(a, 0) == [f] + ListCalls(a, [], 0) == [f];
    assert ListCalls(a, [0], 1) == [f] + ListCalls(a, [0][1..], 1) == [f];
    CalledHolds(own, [f], f);
    assert n in StmtNeeds(a, s, own);
    DecidesExactly(a, s, own);
  }
}
