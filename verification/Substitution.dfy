/** Substituting actuals for formals in an expression tree, and what it does to the tree's value. */
module Substitution {

  /** The kinds of node, operands aside. `Verbatim` stands for every kind the substitution copies whole. */
  datatype Kind =
    | Unary(op: nat) | Binary(op: nat) | Ternary
    | BitSelect | PartSelect | IndexedPart(up: bool)
    | Concat | Replicate | Call(name: string) | SysCall(name: string)
    | Paren | MinTypMax
    | Verbatim(what: nat)

  /** A name, of one segment or several, or a node over its operands in source order. */
  datatype Expr = Ident(segments: seq<string>) | Node(kind: Kind, kids: seq<Expr>)

  type Bindings = map<string, Expr>

  /** The formal an expression is, if it is a bare name bound by the map. */
  predicate IsFormal(e: Expr, b: Bindings) { e.Ident? && |e.segments| == 1 && e.segments[0] in b }

  function Subst(e: Expr, b: Bindings): Expr
    decreases e
  {
    if IsFormal(e, b) then b[e.segments[0]]
    else if e.Ident? || e.kind.Verbatim? then e
    else Node(e.kind, SubstAll(e.kids, b))
  }

  function SubstAll(es: seq<Expr>, b: Bindings): (r: seq<Expr>)
    ensures |r| == |es|
    decreases es
  {
    if es == [] then [] else [Subst(es[0], b)] + SubstAll(es[1..], b)
  }

  // ---- meaning ----

  /** What names and nodes mean, whatever that is. */
  datatype Sem<!V> = Sem(name: seq<string> -> V, node: (Kind, seq<V>) -> V)

  function Value<V>(s: Sem<V>, e: Expr): V
    decreases e
  {
    if e.Ident? then s.name(e.segments) else s.node(e.kind, Values(s, e.kids))
  }

  function Values<V>(s: Sem<V>, es: seq<Expr>): (vs: seq<V>)
    ensures |vs| == |es|
    decreases es
  {
    if es == [] then [] else [Value(s, es[0])] + Values(s, es[1..])
  }

  /** The environment in which each formal has its actual's value, taken in the environment outside. */
  function Bound<V>(s: Sem<V>, b: Bindings): Sem<V> {
    s.(name := segs => if |segs| == 1 && segs[0] in b then Value(s, b[segs[0]]) else s.name(segs))
  }

  /** Below a node that is copied whole, every formal is bound to itself: none stands there, as a rule. */
  predicate Reaches(e: Expr, b: Bindings)
    decreases e
  {
    if e.Ident? then true
    else if e.kind.Verbatim? then SettledAll(e.kids, b)
    else ReachesAll(e.kids, b)
  }

  predicate ReachesAll(es: seq<Expr>, b: Bindings)
    decreases es
  {
    es == [] || (Reaches(es[0], b) && ReachesAll(es[1..], b))
  }

  /** Every formal that occurs is bound to itself. */
  predicate Settled(e: Expr, b: Bindings)
    decreases e
  {
    if e.Ident? then IsFormal(e, b) ==> b[e.segments[0]] == e else SettledAll(e.kids, b)
  }

  predicate SettledAll(es: seq<Expr>, b: Bindings)
    decreases es
  {
    es == [] || (Settled(es[0], b) && SettledAll(es[1..], b))
  }

  lemma {:induction false} SettledValue<V>(s: Sem<V>, e: Expr, b: Bindings)
    requires Settled(e, b)
    ensures Value(Bound(s, b), e) == Value(s, e)
    decreases e
  {
    if e.Node? { SettledValues(s, e.kids, b); }
  }

  lemma {:induction false} SettledValues<V>(s: Sem<V>, es: seq<Expr>, b: Bindings)
    requires SettledAll(es, b)
    ensures Values(Bound(s, b), es) == Values(s, es)
    decreases es
  {
    if es != [] {
      SettledValue(s, es[0], b);
      SettledValues(s, es[1..], b);
    }
  }

  /** The substituted tree means what the tree means with each formal bound to its actual's value, all at
      once: an actual's own names are those outside, even when they are formals too. */
  lemma {:induction false} SubstMeans<V>(s: Sem<V>, e: Expr, b: Bindings)
    requires Reaches(e, b)
    ensures Value(s, Subst(e, b)) == Value(Bound(s, b), e)
    decreases e
  {
    if e.Node? {
      if e.kind.Verbatim? { SettledValues(s, e.kids, b); } else { SubstAllMeans(s, e.kids, b); }
    }
  }

  lemma {:induction false} SubstAllMeans<V>(s: Sem<V>, es: seq<Expr>, b: Bindings)
    requires ReachesAll(es, b)
    ensures Values(s, SubstAll(es, b)) == Values(Bound(s, b), es)
    decreases es
  {
    if es != [] {
      SubstMeans(s, es[0], b);
      SubstAllMeans(s, es[1..], b);
      assert SubstAll(es, b)[1..] == SubstAll(es[1..], b);
    }
  }

  // ---- when it means that ----

  /** The substituted tree has the bound meaning whatever names and nodes stand for, terms included. */
  ghost predicate MeansBound(e: Expr, b: Bindings) {
    forall s: Sem<Expr> :: Value(s, Subst(e, b)) == Value(Bound(s, b), e)
  }

  /** The meaning in which every tree stands for itself. */
  function Terms(): Sem<Expr> { Sem(segs => Ident(segs), (k, vs) => Node(k, vs)) }

  lemma {:induction false} TermValue(e: Expr)
    ensures Value(Terms(), e) == e
    decreases e
  {
    if e.Node? { TermValues(e.kids); }
  }

  lemma {:induction false} TermValues(es: seq<Expr>)
    ensures Values(Terms(), es) == es
    decreases es
  {
    if es != [] {
      TermValue(es[0]);
      TermValues(es[1..]);
    }
  }

  /** A tree is its own bound meaning only when its formals are bound to themselves. */
  lemma {:induction false} UnchangedSettles(e: Expr, b: Bindings)
    requires Value(Bound(Terms(), b), e) == e
    ensures Settled(e, b)
    decreases e
  {
    if e.Node? {
      UnchangedSettlesAll(e.kids, b);
    } else if IsFormal(e, b) {
      TermValue(b[e.segments[0]]);
    }
  }

  lemma {:induction false} UnchangedSettlesAll(es: seq<Expr>, b: Bindings)
    requires Values(Bound(Terms(), b), es) == es
    ensures SettledAll(es, b)
    decreases es
  {
    if es != [] {
      var vs := Values(Bound(Terms(), b), es);
      assert vs[0] == es[0] && vs[1..] == es[1..];
      UnchangedSettles(es[0], b);
      UnchangedSettlesAll(es[1..], b);
    }
  }

  lemma {:induction false} MeansReaches(e: Expr, b: Bindings)
    requires Value(Bound(Terms(), b), e) == Subst(e, b)
    ensures Reaches(e, b)
    decreases e
  {
    if e.Node? {
      if e.kind.Verbatim? { UnchangedSettlesAll(e.kids, b); } else { MeansReachesAll(e.kids, b); }
    }
  }

  lemma {:induction false} MeansReachesAll(es: seq<Expr>, b: Bindings)
    requires Values(Bound(Terms(), b), es) == SubstAll(es, b)
    ensures ReachesAll(es, b)
    decreases es
  {
    if es != [] {
      var vs, ts := Values(Bound(Terms(), b), es), SubstAll(es, b);
      assert vs[0] == ts[0] && vs[1..] == ts[1..];
      MeansReaches(es[0], b);
      MeansReachesAll(es[1..], b);
    }
  }

  /** For all actuals: the substitution has its meaning exactly when every formal below a node that is copied
      whole, a cast for instance, is bound to itself. */
  lemma {:induction false} SubstMeansExactly(e: Expr, b: Bindings)
    ensures MeansBound(e, b) <==> Reaches(e, b)
  {
    if Reaches(e, b) {
      forall s: Sem<Expr> ensures Value(s, Subst(e, b)) == Value(Bound(s, b), e) { SubstMeans(s, e, b); }
    }
    if MeansBound(e, b) {
      TermValue(Subst(e, b));
      assert Value(Terms(), Subst(e, b)) == Value(Bound(Terms(), b), e);
      MeansReaches(e, b);
    }
  }

  /** Swapping two formals swaps them: nothing is substituted twice. */
  lemma SwapSwaps()
    ensures var b := map["x" := Ident(["y"]), "y" := Ident(["x"])];
      Subst(Node(Binary(0), [Ident(["x"]), Ident(["y"])]), b) == Node(Binary(0), [Ident(["y"]), Ident(["x"])])
  {
    var b := map["x" := Ident(["y"]), "y" := Ident(["x"])];
    var es := [Ident(["x"]), Ident(["y"])];
    assert es[1..] == [Ident(["y"])] && es[1..][1..] == [];
    assert SubstAll(es[1..], b) == [Ident(["x"])];
    assert SubstAll(es, b) == [Ident(["y"]), Ident(["x"])];
  }
}
