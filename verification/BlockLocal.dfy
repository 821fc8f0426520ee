/** Which declaring blocks of a name get a scope of their own: the joint classifier over source spans, the
    generate branches that can coexist, and the feed of one more body. */
module BlockLocal {
  import opened Sequences

  type Span = (nat, nat)

  /** Why a declaring block was admitted. */
  datatype Reason = Reason(widened: bool, shadows: bool, staticInit: bool, staticPlain: bool)

  datatype Decl = Decl(span: Span, reason: Reason)

  /** The generate decisions above a block, each with the arm the block is in. */
  type Branch = seq<(nat, nat)>

  /** A body to be fed: its own span, the branch it is in, and what it declares by name. */
  datatype Body = Body(span: Span, branch: Branch, decls: map<string, seq<Decl>>)

  // ---- branches ----

  predicate Disagree(x: (nat, nat), y: (nat, nat)) { x.0 == y.0 && x.1 != y.1 }

  predicate BranchesCoexist(a: Branch, b: Branch) {
    !exists x, y :: x in a && y in b && Disagree(x, y)
  }

  /** A choice of one arm for every decision, and a block it elaborates. */
  predicate Elaborates(choice: nat -> nat, a: Branch) { forall x :: x in a ==> choice(x.0) == x.1 }

  predicate Consistent(a: Branch) { BranchesCoexist(a, a) }

  /** The arm a branch asks for at a decision. */
  function Asked(a: Branch, d: nat): nat {
    if a == [] then 0 else if a[0].0 == d then a[0].1 else Asked(a[1..], d)
  }

  lemma {:induction false} AskedIs(a: Branch, x: (nat, nat))
    requires Consistent(a) && x in a
    ensures Asked(a, x.0) == x.1
  {
    assert !Disagree(a[0], x);
    if a[0].0 != x.0 {
      assert a == [a[0]] + a[1..] && x in a[1..];
      assert Consistent(a[1..]);
      AskedIs(a[1..], x);
    }
  }

  /** Two branches coexist exactly when some choice of arms elaborates both. */
  lemma {:induction false} CoexistMeans(a: Branch, b: Branch)
    requires Consistent(a) && Consistent(b)
    ensures BranchesCoexist(a, b) <==> exists choice: nat -> nat :: Elaborates(choice, a) && Elaborates(choice, b)
  {
    if BranchesCoexist(a, b) {
      var c := a + b;
      assert Consistent(c) by {
        forall x, y | x in c && y in c ensures !Disagree(x, y) {
          if x in b && y in a { assert !Disagree(y, x); }
        }
      }
      var choice := d => Asked(c, d);
      forall x | x in c ensures choice(x.0) == x.1 { AskedIs(c, x); }
      assert Elaborates(choice, a) && Elaborates(choice, b);
    }
    if choice: nat -> nat :| Elaborates(choice, a) && Elaborates(choice, b) {
      assert forall x, y :: x in a && y in b ==> !Disagree(x, y);
    }
  }

  // ---- the gather ----

  datatype Gather = Gather(decls: map<string, seq<Decl>>, branchOf: map<Span, Branch>)

  function DeclsOf(g: Gather, name: string): seq<Decl> { if name in g.decls then g.decls[name] else [] }

  function BodyDecls(b: Body, name: string): seq<Decl> { if name in b.decls then b.decls[name] else [] }

  /** The spans a body declares, under any name. */
  function SpansOf(b: Body): set<Span> {
    set n, d | n in b.decls && d in b.decls[n] :: d.span
  }

  /** Feed a body: its declarations come after those gathered, and a span keeps the branch it first had. */
  function Feed(g: Gather, b: Body): Gather {
    Gather(map n | n in g.decls.Keys + b.decls.Keys :: DeclsOf(g, n) + BodyDecls(b, n),
           (map s | s in SpansOf(b) :: b.branch) + g.branchOf)
  }

  function FeedAll(bodies: seq<Body>): Gather {
    if bodies == [] then Gather(map[], map[]) else Feed(FeedAll(bodies[..|bodies| - 1]), bodies[|bodies| - 1])
  }

  // ---- the classifier ----

  predicate Contains(outer: Span, inner: Span) { outer.0 <= inner.0 && inner.1 <= outer.1 && outer != inner }

  predicate Nest(a: Span, b: Span) { Contains(a, b) || Contains(b, a) }

  predicate Coexist(g: Gather, a: Span, b: Span) {
    a in g.branchOf && b in g.branchOf ==> BranchesCoexist(g.branchOf[a], g.branchOf[b])
  }

  predicate ShadowsOnly(all: seq<Decl>) { forall d :: d in all ==> d.reason.shadows && d.reason.widened }

  predicate InitsOnly(all: seq<Decl>) {
    forall d :: d in all ==> d.reason.staticInit && d.reason.widened && !d.reason.shadows
  }

  predicate StaticsOnly(all: seq<Decl>) {
    forall d :: d in all ==> (d.reason.staticInit || d.reason.staticPlain) && d.reason.widened && !d.reason.shadows
  }

  /** A name all of whose declarations are static is exempt from the first filter. */
  predicate WideningExempt(all: seq<Decl>) { ShadowsOnly(all) || StaticsOnly(all) }

  /** One all of whose declarations are static shadows, or all initialised, from the second as well. */
  predicate NestingExempt(all: seq<Decl>) { ShadowsOnly(all) || InitsOnly(all) }

  /** A widened block around another declaring block is no candidate, unless every block is a static one. */
  predicate PassesWidening(all: seq<Decl>, d: Decl) {
    WideningExempt(all) || !d.reason.widened || !exists e :: e in all && Contains(d.span, e.span)
  }

  /** What the elements that qualify stand for, in order. */
  function Pick<T, U>(part: seq<T>, keep: T -> bool, val: T -> U): seq<U> {
    if part == [] then []
    else Pick(part[..|part| - 1], keep, val) + if keep(part[|part| - 1]) then [val(part[|part| - 1])] else []
  }

  function SpanOf(d: Decl): Span { d.span }

  function Widened(all: seq<Decl>): seq<Span> { Pick(all, d => PassesWidening(all, d), SpanOf) }

  /** A block nested with another candidate that can exist beside it is no candidate. */
  predicate PassesNesting(g: Gather, all: seq<Decl>, spans: seq<Span>, a: Span) {
    NestingExempt(all) || !exists b :: b in spans && a != b && Nest(a, b) && Coexist(g, a, b)
  }

  function Same(a: Span): Span { a }

  function Unnested(g: Gather, all: seq<Decl>, spans: seq<Span>): seq<Span> {
    Pick(spans, a => PassesNesting(g, all, spans, a), Same)
  }

  /** The blocks that get a scope for the name: two at least, or one when the name shadows the module's. */
  function Kept(g: Gather, mod: set<string>, name: string): seq<Span> {
    var all := DeclsOf(g, name);
    var spans := Widened(all);
    var kept := Unnested(g, all, spans);
    if (|spans| < 2 || |kept| < 2) && name !in mod then [] else kept
  }

  /** The scoped names of each block, by where the block starts. */
  predicate IsScoped(g: Gather, mod: set<string>, lo: nat, name: string) {
    lo in StartsOf(Kept(g, mod, name))
  }

  // ---- the filters as they run ----

  method FilterWidened(all: seq<Decl>) returns (spans: seq<Span>)
    ensures spans == Widened(all)
  {
    hide PassesWidening;
    ghost var keep := d => PassesWidening(all, d);
    spans := [];
    for k := 0 to |all|
      invariant spans == Pick(all[..k], keep, SpanOf)
    {
      assert all[..k + 1][..k] == all[..k];
      if PassesWidening(all, all[k]) { spans := spans + [all[k].span]; }
    }
    assert all[..|all|] == all;
    PickSame(all, keep, d => PassesWidening(all, d), SpanOf);
  }

  method FilterNested(g: Gather, all: seq<Decl>, spans: seq<Span>) returns (kept: seq<Span>)
    ensures kept == Unnested(g, all, spans)
  {
    hide PassesNesting;
    ghost var keep := a => PassesNesting(g, all, spans, a);
    kept := [];
    for k := 0 to |spans|
      invariant kept == Pick(spans[..k], keep, Same)
    {
      assert spans[..k + 1][..k] == spans[..k];
      if PassesNesting(g, all, spans, spans[k]) { kept := kept + [spans[k]]; }
    }
    assert spans[..|spans|] == spans;
    PickSame(spans, keep, a => PassesNesting(g, all, spans, a), Same);
  }

  lemma {:induction false} PickSame<T, U>(part: seq<T>, keep: T -> bool, kept: T -> bool, val: T -> U)
    requires forall x :: x in part ==> keep(x) == kept(x)
    ensures Pick(part, keep, val) == Pick(part, kept, val)
  {
    if part != [] {
      assert part == part[..|part| - 1] + [part[|part| - 1]];
      PickSame(part[..|part| - 1], keep, kept, val);
    }
  }

  lemma {:induction false} PickHolds<T, U>(part: seq<T>, keep: T -> bool, val: T -> U, u: U)
    ensures u in Pick(part, keep, val) <==> exists x :: x in part && keep(x) && val(x) == u
  {
    if part != [] {
      var front, last := part[..|part| - 1], part[|part| - 1];
      assert part == front + [last];
      PickHolds(front, keep, val, u);
    }
  }

  type ScopeMap = map<nat, set<string>>

  predicate Holds(m: ScopeMap, lo: nat, name: string) { lo in m && name in m[lo] }

  function StartsOf(spans: seq<Span>): set<nat> { set a | a in spans :: a.0 }

  method AddSpans(m0: ScopeMap, spans: seq<Span>, name: string) returns (m: ScopeMap)
    ensures forall lo: nat, n: string :: Holds(m, lo, n) <==> Holds(m0, lo, n) || (n == name && lo in StartsOf(spans))
  {
    m := m0;
    for k := 0 to |spans|
      invariant forall lo: nat, n: string ::
        Holds(m, lo, n) <==> Holds(m0, lo, n) || (n == name && lo in StartsOf(spans[..k]))
    {
      var at := spans[k].0;
      assert StartsOf(spans[..k + 1]) == StartsOf(spans[..k]) + {at} by {
        assert spans[..k + 1] == spans[..k] + [spans[k]];
      }
      var was := m;
      m := m[at := (if at in m then m[at] else {}) + {name}];
      assert forall lo: nat, n: string :: Holds(m, lo, n) <==> Holds(was, lo, n) || (lo == at && n == name);
    }
    assert spans[..|spans|] == spans;
  }

  /** The classification of everything gathered. */
  method Classify(g: Gather, mod: set<string>) returns (m: ScopeMap)
    ensures forall lo: nat, n: string :: Holds(m, lo, n) <==> IsScoped(g, mod, lo, n)
  {
    hide Widened, Unnested;
    m := map[];
    var todo := g.decls.Keys;
    while todo != {}
      invariant todo <= g.decls.Keys
      invariant forall lo: nat, n: string :: Holds(m, lo, n) <==> n in g.decls && n !in todo && IsScoped(g, mod, lo, n)
      decreases |todo|
    {
      var name :| name in todo;
      todo := todo - {name};
      var all := g.decls[name];
      var spans := FilterWidened(all);
      if |spans| < 2 && name !in mod {
        continue;
      }
      var kept := FilterNested(g, all, spans);
      if |kept| < 2 && name !in mod {
        continue;
      }
      assert kept == Kept(g, mod, name);
      m := AddSpans(m, kept, name);
    }
    forall lo: nat, n: string | IsScoped(g, mod, lo, n) ensures n in g.decls { Undeclared(g, mod, n); }
  }

  lemma Undeclared(g: Gather, mod: set<string>, name: string)
    ensures name !in g.decls ==> Kept(g, mod, name) == []
  {
  }

  // ---- two kept blocks never nest while both can exist ----

  lemma {:induction false} KeptHolds(g: Gather, mod: set<string>, name: string, a: Span)
    requires a in Kept(g, mod, name)
    ensures var all := DeclsOf(g, name); a in Widened(all) && PassesNesting(g, all, Widened(all), a)
  {
    hide PassesNesting, Widened;
    var all := DeclsOf(g, name);
    PickHolds(Widened(all), x => PassesNesting(g, all, Widened(all), x), Same, a);
  }

  /** Unless every declaration of the name is a static shadow, or every one a static initialised one, no
      choice of generate arms elaborates two kept blocks of which one lies within the other. */
  lemma {:induction false} NoKeptNesting(g: Gather, mod: set<string>, name: string, a: Span, b: Span)
    requires !ShadowsOnly(DeclsOf(g, name)) && !InitsOnly(DeclsOf(g, name))
    requires a in Kept(g, mod, name) && b in Kept(g, mod, name) && Nest(a, b)
    ensures a in g.branchOf && b in g.branchOf && !BranchesCoexist(g.branchOf[a], g.branchOf[b])
    ensures Consistent(g.branchOf[a]) && Consistent(g.branchOf[b]) ==>
      !exists choice: nat -> nat :: Elaborates(choice, g.branchOf[a]) && Elaborates(choice, g.branchOf[b])
  {
    hide Widened, BranchesCoexist, Elaborates, Kept;
    KeptHolds(g, mod, name, a);
    KeptHolds(g, mod, name, b);
    if Consistent(g.branchOf[a]) && Consistent(g.branchOf[b]) {
      CoexistMeans(g.branchOf[a], g.branchOf[b]);
    }
  }

  // ---- the order in which bodies are fed does not matter ----

  lemma {:induction false} PickAppend<T, U>(x: seq<T>, y: seq<T>, keep: T -> bool, val: T -> U)
    ensures Pick(x + y, keep, val) == Pick(x, keep, val) + Pick(y, keep, val)
  {
    if y == [] {
      assert x + y == x;
    } else {
      assert (x + y)[..|x + y| - 1] == x + y[..|y| - 1];
      PickAppend(x, y[..|y| - 1], keep, val);
    }
  }

  /** Reordering what is picked from reorders what is picked. */
  lemma {:induction false} PickBag<T, U>(x: seq<T>, y: seq<T>, keep: T -> bool, val: T -> U)
    requires multiset(x) == multiset(y)
    ensures multiset(Pick(x, keep, val)) == multiset(Pick(y, keep, val))
  {
    if x == [] {
      assert |multiset(y)| == 0;
    } else {
      var front, last := x[..|x| - 1], x[|x| - 1];
      var l, r := TakeOut(x, y);
      PickBag(front, l + r, keep, val);
      PickAppend(l, r, keep, val);
      PickAppend(l, [last], keep, val);
      PickAppend(l + [last], r, keep, val);
      PickOne(last, keep, val);
    }
  }

  lemma PickOne<T, U>(t: T, keep: T -> bool, val: T -> U)
    ensures Pick([t], keep, val) == if keep(t) then [val(t)] else []
  {
    assert [t][..0] == [];
  }

  /** Gathers that hold the same, whatever the order. */
  ghost predicate SameGather(g: Gather, h: Gather) {
    g.branchOf == h.branchOf && forall n :: multiset(DeclsOf(g, n)) == multiset(DeclsOf(h, n))
  }

  lemma PassesSame(all: seq<Decl>, other: seq<Decl>)
    requires forall d :: d in all <==> d in other
    ensures forall d :: PassesWidening(all, d) <==> PassesWidening(other, d)
    ensures ShadowsOnly(all) == ShadowsOnly(other) && InitsOnly(all) == InitsOnly(other)
  {
  }

  lemma {:induction false} WidenedBag(all: seq<Decl>, other: seq<Decl>)
    requires multiset(all) == multiset(other)
    ensures multiset(Widened(all)) == multiset(Widened(other))
  {
    hide PassesWidening;
    SameMembers(all, other);
    PassesSame(all, other);
    PickBag(all, other, d => PassesWidening(all, d), SpanOf);
    PickSame(other, d => PassesWidening(all, d), d => PassesWidening(other, d), SpanOf);
  }

  lemma NestingSame(g: Gather, h: Gather, x: seq<Decl>, y: seq<Decl>, p: seq<Span>, q: seq<Span>)
    requires g.branchOf == h.branchOf && ShadowsOnly(x) == ShadowsOnly(y) && InitsOnly(x) == InitsOnly(y)
    requires forall a :: a in p <==> a in q
    ensures forall a :: PassesNesting(g, x, p, a) <==> PassesNesting(h, y, q, a)
  {
    hide ShadowsOnly, InitsOnly, Nest, BranchesCoexist;
  }

  lemma {:induction false} UnnestedBag(g: Gather, h: Gather, x: seq<Decl>, y: seq<Decl>, p: seq<Span>, q: seq<Span>)
    requires g.branchOf == h.branchOf && multiset(x) == multiset(y) && multiset(p) == multiset(q)
    ensures multiset(Unnested(g, x, p)) == multiset(Unnested(h, y, q))
  {
    hide PassesNesting, PassesWidening, ShadowsOnly, InitsOnly;
    SameMembers(x, y);
    PassesSame(x, y);
    SameMembers(p, q);
    NestingSame(g, h, x, y, p, q);
    PickBag(p, q, a => PassesNesting(g, x, p, a), Same);
    PickSame(q, a => PassesNesting(g, x, p, a), a => PassesNesting(h, y, q, a), Same);
  }

  lemma {:induction false} KeptBag(g: Gather, h: Gather, mod: set<string>, name: string)
    requires SameGather(g, h)
    ensures multiset(Kept(g, mod, name)) == multiset(Kept(h, mod, name))
  {
    hide Widened, Unnested, DeclsOf;
    var x, y := DeclsOf(g, name), DeclsOf(h, name);
    WidenedBag(x, y);
    UnnestedBag(g, h, x, y, Widened(x), Widened(y));
    SameMembers(Widened(x), Widened(y));
    SameMembers(Unnested(g, x, Widened(x)), Unnested(h, y, Widened(y)));
  }

  /** A span two bodies declare lies under one branch; so it is when their spans are disjoint. */
  predicate OneBranch(bodies: seq<Body>) {
    forall b, c :: b in bodies && c in bodies && !(SpansOf(b) !! SpansOf(c)) ==> b.branch == c.branch
  }

  lemma {:induction false} FedBranch(bodies: seq<Body>)
    requires OneBranch(bodies)
    ensures forall s :: s in FeedAll(bodies).branchOf <==> exists b :: b in bodies && s in SpansOf(b)
    ensures forall b, s :: b in bodies && s in SpansOf(b) ==> FeedAll(bodies).branchOf[s] == b.branch
  {
    hide SpansOf, Feed;
    if bodies != [] {
      var front, last := bodies[..|bodies| - 1], bodies[|bodies| - 1];
      assert bodies == front + [last];
      FedBranch(front);
      FeedBranch(FeedAll(front), last);
      forall b, s | b in bodies && s in SpansOf(b) ensures FeedAll(bodies).branchOf[s] == b.branch {
        if s in FeedAll(front).branchOf {
          var c :| c in front && s in SpansOf(c);
          assert c in bodies && !(SpansOf(b) !! SpansOf(c));
        }
      }
    }
  }

  lemma FeedBranch(g: Gather, b: Body)
    ensures forall s :: s in Feed(g, b).branchOf <==> s in g.branchOf || s in SpansOf(b)
    ensures forall s :: s in Feed(g, b).branchOf ==>
      Feed(g, b).branchOf[s] == if s in g.branchOf then g.branchOf[s] else b.branch
  {
    hide SpansOf;
  }

  function BodiesDecls(bodies: seq<Body>, name: string): seq<Decl> {
    if bodies == [] then [] else BodiesDecls(bodies[..|bodies| - 1], name) + BodyDecls(bodies[|bodies| - 1], name)
  }

  lemma {:induction false} FedDecls(bodies: seq<Body>, name: string)
    ensures DeclsOf(FeedAll(bodies), name) == BodiesDecls(bodies, name)
  {
    if bodies != [] { FedDecls(bodies[..|bodies| - 1], name); }
  }

  lemma {:induction false} BodiesAppend(x: seq<Body>, y: seq<Body>, name: string)
    ensures BodiesDecls(x + y, name) == BodiesDecls(x, name) + BodiesDecls(y, name)
  {
    if y == [] {
      assert x + y == x;
    } else {
      assert (x + y)[..|x + y| - 1] == x + y[..|y| - 1];
      BodiesAppend(x, y[..|y| - 1], name);
    }
  }

  lemma {:induction false} BodiesBag(x: seq<Body>, y: seq<Body>, name: string)
    requires multiset(x) == multiset(y)
    ensures multiset(BodiesDecls(x, name)) == multiset(BodiesDecls(y, name))
  {
    hide BodyDecls;
    if x == [] {
      assert |multiset(y)| == 0;
    } else {
      var front, last := x[..|x| - 1], x[|x| - 1];
      var l, r := TakeOut(x, y);
      BodiesBag(front, l + r, name);
      BodiesAppend(l, r, name);
      BodiesAppend(l, [last], name);
      BodiesAppend(l + [last], r, name);
      assert [last][..0] == [] && BodiesDecls([last], name) == BodiesDecls([], name) + BodyDecls(last, name);
    }
  }

  /** Feeding the same bodies in any order classifies every block the same way. */
  lemma {:induction false} OrderIsIrrelevant(x: seq<Body>, y: seq<Body>, mod: set<string>, lo: nat, name: string)
    requires multiset(x) == multiset(y) && OneBranch(x)
    ensures IsScoped(FeedAll(x), mod, lo, name) <==> IsScoped(FeedAll(y), mod, lo, name)
  {
    hide FeedAll, Kept, SpansOf, DeclsOf;
    var g, h := FeedAll(x), FeedAll(y);
    SameMembers(x, y);
    FedBranch(x);
    FedBranch(y);
    assert g.branchOf.Keys == h.branchOf.Keys;
    assert g.branchOf == h.branchOf by {
      forall s | s in g.branchOf ensures g.branchOf[s] == h.branchOf[s] {
        var b :| b in x && s in SpansOf(b);
        assert b in y;
      }
    }
    forall n ensures multiset(DeclsOf(g, n)) == multiset(DeclsOf(h, n)) {
      FedDecls(x, n);
      FedDecls(y, n);
      BodiesBag(x, y, n);
    }
    KeptBag(g, h, mod, name);
    SameMembers(Kept(g, mod, name), Kept(h, mod, name));
  }

  // ---- feeding one more body on demand ----

  class Scoper {
    const mod: set<string>
    var fed: set<Span>
    var gather: Gather
    var scoped: ScopeMap

    constructor (m: set<string>)
      ensures mod == m && fed == {} && gather == Gather(map[], map[]) && scoped == map[]
    {
      mod, fed, gather, scoped := m, {}, Gather(map[], map[]), map[];
    }

    /** Gather the body, classify everything jointly, and take over what lies inside the body's own span. */
    method FeedBody(b: Body)
      modifies this
      ensures fed == old(fed) + {b.span}
      ensures b.span in old(fed) ==> gather == old(gather) && scoped == old(scoped)
      ensures b.span !in old(fed) ==>
        gather == Feed(old(gather), b)
        && forall lo: nat, n: string ::
          Holds(scoped, lo, n) <==>
            Holds(old(scoped), lo, n) || (b.span.0 <= lo <= b.span.1 && IsScoped(Feed(old(gather), b), mod, lo, n))
    {
      hide Feed, IsScoped;
      if b.span in fed {
        return;
      }
      fed := fed + {b.span};
      gather := Feed(gather, b);
      var joint := Classify(gather, mod);
      var was := scoped;
      scoped := map lo | lo in was.Keys + joint.Keys ::
        (if lo in was then was[lo] else {})
        + (if lo in joint && b.span.0 <= lo <= b.span.1 then joint[lo] else {});
    }
  }

  /** The joint classification by itself can withdraw a scope outside the body: a nesting of two static
      initialised declarations has both scoped until an automatic one of that name is fed. */
  lemma ClassifierCanWithdraw()
    ensures var init, auto := Reason(true, false, true, false), Reason(false, false, false, false);
      var outer, inner, other := (0, 10), (2, 5), (20, 30);
      var first := Body((0, 12), [], map["x" := [Decl(outer, init), Decl(inner, init)]]);
      var second := Body((20, 30), [], map["x" := [Decl(other, auto)]]);
      outer in Kept(FeedAll([first]), {}, "x") && outer !in Kept(FeedAll([first, second]), {}, "x")
  {
    var init, auto := Reason(true, false, true, false), Reason(false, false, false, false);
    var outer: Span, inner: Span, other: Span := (0, 10), (2, 5), (20, 30);
    var x, y, z := Decl(outer, init), Decl(inner, init), Decl(other, auto);
    var first := Body((0, 12), [], map["x" := [x, y]]);
    var second := Body((20, 30), [], map["x" := [z]]);
    TwoBodies(first, second);
    FedDecls([first], "x");
    OneBodyDecls(first, "x");
    FeedDecls(FeedAll([first]), second, "x");
    assert [x, y] + [z] == [x, y, z];
    KeepsBoth(FeedAll([first]), x, y);
    Withdrawn(FeedAll([first, second]), x, y, z);
  }

  lemma Withdrawn(h: Gather, x: Decl, y: Decl, z: Decl)
    requires DeclsOf(h, "x") == [x, y, z] && Contains(x.span, y.span) && x.reason.widened && !z.reason.widened
    requires z.span != x.span
    ensures x.span !in Kept(h, {}, "x")
  {
    hide Kept, ShadowsOnly, StaticsOnly;
    assert x in [x, y, z] && y in [x, y, z] && z in [x, y, z];
    DropsOuter([x, y, z], x);
    if x.span in Kept(h, {}, "x") { KeptHolds(h, {}, "x", x.span); }
  }

  lemma TwoBodies(a: Body, b: Body)
    ensures FeedAll([a, b]) == Feed(FeedAll([a]), b)
  {
    assert [a, b][..1] == [a];
  }

  lemma OneBodyDecls(b: Body, name: string)
    ensures BodiesDecls([b], name) == BodyDecls(b, name)
  {
    assert [b][..0] == [];
    assert BodiesDecls([], name) == [];
  }

  lemma KeepsBoth(g: Gather, x: Decl, y: Decl)
    requires DeclsOf(g, "x") == [x, y] && InitsOnly([x, y])
    ensures Kept(g, {}, "x") == [x.span, y.span]
  {
    hide InitsOnly, StaticsOnly, BranchesCoexist, Widened;
    var all, spans := [x, y], [x.span] + [y.span];
    InitsAreStatics(all);
    WidensBoth(x, y);
    PickAppend([x.span], [y.span], a => PassesNesting(g, all, spans, a), Same);
    PickOne(x.span, a => PassesNesting(g, all, spans, a), Same);
    PickOne(y.span, a => PassesNesting(g, all, spans, a), Same);
  }

  lemma WidensBoth(x: Decl, y: Decl)
    requires StaticsOnly([x, y])
    ensures Widened([x, y]) == [x.span] + [y.span]
  {
    var all := [x, y];
    assert all == [x] + [y];
    PickAppend([x], [y], d => PassesWidening(all, d), SpanOf);
    PickOne(x, d => PassesWidening(all, d), SpanOf);
    PickOne(y, d => PassesWidening(all, d), SpanOf);
  }

  lemma InitsAreStatics(all: seq<Decl>)
    requires InitsOnly(all)
    ensures StaticsOnly(all)
  {
  }

  /** A widened outer block is dropped as soon as some declaration of the name is not static. */
  lemma DropsOuter(all: seq<Decl>, x: Decl)
    requires x in all && x.reason.widened && (exists e :: e in all && Contains(x.span, e.span))
    requires (exists e :: e in all && !e.reason.widened) && forall d :: d in all && d.span == x.span ==> d == x
    ensures x.span !in Widened(all)
  {
    PickHolds(all, d => PassesWidening(all, d), SpanOf, x.span);
  }

  // ---- when it cannot ----

  /** None of the new declarations lies within, or around, one gathered before. */
  predicate Apart(all: seq<Decl>, more: seq<Decl>) {
    forall d, e :: d in all && e in more ==> d.span != e.span && !Nest(d.span, e.span)
  }

  /** The exemptions for all-static names stand as they did. */
  predicate SameExemptions(all: seq<Decl>, more: seq<Decl>) {
    ShadowsOnly(all + more) == ShadowsOnly(all) && InitsOnly(all + more) == InitsOnly(all)
    && StaticsOnly(all + more) == StaticsOnly(all)
  }

  lemma NestsWhenContains(a: Span, b: Span)
    ensures Contains(a, b) ==> Nest(a, b) && Nest(b, a)
  {
  }

  /** New declarations elsewhere change no candidacy of the old ones. */
  lemma {:induction false} WidenedGrows(all: seq<Decl>, more: seq<Decl>)
    requires Apart(all, more) && SameExemptions(all, more)
    ensures Widened(all + more) == Widened(all) + Pick(more, d => PassesWidening(all + more, d), SpanOf)
  {
    hide ShadowsOnly, StaticsOnly, InitsOnly, Contains, Nest;
    forall d | d in all ensures PassesWidening(all, d) == PassesWidening(all + more, d) {
      forall e | e in all + more && Contains(d.span, e.span) ensures e in all {
        NestsWhenContains(d.span, e.span);
      }
    }
    PickSame(all, d => PassesWidening(all, d), d => PassesWidening(all + more, d), SpanOf);
    PickAppend(all, more, d => PassesWidening(all + more, d), SpanOf);
  }

  ghost predicate BranchesKept(g: Gather, h: Gather, spans: seq<Span>) {
    forall s :: s in spans ==> s in g.branchOf && s in h.branchOf && h.branchOf[s] == g.branchOf[s]
  }

  lemma {:induction false} UnnestedGrows(g: Gather, h: Gather, all: seq<Decl>, both: seq<Decl>, x: seq<Span>, y: seq<Span>)
    requires ShadowsOnly(all) == ShadowsOnly(both) && InitsOnly(all) == InitsOnly(both)
    requires BranchesKept(g, h, x) && forall a, b :: a in x && b in y ==> !Nest(a, b)
    ensures Unnested(h, both, x + y)
         == Unnested(g, all, x) + Pick(y, a => PassesNesting(h, both, x + y, a), Same)
  {
    hide ShadowsOnly, InitsOnly, BranchesCoexist, Nest;
    forall a | a in x ensures PassesNesting(g, all, x, a) == PassesNesting(h, both, x + y, a) {
      forall b | b in x + y && Nest(a, b) ensures b in x {}
      forall b | b in x ensures Coexist(g, a, b) == Coexist(h, a, b) {}
    }
    PickSame(x, a => PassesNesting(g, all, x, a), a => PassesNesting(h, both, x + y, a), Same);
    PickAppend(x, y, a => PassesNesting(h, both, x + y, a), Same);
  }

  lemma {:induction false} PickedFrom(part: seq<Decl>, keep: Decl -> bool, a: Span)
    requires a in Pick(part, keep, SpanOf)
    ensures exists d :: d in part && d.span == a
  {
    PickHolds(part, keep, SpanOf, a);
  }

  /** A body whose declarations nest with none gathered before, and which leaves the all-static exemptions of
      the name as they were, can only add scopes. */
  lemma {:induction false} FeedOnlyAdds(g: Gather, b: Body, mod: set<string>, name: string, a: Span)
    requires Apart(DeclsOf(g, name), BodyDecls(b, name)) && SameExemptions(DeclsOf(g, name), BodyDecls(b, name))
    requires forall d :: d in DeclsOf(g, name) ==> d.span in g.branchOf
    requires a in Kept(g, mod, name)
    ensures a in Kept(Feed(g, b), mod, name)
  {
    hide Widened, Unnested, ShadowsOnly, InitsOnly, StaticsOnly, PassesWidening, PassesNesting, Nest, SpansOf;
    var all, more, h := DeclsOf(g, name), BodyDecls(b, name), Feed(g, b);
    FeedDecls(g, b, name);
    FeedBranch(g, b);
    var later := Pick(more, d => PassesWidening(all + more, d), SpanOf);
    WidenedGrows(all, more);
    forall s | s in Widened(all) ensures s in g.branchOf && exists d :: d in all && d.span == s {
      WidenedFrom(all, s);
    }
    forall x, y | x in Widened(all) && y in later ensures !Nest(x, y) {
      PickedFrom(more, d => PassesWidening(all + more, d), y);
    }
    UnnestedGrows(g, h, all, all + more, Widened(all), later);
  }

  // ---- when it does ----

  /** The first exemption is lost, and the block is around another that was there before. */
  predicate Uncovered(all: seq<Decl>, both: seq<Decl>, a: Span) {
    WideningExempt(all) && !WideningExempt(both) && exists e :: e in all && Contains(a, e.span)
  }

  /** Only the second exemption is lost, and the block nests with another that was there before and can exist
      beside it. */
  predicate Unshielded(g: Gather, all: seq<Decl>, both: seq<Decl>, a: Span) {
    NestingExempt(all) && !NestingExempt(both) && WideningExempt(both)
    && exists e :: e in all && Nest(a, e.span) && Coexist(g, a, e.span)
  }

  /** Every candidate left, and too few for a name the module does not have. */
  predicate BelowFloor(h: Gather, mod: set<string>, name: string) {
    var all := DeclsOf(h, name);
    name !in mod && |Unnested(h, all, Widened(all))| < 2
  }

  lemma ExemptionsShrink(all: seq<Decl>, more: seq<Decl>)
    ensures WideningExempt(all + more) ==> WideningExempt(all)
    ensures NestingExempt(all + more) ==> NestingExempt(all)
    ensures NestingExempt(all) ==> WideningExempt(all)
    ensures WideningExempt(all) ==> forall d :: d in all ==> d.reason.widened
  {
    assert forall d :: d in all ==> d in all + more;
  }

  lemma WidenedHolds(all: seq<Decl>, a: Span)
    ensures a in Widened(all) <==> exists d :: d in all && PassesWidening(all, d) && d.span == a
  {
    PickHolds(all, d => PassesWidening(all, d), SpanOf, a);
  }

  lemma {:induction false} OldPasses(all: seq<Decl>, more: seq<Decl>, d: Decl)
    requires Apart(all, more) && d in all
    ensures PassesWidening(all + more, d) <==> PassesWidening(all, d) && !Uncovered(all, all + more, d.span)
  {
    hide WideningExempt, NestingExempt, Contains, Nest;
    ExemptionsShrink(all, more);
    forall e | e in all + more && Contains(d.span, e.span) ensures e in all { NestsWhenContains(d.span, e.span); }
    forall e | e in all ensures e in all + more {}
  }

  lemma {:induction false} OldWidened(all: seq<Decl>, more: seq<Decl>, a: Span)
    requires Apart(all, more) && a in Widened(all)
    ensures a in Widened(all + more) <==> !Uncovered(all, all + more, a)
  {
    hide PassesWidening, Uncovered, Widened, Nest;
    WidenedHolds(all, a);
    WidenedHolds(all + more, a);
    var d :| d in all && PassesWidening(all, d) && d.span == a;
    assert d in all + more;
    OldPasses(all, more, d);
    forall e | e in all + more && PassesWidening(all + more, e) && e.span == a ensures !Uncovered(all, all + more, a) {
      assert e in all;
      OldPasses(all, more, e);
    }
  }

  /** A candidate that nests with an old one is an old one, and was one. */
  lemma {:induction false} NestsWithOld(all: seq<Decl>, more: seq<Decl>, x: Decl, c: Span) returns (d: Decl)
    requires Apart(all, more) && x in all && Nest(x.span, c) && c in Widened(all + more)
    ensures d in all && d.span == c && PassesWidening(all + more, d) && c in Widened(all)
  {
    hide PassesWidening, Uncovered, Widened, Nest;
    WidenedHolds(all + more, c);
    d :| d in all + more && PassesWidening(all + more, d) && d.span == c;
    assert d in all;
    OldPasses(all, more, d);
    WidenedHolds(all, c);
  }

  /** With the first exemption lost, no two candidates of the old blocks nest. */
  lemma {:induction false} NoOldNesting(all: seq<Decl>, more: seq<Decl>, a: Span, c: Span)
    requires Apart(all, more) && WideningExempt(all) && !WideningExempt(all + more)
    requires a in Widened(all) && a in Widened(all + more) && c in Widened(all + more)
    ensures !Nest(a, c)
  {
    hide WideningExempt, Widened, Contains;
    if Nest(a, c) {
      WidenedHolds(all, a);
      var x :| x in all && x.span == a;
      var d := NestsWithOld(all, more, x, c);
      OldWidened(all, more, a);
      OldWidened(all, more, c);
    }
  }

  lemma {:induction false} OldUnnested(g: Gather, h: Gather, all: seq<Decl>, more: seq<Decl>, a: Span)
    requires Apart(all, more) && a in Widened(all) && a in Widened(all + more)
    requires PassesNesting(g, all, Widened(all), a)
    requires forall d :: d in all ==> d.span in g.branchOf && d.span in h.branchOf && h.branchOf[d.span] == g.branchOf[d.span]
    ensures PassesNesting(h, all + more, Widened(all + more), a) <==> !Unshielded(g, all, all + more, a)
  {
    hide WideningExempt, NestingExempt, Widened, Nest, BranchesCoexist, PassesWidening;
    var both := all + more;
    ExemptionsShrink(all, more);
    WidenedHolds(all, a);
    var x :| x in all && x.span == a;
    if Unshielded(g, all, both, a) {
      var e :| e in all && Nest(a, e.span) && Coexist(g, a, e.span);
      Exempted(both, e);
      assert Coexist(h, a, e.span);
      NestApart(a, e.span);
    } else if !PassesNesting(h, both, Widened(both), a) {
      var c :| c in Widened(both) && a != c && Nest(a, c) && Coexist(h, a, c);
      var d := NestsWithOld(all, more, x, c);
      assert Coexist(g, a, c);
      if WideningExempt(all) && !WideningExempt(both) { NoOldNesting(all, more, a, c); }
    }
  }

  lemma NestApart(a: Span, b: Span)
    ensures Nest(a, b) ==> a != b
  {
  }

  lemma Exempted(all: seq<Decl>, e: Decl)
    requires WideningExempt(all) && e in all
    ensures e.span in Widened(all)
  {
    WidenedHolds(all, e.span);
  }

  lemma {:induction false} PickIsShorter<T, U>(part: seq<T>, keep: T -> bool, val: T -> U)
    ensures |Pick(part, keep, val)| <= |part|
  {
    if part != [] { PickIsShorter(part[..|part| - 1], keep, val); }
  }

  lemma {:induction false} KeptExactly(g: Gather, mod: set<string>, name: string, a: Span)
    ensures var all := DeclsOf(g, name);
      a in Kept(g, mod, name) <==>
        a in Widened(all) && PassesNesting(g, all, Widened(all), a) && !BelowFloor(g, mod, name)
  {
    hide PassesNesting, Widened;
    var all := DeclsOf(g, name);
    PickHolds(Widened(all), x => PassesNesting(g, all, Widened(all), x), Same, a);
    PickIsShorter(Widened(all), x => PassesNesting(g, all, Widened(all), x), Same);
  }

  /** For a body whose declarations nest with none gathered before, a scope is withdrawn exactly when the feed
      costs the name an exemption under which the block was kept, or leaves too few candidates. */
  lemma {:induction false} WithdrawnExactly(g: Gather, b: Body, mod: set<string>, name: string, a: Span)
    requires Apart(DeclsOf(g, name), BodyDecls(b, name))
    requires forall d :: d in DeclsOf(g, name) ==> d.span in g.branchOf
    requires a in Kept(g, mod, name)
    ensures var all, both := DeclsOf(g, name), DeclsOf(g, name) + BodyDecls(b, name);
      a !in Kept(Feed(g, b), mod, name) <==>
        Uncovered(all, both, a) || Unshielded(g, all, both, a) || BelowFloor(Feed(g, b), mod, name)
  {
    hide Kept, Widened, PassesNesting, Uncovered, Unshielded, BelowFloor, SpansOf, Nest;
    var all, more, h := DeclsOf(g, name), BodyDecls(b, name), Feed(g, b);
    FeedDecls(g, b, name);
    FeedBranch(g, b);
    KeptExactly(g, mod, name, a);
    KeptExactly(h, mod, name, a);
    OldWidened(all, more, a);
    if a in Widened(all + more) { OldUnnested(g, h, all, more, a); }
  }

  lemma WidenedFrom(all: seq<Decl>, a: Span)
    requires a in Widened(all)
    ensures exists d :: d in all && d.span == a
  {
    PickedFrom(all, d => PassesWidening(all, d), a);
  }

  lemma FeedDecls(g: Gather, b: Body, name: string)
    ensures DeclsOf(Feed(g, b), name) == DeclsOf(g, name) + BodyDecls(b, name)
  {
  }

  // ---- which blocks get a scope, from the reasons and the spans alone ----

  /** `inner` lies within `outer`, and is not the same block. */
  predicate Within(inner: Span, outer: Span) { outer.0 <= inner.0 && inner.1 <= outer.1 && inner != outer }

  /** No generate decision puts the two blocks in different arms. */
  predicate Together(g: Gather, a: Span, b: Span) {
    a in g.branchOf && b in g.branchOf ==>
      forall x, y :: x in g.branchOf[a] && y in g.branchOf[b] && x.0 == y.0 ==> x.1 == y.1
  }

  /** One block is inside the other and both can exist. */
  predicate Clash(g: Gather, a: Span, b: Span) { (Within(a, b) || Within(b, a)) && Together(g, a, b) }

  /** A block that is not automatic may not have another declaring block inside it. */
  predicate Eligible(all: seq<Decl>, d: Decl) {
    d.reason.widened ==> forall e :: e in all ==> !Within(e.span, d.span)
  }

  /** What decides over a declaration depends on the kinds of all the declarations of the name: static shadows of a
      module name only, static initialised ones only, static ones with and without initialiser, or anything else. */
  predicate Earns(g: Gather, all: seq<Decl>, d: Decl) {
    if forall e :: e in all ==> e.reason.shadows && e.reason.widened then true
    else if forall e :: e in all ==> e.reason.staticInit && e.reason.widened && !e.reason.shadows then true
    else if forall e :: e in all ==> (e.reason.staticInit || e.reason.staticPlain) && e.reason.widened && !e.reason.shadows
    then forall e :: e in all ==> !Clash(g, d.span, e.span)
    else Eligible(all, d) && forall e :: e in all && Eligible(all, e) ==> !Clash(g, d.span, e.span)
  }

  lemma {:induction false} PassesEligible(all: seq<Decl>, d: Decl)
    requires d in all && !WideningExempt(all)
    ensures PassesWidening(all, d) <==> Eligible(all, d)
  {
  }

  lemma {:induction false} PassesNestingRaw(g: Gather, all: seq<Decl>, d: Decl)
    requires d in all && !NestingExempt(all)
    ensures PassesNesting(g, all, Widened(all), d.span)
       <==> forall e :: e in all && PassesWidening(all, e) ==> !Clash(g, d.span, e.span)
  {
    hide WideningExempt, NestingExempt, PassesWidening, Widened;
    forall e | e in all && PassesWidening(all, e) ensures e.span in Widened(all) { WidenedHolds(all, e.span); }
    forall b | b in Widened(all) ensures exists e :: e in all && PassesWidening(all, e) && e.span == b {
      WidenedHolds(all, b);
    }
    forall b: Span ensures Clash(g, d.span, b) <==> d.span != b && Nest(d.span, b) && Coexist(g, d.span, b) {
      ClashIs(g, d.span, b);
    }
  }

  lemma ClashIs(g: Gather, a: Span, b: Span)
    ensures Clash(g, a, b) <==> a != b && Nest(a, b) && Coexist(g, a, b)
  {
  }

  lemma {:induction false} EarnsIs(g: Gather, all: seq<Decl>, d: Decl)
    requires d in all
    ensures Earns(g, all, d) <==> PassesWidening(all, d) && PassesNesting(g, all, Widened(all), d.span)
  {
    hide Clash, Eligible, Widened, PassesNesting;
    if !NestingExempt(all) {
      PassesNestingRaw(g, all, d);
      if !WideningExempt(all) {
        forall e | e in all ensures PassesWidening(all, e) <==> Eligible(all, e) { PassesEligible(all, e); }
      }
    } else {
      ExemptPass(g, all, d.span);
    }
  }

  lemma ExemptPass(g: Gather, all: seq<Decl>, a: Span)
    requires NestingExempt(all)
    ensures PassesNesting(g, all, Widened(all), a) && WideningExempt(all)
  {
  }

  /** How many declarations earn a scope. */
  function Earning(g: Gather, all: seq<Decl>): seq<Decl> { Pick(all, d => Earns(g, all, d), d => d) }

  lemma {:induction false} PickTwice(part: seq<Decl>, first: Decl -> bool, second: Span -> bool, both: Decl -> bool)
    requires forall d :: d in part ==> (both(d) <==> first(d) && second(d.span))
    ensures Pick(Pick(part, first, SpanOf), second, Same) == Pick(part, both, SpanOf)
  {
    if part != [] {
      var front, last := part[..|part| - 1], part[|part| - 1];
      assert part == front + [last];
      PickTwice(front, first, second, both);
      if first(last) {
        PickAppend(Pick(front, first, SpanOf), [last.span], second, Same);
        PickOne(last.span, second, Same);
      } else {
        assert Pick(part, first, SpanOf) == Pick(front, first, SpanOf);
      }
    }
  }

  lemma {:induction false} PickCount(part: seq<Decl>, keep: Decl -> bool)
    ensures |Pick(part, keep, SpanOf)| == |Pick(part, keep, d => d)|
  {
    if part != [] { PickCount(part[..|part| - 1], keep); }
  }

  /** A name of the module scopes every declaration that earns it; another name only when two at least do. */
  lemma {:induction false} KeptAre(g: Gather, mod: set<string>, name: string)
    requires name in g.decls
    ensures var all := g.decls[name];
      Kept(g, mod, name)
      == if name in mod || |Earning(g, all)| >= 2 then Pick(all, d => Earns(g, all, d), SpanOf) else []
  {
    hide PassesWidening, PassesNesting, Earns;
    var all := g.decls[name];
    forall d | d in all
      ensures Earns(g, all, d) <==> PassesWidening(all, d) && PassesNesting(g, all, Widened(all), d.span)
    {
      EarnsIs(g, all, d);
    }
    PickTwice(all, d => PassesWidening(all, d), a => PassesNesting(g, all, Widened(all), a), d => Earns(g, all, d));
    PickCount(all, d => Earns(g, all, d));
    PickIsShorter(Widened(all), a => PassesNesting(g, all, Widened(all), a), Same);
  }

  /** The classification, block by block: a block starting at `lo` has a scope for the name exactly when one of the
      declarations there earns it, and the module has the name or a second declaration earns one as well. */
  lemma {:induction false} ScopedExactly(g: Gather, mod: set<string>, lo: nat, name: string)
    ensures IsScoped(g, mod, lo, name) <==>
      name in g.decls
      && (exists d :: d in g.decls[name] && d.span.0 == lo && Earns(g, g.decls[name], d))
      && (name in mod || |Earning(g, g.decls[name])| >= 2)
  {
    hide Earns;
    if name !in g.decls {
      Undeclared(g, mod, name);
    } else {
      var all := g.decls[name];
      KeptAre(g, mod, name);
      var picked := Pick(all, d => Earns(g, all, d), SpanOf);
      forall a ensures a in picked <==> exists d :: d in all && Earns(g, all, d) && d.span == a {
        PickHolds(all, d => Earns(g, all, d), SpanOf, a);
      }
    }
  }

  /** Static shadows of a module name all keep their scopes, nested or not, and so do two or more static
      initialised declarations of any name. */
  lemma {:induction false} StaticPairsStay(g: Gather, mod: set<string>, name: string, d: Decl)
    requires name in g.decls && d in g.decls[name]
    requires (forall e :: e in g.decls[name] ==> e.reason.shadows && e.reason.widened)
          || (forall e :: e in g.decls[name] ==> e.reason.staticInit && e.reason.widened && !e.reason.shadows)
    requires name in mod || |g.decls[name]| >= 2
    ensures IsScoped(g, mod, d.span.0, name)
  {
    var all := g.decls[name];
    forall e | e in all ensures Earns(g, all, e) {}
    PickAll(all, e => Earns(g, all, e));
    ScopedExactly(g, mod, d.span.0, name);
  }

  lemma {:induction false} PickAll(part: seq<Decl>, keep: Decl -> bool)
    requires forall d :: d in part ==> keep(d)
    ensures Pick(part, keep, d => d) == part
  {
    if part != [] {
      assert part == part[..|part| - 1] + [part[|part| - 1]];
      PickAll(part[..|part| - 1], keep);
    }
  }

  /** What is gathered under a name is what the bodies declare under it. */
  lemma {:induction false} GatheredIs(bodies: seq<Body>, name: string, d: Decl)
    ensures name in FeedAll(bodies).decls && d in FeedAll(bodies).decls[name]
       <==> exists b :: b in bodies && name in b.decls && d in b.decls[name]
  {
    if bodies != [] {
      var front, last := bodies[..|bodies| - 1], bodies[|bodies| - 1];
      assert bodies == front + [last];
      GatheredIs(front, name, d);
    }
  }
}
