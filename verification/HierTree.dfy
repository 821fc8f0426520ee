/** The hierarchy printer: an explicit stack that prints the recursive pre-order, for any instance table. */
module HierTree {
  import opened Wrappers
  import opened Sequences

  datatype Inst = Inst(path: string, mod: string, parent: Option<nat>)

  // ---- depths ----

  /** `d` steps up from `i` there is a root. */
  predicate DepthIs(t: seq<Inst>, i: nat, d: nat)
    decreases d
  {
    i < |t| && if d == 0 then t[i].parent.None? else t[i].parent.Some? && DepthIs(t, t[i].parent.value, d - 1)
  }

  lemma {:induction false} OneDepth(t: seq<Inst>, i: nat, d: nat, e: nat)
    requires DepthIs(t, i, d) && DepthIs(t, i, e)
    ensures d == e
    decreases d
  {
    if d > 0 { OneDepth(t, t[i].parent.value, d - 1, e - 1); }
  }

  /** The chain from an instance up to its root. */
  function Chain(t: seq<Inst>, i: nat, d: nat): (c: seq<nat>)
    requires DepthIs(t, i, d)
    ensures |c| == d + 1
    decreases d
  {
    (if d == 0 then [] else Chain(t, t[i].parent.value, d - 1)) + [i]
  }

  lemma {:induction false} ChainDepths(t: seq<Inst>, i: nat, d: nat, k: nat)
    requires DepthIs(t, i, d) && k <= d
    ensures DepthIs(t, Chain(t, i, d)[k], k)
    decreases d
  {
    if k < d { ChainDepths(t, t[i].parent.value, d - 1, k); }
  }

  /** A chain never comes back: even a table with cycles has none above a rooted instance. */
  lemma {:induction false} DepthBound(t: seq<Inst>, i: nat, d: nat)
    requires DepthIs(t, i, d)
    ensures d < |t|
  {
    var c := Chain(t, i, d);
    var all := UpTo(|t|);
    forall j, k | 0 <= j < k < |c| ensures c[j] != c[k] {
      ChainDepths(t, i, d, j);
      ChainDepths(t, i, d, k);
      if c[j] == c[k] { OneDepth(t, c[j], j, k); }
    }
    forall e | e in c ensures e in all {
      var k :| 0 <= k < |c| && c[k] == e;
      ChainDepths(t, i, d, k);
    }
    OnceFits(c, all);
  }

  // ---- the recursive pre-order ----

  /** The children of `i` among the first `n` instances, in table order. */
  function Children(t: seq<Inst>, i: nat, n: nat): (c: seq<nat>)
    requires n <= |t|
    ensures forall k: nat :: k in c <==> k < n && t[k].parent == Some(i)
    ensures Once(c)
  {
    if n == 0 then [] else Children(t, i, n - 1) + if t[n - 1].parent == Some(i) then [n - 1] else []
  }

  predicate ChildrenAt(t: seq<Inst>, c: seq<nat>, d: nat) {
    forall k :: 0 <= k < |c| ==> DepthIs(t, c[k], d)
  }

  lemma ChildrenDepth(t: seq<Inst>, i: nat, d: nat)
    requires DepthIs(t, i, d)
    ensures ChildrenAt(t, Children(t, i, |t|), d + 1)
  {
    var c := Children(t, i, |t|);
    forall k | 0 <= k < |c| ensures DepthIs(t, c[k], d + 1) {
      assert c[k] in c;
    }
  }

  /** An instance at its depth, then its children's trees in table order. */
  function PreOrder(t: seq<Inst>, i: nat, d: nat): seq<(nat, nat)>
    requires DepthIs(t, i, d)
    decreases |t| - d, 1, 0
  {
    DepthBound(t, i, d);
    ChildrenDepth(t, i, d);
    [(i, d)] + PreOrders(t, Children(t, i, |t|), d + 1)
  }

  function PreOrders(t: seq<Inst>, c: seq<nat>, d: nat): seq<(nat, nat)>
    requires ChildrenAt(t, c, d)
    decreases |t| - d, 2, |c|
  {
    if c == [] then []
    else
      assert DepthIs(t, c[0], d);
      assert ChildrenAt(t, c[1..], d) by { assert forall k :: 0 <= k < |c| - 1 ==> c[1..][k] == c[k + 1]; }
      PreOrder(t, c[0], d) + PreOrders(t, c[1..], d)
  }

  function Roots(t: seq<Inst>, n: nat): (r: seq<nat>)
    requires n <= |t|
    ensures forall k: nat :: k in r <==> k < n && t[k].parent.None?
    ensures Once(r) && ChildrenAt(t, r, 0)
  {
    if n == 0 then [] else Roots(t, n - 1) + if t[n - 1].parent.None? then [n - 1] else []
  }

  /** Everything the printer prints, in order, each instance with its depth. */
  function Order(t: seq<Inst>): seq<(nat, nat)> { PreOrders(t, Roots(t, |t|), 0) }

  // ---- the text ----

  /** The segment after the last dot. */
  function Leaf(path: string): string {
    if path == "" || path[|path| - 1] == '.' then "" else Leaf(path[..|path| - 1]) + [path[|path| - 1]]
  }

  function Indent(d: nat): string { if d == 0 then "" else Indent(d - 1) + "  " }

  function LineOf(t: seq<Inst>, p: (nat, nat)): string {
    if p.0 < |t| then Indent(p.1) + Leaf(t[p.0].path) + " : " + t[p.0].mod + "\n" else ""
  }

  function TextOf(t: seq<Inst>, order: seq<(nat, nat)>): string {
    if order == [] then "" else LineOf(t, order[0]) + TextOf(t, order[1..])
  }

  lemma {:induction false} TextAppend(t: seq<Inst>, x: seq<(nat, nat)>, y: seq<(nat, nat)>)
    ensures TextOf(t, x + y) == TextOf(t, x) + TextOf(t, y)
  {
    if x == [] {
      assert x + y == y;
    } else {
      assert (x + y)[1..] == x[1..] + y;
      TextAppend(t, x[1..], y);
    }
  }

  // ---- the explicit stack ----

  predicate StackAt(t: seq<Inst>, s: seq<(nat, nat)>) {
    forall k :: 0 <= k < |s| ==> DepthIs(t, s[k].0, s[k].1)
  }

  /** What a stack still stands for, its last entry first. */
  function Pending(t: seq<Inst>, s: seq<(nat, nat)>): seq<(nat, nat)>
    requires StackAt(t, s)
  {
    if s == [] then []
    else
      var front, top := s[..|s| - 1], s[|s| - 1];
      assert StackAt(t, front) && DepthIs(t, top.0, top.1);
      PreOrder(t, top.0, top.1) + Pending(t, front)
  }

  lemma {:induction false} PushOne(t: seq<Inst>, s: seq<(nat, nat)>, i: nat, d: nat)
    requires StackAt(t, s) && DepthIs(t, i, d)
    ensures StackAt(t, s + [(i, d)]) && Pending(t, s + [(i, d)]) == PreOrder(t, i, d) + Pending(t, s)
  {
    hide PreOrder;
    assert (s + [(i, d)])[..|s|] == s;
  }

  /** Push the children in reverse, so that the first comes off first. */
  method PushChildren(t: seq<Inst>, s: seq<(nat, nat)>, c: seq<nat>, d: nat) returns (r: seq<(nat, nat)>)
    requires StackAt(t, s) && ChildrenAt(t, c, d)
    ensures StackAt(t, r) && Pending(t, r) == PreOrders(t, c, d) + Pending(t, s)
  {
    hide PreOrder, Pending, DepthIs;
    r := s;
    var k := |c|;
    assert PreOrders(t, c[k..], d) + Pending(t, s) == Pending(t, s);
    while k > 0
      invariant 0 <= k <= |c| && StackAt(t, r) && ChildrenAt(t, c[k..], d)
      invariant Pending(t, r) == PreOrders(t, c[k..], d) + Pending(t, s)
    {
      k := k - 1;
      assert c[k..][1..] == c[k + 1..] && c[k..][0] == c[k];
      assert DepthIs(t, c[k], d);
      PushOne(t, r, c[k], d);
      r := r + [(c[k], d)];
    }
    assert c[0..] == c;
  }

  method Walk(t: seq<Inst>, root: nat, out0: string) returns (out: string)
    requires DepthIs(t, root, 0)
    ensures out == out0 + TextOf(t, PreOrder(t, root, 0))
  {
    hide PreOrder, Pending, TextOf, DepthIs;
    out := out0;
    var stack := [(root, 0)];
    EmptyStack(t);
    PushOne(t, [], root, 0);
    assert [] + stack == stack;
    ghost var whole := PreOrder(t, root, 0);
    assert whole + [] == whole;
    while stack != []
      invariant StackAt(t, stack) && out + TextOf(t, Pending(t, stack)) == out0 + TextOf(t, whole)
      decreases |Pending(t, stack)|
    {
      var (idx, depth) := stack[|stack| - 1];
      var front := stack[..|stack| - 1];
      assert stack == front + [(idx, depth)] && DepthIs(t, idx, depth);
      PopOne(t, front, idx, depth);
      var ind := "";
      for k := 0 to depth
        invariant ind == Indent(k)
      {
        ind := ind + "  ";
      }
      InTable(t, idx, depth);
      out := out + (ind + Leaf(t[idx].path) + " : " + t[idx].mod + "\n");
      stack := PushChildren(t, front, Children(t, idx, |t|), depth + 1);
    }
    EmptyStack(t);
    assert out + "" == out;
  }

  lemma EmptyStack(t: seq<Inst>)
    ensures Pending(t, []) == [] && TextOf(t, []) == ""
  {
  }

  lemma InTable(t: seq<Inst>, i: nat, d: nat)
    requires DepthIs(t, i, d)
    ensures i < |t|
  {
  }

  lemma {:induction false} PopOne(t: seq<Inst>, front: seq<(nat, nat)>, i: nat, d: nat)
    requires StackAt(t, front) && DepthIs(t, i, d)
    ensures StackAt(t, front + [(i, d)]) && ChildrenAt(t, Children(t, i, |t|), d + 1)
    ensures var rest := PreOrders(t, Children(t, i, |t|), d + 1) + Pending(t, front);
      Pending(t, front + [(i, d)]) == [(i, d)] + rest
      && TextOf(t, [(i, d)] + rest) == LineOf(t, (i, d)) + TextOf(t, rest)
  {
    hide Pending, Children;
    PushOne(t, front, i, d);
    ChildrenDepth(t, i, d);
    var rest := PreOrders(t, Children(t, i, |t|), d + 1) + Pending(t, front);
    assert PreOrder(t, i, d) + Pending(t, front) == [(i, d)] + rest;
    assert ([(i, d)] + rest)[1..] == rest;
  }

  method RenderHierTree(t: seq<Inst>) returns (out: string)
    ensures out == TextOf(t, Order(t))
  {
    hide PreOrder, TextOf;
    out := "";
    RootsEnd(t);
    for i := 0 to |t|
      invariant out == TextOf(t, PreOrders(t, Roots(t, i), 0))
    {
      if t[i].parent.None? {
        RootsSnoc(t, Roots(t, i), i);
        TextAppend(t, PreOrders(t, Roots(t, i), 0), PreOrder(t, i, 0));
        out := Walk(t, i, out);
      }
      assert Roots(t, i + 1) == Roots(t, i) + if t[i].parent.None? then [i] else [];
      assert Roots(t, i) + [] == Roots(t, i);
    }
  }

  lemma RootsEnd(t: seq<Inst>)
    ensures TextOf(t, PreOrders(t, Roots(t, 0), 0)) == ""
  {
  }

  lemma {:induction false} RootsSnoc(t: seq<Inst>, c: seq<nat>, i: nat)
    requires ChildrenAt(t, c, 0) && DepthIs(t, i, 0)
    ensures ChildrenAt(t, c + [i], 0) && PreOrders(t, c + [i], 0) == PreOrders(t, c, 0) + PreOrder(t, i, 0)
    decreases |c|
  {
    hide PreOrder;
    var all := c + [i];
    if c == [] {
      assert all[1..] == [];
      assert PreOrders(t, all, 0) == PreOrder(t, i, 0) + [];
    } else {
      assert all[1..] == c[1..] + [i];
      assert forall k :: 0 <= k < |c| - 1 ==> c[1..][k] == c[k + 1];
      RootsSnoc(t, c[1..], i);
    }
  }

  // ---- every rooted instance once, at its depth ----

  /** `n` steps up from `j`. */
  function Climb(t: seq<Inst>, j: nat, n: nat): Option<nat>
    decreases n
  {
    if n == 0 then Some(j)
    else if j < |t| && t[j].parent.Some? then Climb(t, t[j].parent.value, n - 1)
    else None
  }

  /** `j`, at depth `e`, lies in the tree of `i` at depth `d`. */
  predicate Under(t: seq<Inst>, j: nat, e: nat, i: nat, d: nat) {
    e >= d && DepthIs(t, j, e) && Climb(t, j, e - d) == Some(i)
  }

  lemma {:induction false} ClimbOne(t: seq<Inst>, j: nat, n: nat)
    requires Climb(t, j, n).Some?
    ensures Climb(t, j, n + 1)
         == var k := Climb(t, j, n).value; if k < |t| && t[k].parent.Some? then t[k].parent else None
    decreases n
  {
    if n > 0 { ClimbOne(t, t[j].parent.value, n - 1); }
  }

  lemma {:induction false} ClimbDepth(t: seq<Inst>, j: nat, e: nat, n: nat)
    requires DepthIs(t, j, e) && n <= e
    ensures Climb(t, j, n).Some? && DepthIs(t, Climb(t, j, n).value, e - n)
    decreases n
  {
    if n > 0 { ClimbDepth(t, t[j].parent.value, e - 1, n - 1); }
  }

  /** Below `i` strictly means below one of its children. */
  lemma {:induction false} UnderChild(t: seq<Inst>, j: nat, e: nat, i: nat, d: nat)
    requires DepthIs(t, i, d) && DepthIs(t, j, e)
    ensures Under(t, j, e, i, d)
        <==> (j, e) == (i, d) || exists c: nat :: c in Children(t, i, |t|) && Under(t, j, e, c, d + 1)
  {
    hide DepthIs;
    if e == d {
    } else if e > d {
      ClimbDepth(t, j, e, e - d - 1);
      ClimbDepth(t, j, e, e - d);
      var c := Climb(t, j, e - d - 1).value;
      ClimbOne(t, j, e - d - 1);
      InTable(t, c, d + 1);
      if Under(t, j, e, i, d) { assert c in Children(t, i, |t|) && Under(t, j, e, c, d + 1); }
    }
    if (j, e) == (i, d) { assert Under(t, j, e, i, d); }
  }

  lemma {:induction false} PreOrderHolds(t: seq<Inst>, i: nat, d: nat)
    requires DepthIs(t, i, d)
    ensures Once(PreOrder(t, i, d))
    ensures forall j: nat, e: nat :: (j, e) in PreOrder(t, i, d) <==> Under(t, j, e, i, d)
    decreases |t| - d, 1, 0
  {
    hide DepthIs, Under, Children;
    DepthBound(t, i, d);
    ChildrenDepth(t, i, d);
    var c := Children(t, i, |t|);
    PreOrdersHold(t, c, d + 1);
    forall j: nat, e: nat ensures (j, e) in PreOrder(t, i, d) <==> Under(t, j, e, i, d) {
      InPreOrder(t, j, e, i, d);
    }
    NotUnderBelow(t, i, d);
    OnceJoin([(i, d)], PreOrders(t, c, d + 1));
  }

  lemma UnderMeans(t: seq<Inst>, j: nat, e: nat, i: nat, d: nat)
    requires DepthIs(t, i, d)
    ensures Under(t, i, d, i, d)
    ensures Under(t, j, e, i, d) ==> DepthIs(t, j, e)
    ensures forall c: nat, f: nat :: Under(t, j, e, c, f) ==> DepthIs(t, j, e)
  {
  }

  lemma {:induction false} InPreOrder(t: seq<Inst>, j: nat, e: nat, i: nat, d: nat)
    requires DepthIs(t, i, d) && ChildrenAt(t, Children(t, i, |t|), d + 1)
    requires (j, e) in PreOrders(t, Children(t, i, |t|), d + 1)
        <==> exists b: nat :: b in Children(t, i, |t|) && Under(t, j, e, b, d + 1)
    ensures (j, e) in PreOrder(t, i, d) <==> Under(t, j, e, i, d)
  {
    hide DepthIs, Under, Children, PreOrders;
    UnderMeans(t, j, e, i, d);
    assert (j, e) in PreOrder(t, i, d) <==> (j, e) == (i, d) || (j, e) in PreOrders(t, Children(t, i, |t|), d + 1);
    if DepthIs(t, j, e) {
      UnderChild(t, j, e, i, d);
    } else {
      assert !Under(t, j, e, i, d);
      assert forall b: nat, f: nat :: !Under(t, j, e, b, f);
    }
  }

  lemma NotUnderBelow(t: seq<Inst>, i: nat, d: nat)
    ensures forall c: nat, f: nat :: f > d ==> !Under(t, i, d, c, f)
  {
  }

  lemma OneTree(t: seq<Inst>, j: nat, e: nat, d: nat)
    ensures forall b: nat, c: nat :: Under(t, j, e, b, d) && Under(t, j, e, c, d) ==> b == c
  {
  }

  lemma {:induction false} PreOrdersHold(t: seq<Inst>, c: seq<nat>, d: nat)
    requires ChildrenAt(t, c, d) && Once(c)
    ensures Once(PreOrders(t, c, d))
    ensures forall j: nat, e: nat :: (j, e) in PreOrders(t, c, d) <==> exists b: nat :: b in c && Under(t, j, e, b, d)
    decreases |t| - d, 2, |c|
  {
    hide DepthIs, Under, PreOrder;
    if c != [] {
      assert DepthIs(t, c[0], d);
      assert c == [c[0]] + c[1..] && forall k :: 0 <= k < |c| - 1 ==> c[1..][k] == c[k + 1];
      PreOrderHolds(t, c[0], d);
      PreOrdersHold(t, c[1..], d);
      forall p | p in PreOrder(t, c[0], d) ensures p !in PreOrders(t, c[1..], d) {
        OneTree(t, p.0, p.1, d);
        assert p == (p.0, p.1);
      }
      OnceJoin(PreOrder(t, c[0], d), PreOrders(t, c[1..], d));
    }
  }

  /** Every instance with a root above it is printed once, at its depth, and nothing else is. */
  lemma {:induction false} EachOnce(t: seq<Inst>)
    ensures Once(Order(t))
    ensures forall j: nat, e: nat :: (j, e) in Order(t) <==> DepthIs(t, j, e)
  {
    hide PreOrders;
    PreOrdersHold(t, Roots(t, |t|), 0);
    forall j: nat, e: nat ensures (j, e) in Order(t) <==> DepthIs(t, j, e) {
      if DepthIs(t, j, e) {
        ClimbDepth(t, j, e, e);
        assert Under(t, j, e, Climb(t, j, e).value, 0);
      }
    }
  }

  lemma {:induction false} ForestDepth(t: seq<Inst>, i: nat) returns (d: nat)
    requires i < |t| && forall k :: 0 <= k < |t| && t[k].parent.Some? ==> t[k].parent.value < k
    ensures DepthIs(t, i, d)
  {
    if t[i].parent.None? {
      d := 0;
    } else {
      var e := ForestDepth(t, t[i].parent.value);
      d := e + 1;
    }
  }

  ghost predicate Printed(t: seq<Inst>, i: nat) { exists d: nat :: (i, d) in Order(t) }

  /** So a table with parents before children is printed whole. */
  lemma {:induction false} ForestIsWhole(t: seq<Inst>, i: nat)
    requires i < |t| && forall k :: 0 <= k < |t| && t[k].parent.Some? ==> t[k].parent.value < k
    ensures Printed(t, i)
  {
    hide Order;
    var d := ForestDepth(t, i);
    EachOnce(t);
    assert (i, d) in Order(t);
  }
}
