/** What the hierarchy printer prints, seen from outside: the order of its lines and the text of each. */
module HierText {
  import opened Wrappers
  import opened Sequences
  import opened Strings
  import opened HierTree

  // ---- the order ----

  /** `(i, d)` stands above `(j, e)` in the tree, or the two lie below different instances of one parent, or below
      different roots, and the one over `i` comes first in the table. */
  ghost predicate Precedes(t: seq<Inst>, p: (nat, nat), q: (nat, nat)) {
    Under(t, q.0, q.1, p.0, p.1)
    || exists a: nat, b: nat, k: nat :: Fork(t, a, b) && Under(t, p.0, p.1, a, k) && Under(t, q.0, q.1, b, k)
  }

  predicate Fork(t: seq<Inst>, a: nat, b: nat) { a < b < |t| && t[a].parent == t[b].parent }

  ghost predicate InOrder(t: seq<Inst>, s: seq<(nat, nat)>) {
    forall i, j :: 0 <= i < j < |s| ==> Precedes(t, s[i], s[j])
  }

  predicate Ascending(c: seq<nat>) { forall i, j :: 0 <= i < j < |c| ==> c[i] < c[j] }

  predicate Siblings(t: seq<Inst>, c: seq<nat>) {
    Ascending(c) && (forall i :: 0 <= i < |c| ==> c[i] < |t|)
    && forall i, j :: 0 <= i < |c| && 0 <= j < |c| ==> t[c[i]].parent == t[c[j]].parent
  }

  lemma {:induction false} ChildrenAscend(t: seq<Inst>, i: nat, n: nat)
    requires n <= |t|
    ensures Ascending(Children(t, i, n)) && forall k :: 0 <= k < |Children(t, i, n)| ==> Children(t, i, n)[k] < n
  {
    if n > 0 { ChildrenAscend(t, i, n - 1); }
  }

  lemma ChildrenAreSiblings(t: seq<Inst>, i: nat)
    ensures Siblings(t, Children(t, i, |t|))
  {
    ChildrenAscend(t, i, |t|);
    var c := Children(t, i, |t|);
    forall k | 0 <= k < |c| ensures c[k] < |t| && t[c[k]].parent == Some(i) { assert c[k] in c; }
  }

  lemma {:induction false} RootsAscend(t: seq<Inst>, n: nat)
    requires n <= |t|
    ensures Ascending(Roots(t, n)) && forall k :: 0 <= k < |Roots(t, n)| ==> Roots(t, n)[k] < n
  {
    if n > 0 { RootsAscend(t, n - 1); }
  }

  lemma RootsAreSiblings(t: seq<Inst>)
    ensures Siblings(t, Roots(t, |t|))
  {
    RootsAscend(t, |t|);
    var c := Roots(t, |t|);
    forall k | 0 <= k < |c| ensures c[k] < |t| && t[c[k]].parent.None? { assert c[k] in c; }
  }

  lemma {:induction false} PreOrderInOrder(t: seq<Inst>, i: nat, d: nat)
    requires DepthIs(t, i, d)
    ensures InOrder(t, PreOrder(t, i, d))
    decreases |t| - d, 1, 0
  {
    hide DepthIs, Under, Children, Fork;
    DepthBound(t, i, d);
    ChildrenDepth(t, i, d);
    ChildrenAreSiblings(t, i);
    var c := Children(t, i, |t|);
    PreOrdersInOrder(t, c, d + 1);
    PreOrderHolds(t, i, d);
    var rest := PreOrders(t, c, d + 1);
    assert PreOrder(t, i, d) == [(i, d)] + rest;
    forall k | 0 <= k < |rest| ensures Precedes(t, (i, d), rest[k]) {
      assert rest[k] in PreOrder(t, i, d) && rest[k] == (rest[k].0, rest[k].1);
    }
  }

  lemma {:induction false} PreOrdersInOrder(t: seq<Inst>, c: seq<nat>, d: nat)
    requires ChildrenAt(t, c, d) && Siblings(t, c)
    ensures InOrder(t, PreOrders(t, c, d))
    decreases |t| - d, 2, |c|
  {
    hide DepthIs, Under, PreOrder, Precedes;
    if c != [] {
      assert DepthIs(t, c[0], d);
      assert forall k :: 0 <= k < |c| - 1 ==> c[1..][k] == c[k + 1];
      PreOrderInOrder(t, c[0], d);
      PreOrdersInOrder(t, c[1..], d);
      var x, y := PreOrder(t, c[0], d), PreOrders(t, c[1..], d);
      forall i, j | 0 <= i < |x| && 0 <= j < |y| ensures Precedes(t, x[i], y[j]) { FirstPrecedes(t, c, d, x[i], y[j]); }
    }
  }

  lemma {:induction false} FirstPrecedes(t: seq<Inst>, c: seq<nat>, d: nat, p: (nat, nat), q: (nat, nat))
    requires c != [] && ChildrenAt(t, c, d) && Siblings(t, c) && ChildrenAt(t, c[1..], d)
    requires DepthIs(t, c[0], d) && p in PreOrder(t, c[0], d) && q in PreOrders(t, c[1..], d)
    ensures Precedes(t, p, q)
  {
    hide DepthIs, Under, PreOrder, PreOrders;
    AscendingOnce(c);
    PreOrderHolds(t, c[0], d);
    PreOrdersHold(t, c[1..], d);
    assert p == (p.0, p.1) && q == (q.0, q.1);
    var b: nat :| b in c[1..] && Under(t, q.0, q.1, b, d);
    var k :| 0 <= k < |c[1..]| && c[1..][k] == b;
    assert c[k + 1] == b && Fork(t, c[0], b);
  }

  lemma AscendingOnce(c: seq<nat>)
    requires Ascending(c) && c != []
    ensures Once(c) && Once(c[1..])
  {
  }

  /** Every line stands before the lines below it in the tree and before those of later siblings, at whatever
      depth the two part. */
  lemma {:induction false} OrderIsTreeOrder(t: seq<Inst>)
    ensures InOrder(t, Order(t))
  {
    RootsAreSiblings(t);
    PreOrdersInOrder(t, Roots(t, |t|), 0);
  }

  // ---- the text ----

  /** The part of the path after its last dot. */
  predicate IsLeaf(leaf: string, path: string) {
    '.' !in leaf && (leaf == path || (|leaf| < |path| && path[|path| - |leaf|..] == leaf && path[|path| - |leaf| - 1] == '.'))
  }

  lemma {:induction false} LeafIs(path: string)
    ensures IsLeaf(Leaf(path), path)
  {
    if path != "" && path[|path| - 1] != '.' {
      var front := path[..|path| - 1];
      LeafIs(front);
      var leaf := Leaf(front);
      if leaf == front {
        assert Leaf(path) == path;
      } else {
        assert path[|path| - |leaf| - 1..] == front[|front| - |leaf|..] + [path[|path| - 1]];
      }
    }
  }

  lemma {:induction false} IndentIs(d: nat)
    ensures |Indent(d)| == 2 * d && forall k :: 0 <= k < 2 * d ==> Indent(d)[k] == ' '
  {
    if d > 0 { IndentIs(d - 1); }
  }

  /** Two spaces for every level, the last part of the path, and the module. */
  predicate LineSays(t: seq<Inst>, line: string, p: (nat, nat)) {
    p.0 < |t| && 2 * p.1 <= |line| && (forall k :: 0 <= k < 2 * p.1 ==> line[k] == ' ')
    && exists n :: 2 * p.1 <= n <= |line| && IsLeaf(line[2 * p.1..n], t[p.0].path) && line[n..] == " : " + t[p.0].mod
  }

  function Line(t: seq<Inst>, p: (nat, nat)): string
    requires p.0 < |t|
  {
    Indent(p.1) + Leaf(t[p.0].path) + " : " + t[p.0].mod
  }

  lemma {:induction false} LineIs(t: seq<Inst>, p: (nat, nat))
    requires p.0 < |t|
    ensures LineOf(t, p) == Line(t, p) + "\n" && LineSays(t, Line(t, p), p)
  {
    hide Leaf, Indent, IsLeaf;
    IndentIs(p.1);
    LeafIs(t[p.0].path);
    var ind, leaf, rest := Indent(p.1), Leaf(t[p.0].path), " : " + t[p.0].mod;
    assert Line(t, p) == ind + leaf + rest;
    var n := 2 * p.1 + |leaf|;
    assert Line(t, p)[2 * p.1..n] == leaf && Line(t, p)[n..] == rest;
    assert LineOf(t, p) == Line(t, p) + "\n";
  }

  function LinesFor(t: seq<Inst>, order: seq<(nat, nat)>): (lines: seq<string>)
    requires forall k :: 0 <= k < |order| ==> order[k].0 < |t|
    ensures |lines| == |order| && forall k :: 0 <= k < |order| ==> lines[k] == Line(t, order[k])
  {
    seq(|order|, k requires 0 <= k < |order| => Line(t, order[k]))
  }

  lemma {:induction false} TextIsJoined(t: seq<Inst>, order: seq<(nat, nat)>)
    requires forall k :: 0 <= k < |order| ==> order[k].0 < |t|
    ensures TextOf(t, order) == JoinLines(LinesFor(t, order))
  {
    hide Line;
    if order != [] {
      var lines := LinesFor(t, order);
      assert forall k :: 0 <= k < |order| - 1 ==> order[1..][k] == order[k + 1];
      assert lines[1..] == LinesFor(t, order[1..]);
      LineIs(t, order[0]);
      TextIsJoined(t, order[1..]);
      assert LineOf(t, order[0]) == lines[0] + "\n";
    }
  }

  /** The printed text is one line for each rooted instance, in tree order, each saying its depth, the last part of
      its path and its module. */
  lemma {:induction false} TextExactly(t: seq<Inst>)
    requires forall k :: 0 <= k < |t| ==> OneLine(t[k].path) && OneLine(t[k].mod)
    ensures var lines := SplitLines(TextOf(t, Order(t)));
      |lines| == |Order(t)| && forall k :: 0 <= k < |lines| ==> LineSays(t, lines[k], Order(t)[k])
  {
    hide Order, Line, LineSays, SplitLines, JoinLines, TextOf;
    var order := Order(t);
    OrderInTable(t);
    var lines := LinesFor(t, order);
    TextIsJoined(t, order);
    forall k | 0 <= k < |lines| ensures OneLine(lines[k]) && LineSays(t, lines[k], order[k]) {
      LineIs(t, order[k]);
      LineIsOne(t, order[k]);
    }
    SplitJoin(lines);
  }

  lemma OrderInTable(t: seq<Inst>)
    ensures forall k :: 0 <= k < |Order(t)| ==> Order(t)[k].0 < |t|
  {
    hide Order;
    EachOnce(t);
    forall k | 0 <= k < |Order(t)| ensures Order(t)[k].0 < |t| {
      var p := Order(t)[k];
      assert p in Order(t) && p == (p.0, p.1);
      InTable(t, p.0, p.1);
    }
  }

  lemma LineIsOne(t: seq<Inst>, p: (nat, nat))
    requires p.0 < |t| && OneLine(t[p.0].path) && OneLine(t[p.0].mod)
    ensures OneLine(Line(t, p))
  {
    hide Leaf, Indent;
    IndentIs(p.1);
    LeafIs(t[p.0].path);
    var path, leaf := t[p.0].path, Leaf(t[p.0].path);
    assert forall k :: 0 <= k < |leaf| ==> leaf[k] == path[|path| - |leaf|..][k];
    assert OneLine(leaf);
    assert OneLine(Indent(p.1));
  }
}
