/** The guard that refuses an array assignment whose leading index reads the target, and how far it
    can be trusted. */
module AliasGuard {
  import opened Bits
  import opened Wrappers
  import opened Ir
  import opened RowMajor
  import opened Geometry
  import opened ArrayAssign

  /** A source index expression. `Operator` is any operator node the guard descends into; `Unlisted`
      is a node kind it does not name, such as a cast. */
  datatype IndexAst =
    | Literal(n: nat)
    | Name(net: nat)
    | Element(net: nat, index: IndexAst)
    | Operator(which: nat, args: seq<IndexAst>)
    | CallTo(func: nat, args: seq<IndexAst>)
    | Unlisted(arg: IndexAst)

  /** The conservative aliasing walk. */
  predicate ReadsNet(e: IndexAst, target: nat) {
    match e
    case Literal(_) => false
    case Name(net) => net == target
    case Element(net, index) => net == target || ReadsNet(index, target)
    case Operator(_, args) => exists k :: 0 <= k < |args| && ReadsNet(args[k], target)
    case CallTo(_, _) => true
    case Unlisted(_) => false
  }

  /** Every node is of a kind the walk names. */
  predicate Listed(e: IndexAst) {
    match e
    case Literal(_) => true
    case Name(_) => true
    case Element(_, index) => Listed(index)
    case Operator(_, args) => forall k :: 0 <= k < |args| ==> Listed(args[k])
    case CallTo(_, args) => forall k :: 0 <= k < |args| ==> Listed(args[k])
    case Unlisted(_) => false
  }

  /** The walk that looks into every kind: the target is named, or a function is called, which may read it. */
  predicate Mentions(e: IndexAst, target: nat) {
    match e
    case Literal(_) => false
    case Name(net) => net == target
    case Element(net, index) => net == target || Mentions(index, target)
    case Operator(_, args) => exists k :: 0 <= k < |args| && Mentions(args[k], target)
    case CallTo(_, _) => true
    case Unlisted(arg) => Mentions(arg, target)
  }

  /** A mention below a node of a kind the guard does not name. */
  predicate Hidden(e: IndexAst, target: nat) {
    match e
    case Element(_, index) => Hidden(index, target)
    case Operator(_, args) => exists k :: 0 <= k < |args| && Hidden(args[k], target)
    case Unlisted(arg) => Mentions(arg, target)
    case _ => false
  }

  /** What the guard sees and what it does not make up all mentions. */
  lemma {:induction false} MentionsAre(e: IndexAst, target: nat)
    ensures Mentions(e, target) <==> ReadsNet(e, target) || Hidden(e, target)
    ensures Listed(e) ==> !Hidden(e, target)
  {
    match e
    case Element(_, index) => MentionsAre(index, target);
    case Operator(_, args) =>
      forall k | 0 <= k < |args|
        ensures Mentions(args[k], target) <==> ReadsNet(args[k], target) || Hidden(args[k], target)
        ensures Listed(args[k]) ==> !Hidden(args[k], target)
      {
        MentionsAre(args[k], target);
      }
    case _ =>
  }

  /** What operators and functions compute; a function body may read anything. */
  datatype Meaning = Meaning(op: (nat, seq<Option<nat>>) -> Option<nat>,
                             call: (nat, seq<Option<nat>>, Cells) -> Option<nat>)

  function NumberAt(cells: Cells, net: nat, at: Option<nat>): Option<nat> {
    if at.Some? && net in cells && at.value < |cells[net]| && Known(cells[net][at.value])
    then Some(ToNat(cells[net][at.value])) else None
  }

  function ValueOf(m: Meaning, e: IndexAst, cells: Cells): Option<nat> {
    match e
    case Literal(n) => Some(n)
    case Name(net) => NumberAt(cells, net, Some(0))
    case Element(net, index) => NumberAt(cells, net, ValueOf(m, index, cells))
    case Operator(which, args) => m.op(which, Values(m, args, cells))
    case CallTo(func, args) => m.call(func, Values(m, args, cells), cells)
    case Unlisted(arg) => ValueOf(m, arg, cells)
  }

  function Values(m: Meaning, es: seq<IndexAst>, cells: Cells): (vs: seq<Option<nat>>)
    ensures |vs| == |es|
  {
    seq(|es|, k requires 0 <= k < |es| => ValueOf(m, es[k], cells))
  }

  predicate SameElsewhere(x: Cells, y: Cells, net: nat) {
    x.Keys == y.Keys && forall n :: n in x && n != net ==> x[n] == y[n]
  }

  /** An expression without a mention cannot be moved by writing the target. */
  lemma {:induction false} Unmoved(m: Meaning, e: IndexAst, target: nat, x: Cells, y: Cells)
    requires !Mentions(e, target) && SameElsewhere(x, y, target)
    ensures ValueOf(m, e, x) == ValueOf(m, e, y)
  {
    match e
    case Element(net, index) => Unmoved(m, index, target, x, y);
    case Operator(which, args) =>
      forall k | 0 <= k < |args| ensures ValueOf(m, args[k], x) == ValueOf(m, args[k], y) {
        Unmoved(m, args[k], target, x, y);
      }
      assert Values(m, args, x) == Values(m, args, y);
    case Unlisted(arg) => Unmoved(m, arg, target, x, y);
    case _ =>
  }

  /** Over the node kinds it names, the guard is sound: a passed index cannot be moved by writing the target. */
  lemma {:induction false} GuardSound(m: Meaning, e: IndexAst, target: nat, x: Cells, y: Cells)
    requires Listed(e) && !ReadsNet(e, target) && SameElsewhere(x, y, target)
    ensures ValueOf(m, e, x) == ValueOf(m, e, y)
  {
    MentionsAre(e, target);
    Unmoved(m, e, target, x, y);
  }

  // ---- exactly when an index can move ----

  /** Some meaning, and two stores that differ in the target alone, give the index two values. */
  ghost predicate Moves(e: IndexAst, target: nat) {
    exists m: Meaning, x: Cells, y: Cells :: SameElsewhere(x, y, target) && ValueOf(m, e, x) != ValueOf(m, e, y)
  }

  /** More than every literal of the expression. */
  function Top(e: IndexAst): (n: nat)
    ensures n >= 1
  {
    match e
    case Literal(n) => n + 1
    case Name(_) => 1
    case Element(_, index) => Top(index)
    case Operator(_, args) => TopAll(args)
    case CallTo(_, args) => TopAll(args)
    case Unlisted(arg) => Top(arg)
  }

  function TopAll(es: seq<IndexAst>): (n: nat)
    ensures n >= 1 && forall k :: 0 <= k < |es| ==> Top(es[k]) <= n
  {
    if es == [] then 1 else Max(Top(es[0]), TopAll(es[1..]))
  }

  function NetsOf(e: IndexAst): set<nat> {
    match e
    case Literal(_) => {}
    case Name(net) => {net}
    case Element(net, index) => {net} + NetsOf(index)
    case Operator(_, args) => NetsOfAll(args)
    case CallTo(_, args) => NetsOfAll(args)
    case Unlisted(arg) => NetsOf(arg)
  }

  function NetsOfAll(es: seq<IndexAst>): (s: set<nat>)
    ensures forall k :: 0 <= k < |es| ==> NetsOf(es[k]) <= s
  {
    if es == [] then {} else NetsOf(es[0]) + NetsOfAll(es[1..])
  }

  /** A word that holds the number. */
  function Holding(n: nat, top: nat): Vec { FromNat(n, top + 2) }

  lemma {:induction false} BelowPow2(n: nat)
    ensures n < Pow2(n)
  {
    if n > 0 { BelowPow2(n - 1); }
  }

  lemma HoldingIs(n: nat, top: nat)
    requires n <= top + 1
    ensures Known(Holding(n, top)) && ToNat(Holding(n, top)) == n
  {
    BelowPow2(n);
    Pow2Monotone(n, top + 2);
    ToFromSmall(n, top + 2);
  }

  /** The target holds the mark everywhere; every other net passes the two marks through and is 0 elsewhere. */
  function Marked(nets: set<nat>, target: nat, top: nat, mark: nat): Cells {
    map net | net in nets ::
      seq(top + 2, i => Holding(if net == target then mark else if i >= top then i else 0, top))
  }

  /** Operators hand on the larger mark among their operands; a function reads the target. */
  function Carrier(target: nat, top: nat): Meaning {
    Meaning((_, vs) => if Some(top + 1) in vs then Some(top + 1) else if Some(top) in vs then Some(top) else Some(0),
            (_, _, cells) => NumberAt(cells, target, Some(0)))
  }

  lemma MarkedNumber(nets: set<nat>, target: nat, top: nat, mark: nat, net: nat, i: nat)
    requires net in nets && i < top + 2 && (mark == top || mark == top + 1)
    ensures NumberAt(Marked(nets, target, top, mark), net, Some(i))
         == Some(if net == target then mark else if i >= top then i else 0)
  {
    hide Holding;
    HoldingIs(if net == target then mark else if i >= top then i else 0, top);
  }

  /** Under these, an expression has the mark for its value exactly when it mentions the target. */
  lemma {:induction false} Carried(e: IndexAst, nets: set<nat>, target: nat, top: nat, mark: nat)
    requires NetsOf(e) <= nets && target in nets && Top(e) <= top && (mark == top || mark == top + 1)
    ensures var v := ValueOf(Carrier(target, top), e, Marked(nets, target, top, mark));
      v.Some? && if Mentions(e, target) then v.value == mark else v.value < top
  {
    hide NumberAt, Marked;
    var m, cells := Carrier(target, top), Marked(nets, target, top, mark);
    match e
    case Literal(_) =>
    case Name(net) => MarkedNumber(nets, target, top, mark, net, 0);
    case Element(net, index) =>
      Carried(index, nets, target, top, mark);
      MarkedNumber(nets, target, top, mark, net, ValueOf(m, index, cells).value);
    case Operator(which, args) =>
      var vs := Values(m, args, cells);
      forall k | 0 <= k < |args|
        ensures vs[k].Some? && if Mentions(args[k], target) then vs[k].value == mark else vs[k].value < top
      {
        Carried(args[k], nets, target, top, mark);
      }
      CarriedBy(args, vs, target, top, mark);
    case CallTo(_, _) => MarkedNumber(nets, target, top, mark, target, 0);
    case Unlisted(arg) => Carried(arg, nets, target, top, mark);
  }

  lemma CarriedBy(args: seq<IndexAst>, vs: seq<Option<nat>>, target: nat, top: nat, mark: nat)
    requires |vs| == |args| && top >= 1 && (mark == top || mark == top + 1)
    requires forall k :: 0 <= k < |args| ==>
      vs[k].Some? && if Mentions(args[k], target) then vs[k].value == mark else vs[k].value < top
    ensures Some(mark) in vs <==> exists k :: 0 <= k < |args| && Mentions(args[k], target)
    ensures mark == top ==> Some(top + 1) !in vs
    ensures mark == top + 1 ==> Some(top) !in vs
  {
    if k :| 0 <= k < |args| && Mentions(args[k], target) { assert vs[k] == Some(mark); }
  }

  lemma MarkedElsewhere(nets: set<nat>, target: nat, top: nat)
    ensures SameElsewhere(Marked(nets, target, top, top), Marked(nets, target, top, top + 1), target)
  {
  }

  /** An index can be moved by writing the target exactly when it mentions the target. */
  lemma {:induction false} MovesExactly(e: IndexAst, target: nat)
    ensures Moves(e, target) <==> Mentions(e, target)
  {
    hide ValueOf, Marked, Carrier, SameElsewhere;
    if Mentions(e, target) {
      var nets, top := NetsOf(e) + {target}, Top(e);
      Carried(e, nets, target, top, top);
      Carried(e, nets, target, top, top + 1);
      MarkedElsewhere(nets, target, top);
    }
    if m: Meaning, x: Cells, y: Cells :| SameElsewhere(x, y, target) && ValueOf(m, e, x) != ValueOf(m, e, y) {
      if !Mentions(e, target) { Unmoved(m, e, target, x, y); }
    }
  }

  /** So an index the guard passes can move exactly when it mentions the target below a node of a kind the guard
      does not name. */
  lemma {:induction false} GuardExactly(e: IndexAst, target: nat)
    requires !ReadsNet(e, target)
    ensures Moves(e, target) <==> Hidden(e, target)
  {
    MovesExactly(e, target);
    MentionsAre(e, target);
  }

  // ---- evaluating the indices again at every copy ----

  function LeadBase(m: Meaning, ext: seq<Dim>, lead: seq<IndexAst>, cells: Cells): Option<nat>
    requires Sized(ext) && |lead| <= |ext|
  {
    SliceBase(ext, Values(m, lead, cells))
  }

  /** The copies with both bases evaluated again at each one. */
  function Live(m: Meaning, tExt: seq<Dim>, tLead: seq<IndexAst>, sExt: seq<Dim>, sLead: seq<IndexAst>,
                c: Copy, cells: Cells, k: nat): Cells
    requires Sized(tExt) && |tLead| <= |tExt| && Sized(sExt) && |sLead| <= |sExt| && k <= |c.toffs| == |c.soffs|
  {
    if k == 0 then cells
    else
      var before := Live(m, tExt, tLead, sExt, sLead, c, cells, k - 1);
      StoreAt(before, c.t, ElementAt(LeadBase(m, tExt, tLead, before), c.toffs[k - 1]),
              Load(before, c.s, ElementAt(LeadBase(m, sExt, sLead, before), c.soffs[k - 1]), c.width))
  }

  predicate NoneMentions(es: seq<IndexAst>, target: nat) { forall k :: 0 <= k < |es| ==> !Mentions(es[k], target) }

  lemma {:induction false} LeadUnmoved(m: Meaning, ext: seq<Dim>, lead: seq<IndexAst>, target: nat, x: Cells, y: Cells)
    requires Sized(ext) && |lead| <= |ext| && NoneMentions(lead, target) && SameElsewhere(x, y, target)
    ensures LeadBase(m, ext, lead, x) == LeadBase(m, ext, lead, y)
  {
    forall k | 0 <= k < |lead| ensures ValueOf(m, lead[k], x) == ValueOf(m, lead[k], y) {
      Unmoved(m, lead[k], target, x, y);
    }
    assert Values(m, lead, x) == Values(m, lead, y);
  }

  lemma StoreElsewhere(x: Cells, y: Cells, target: nat, at: Option<nat>, v: Vec)
    requires SameElsewhere(x, y, target)
    ensures SameElsewhere(x, StoreAt(y, target, at, v), target)
  {
  }

  /** When no leading index of either side mentions the target, evaluating them all again at each copy changes
      nothing. */
  lemma {:induction false} LiveIsInOrder(m: Meaning, tExt: seq<Dim>, tLead: seq<IndexAst>, sExt: seq<Dim>,
                                         sLead: seq<IndexAst>, c: Copy, cells: Cells, k: nat)
    requires Sized(tExt) && |tLead| <= |tExt| && Sized(sExt) && |sLead| <= |sExt| && k <= |c.toffs| == |c.soffs|
    requires NoneMentions(tLead, c.t) && NoneMentions(sLead, c.t)
    requires c.tb == LeadBase(m, tExt, tLead, cells) && c.sb == LeadBase(m, sExt, sLead, cells)
    ensures Live(m, tExt, tLead, sExt, sLead, c, cells, k) == InOrder(c, cells, k)
    ensures SameElsewhere(cells, InOrder(c, cells, k), c.t)
  {
    hide LeadBase, StoreAt, Load, SameElsewhere, NoneMentions;
    if k == 0 {
      StartsSame(cells, c.t);
    } else {
      LiveIsInOrder(m, tExt, tLead, sExt, sLead, c, cells, k - 1);
      var before := InOrder(c, cells, k - 1);
      LeadUnmoved(m, tExt, tLead, c.t, cells, before);
      LeadUnmoved(m, sExt, sLead, c.t, cells, before);
      StoreElsewhere(cells, before, c.t, ElementAt(c.tb, c.toffs[k - 1]),
                     Load(before, c.s, ElementAt(c.sb, c.soffs[k - 1]), c.width));
    }
  }

  lemma StartsSame(cells: Cells, target: nat)
    ensures SameElsewhere(cells, cells, target)
  {
  }

  /** A cast hides the target from the guard: `a[int'(a[0][0])] = b` on `bit a[2][2]` passes it, and
      the second copy lands in another row than the first. */
  lemma GuardMissesCast(m: Meaning)
    ensures
      var lead := Unlisted(Element(0, Literal(0)));
      var ext := [Dim(0, 2), Dim(0, 2)];
      var cells: Cells := map[0 := [[B0], [B0], [B0], [B0]], 1 := [[B1], [B1]]];
      var c := Copy(0, Some(0), [0, 1], 1, Some(0), [0, 1], 1);
      !ReadsNet(lead, 0) && Sized(ext) && FlatWord(ext, [], [ValueOf(m, lead, cells)]) == c.tb
      && AllAtOnce(c, cells, 2) == cells[0 := [[B1], [B1], [B0], [B0]]]
      && Live(m, ext, [lead], ext, [], c, cells, 2) == cells[0 := [[B1], [B0], [B0], [B1]]]
  {
    var lead := Unlisted(Element(0, Literal(0)));
    var ext := [Dim(0, 2), Dim(0, 2)];
    var cells: Cells := map[0 := [[B0], [B0], [B0], [B0]], 1 := [[B1], [B1]]];
    var c := Copy(0, Some(0), [0, 1], 1, Some(0), [0, 1], 1);
    RowOfTwo(0);
    ValueOfBit(m, cells, B0);
    WholeCopy(c, cells);
    MovedCopy(m, ext, lead, c, cells);
  }

  lemma WholeCopy(c: Copy, cells: Cells)
    requires c == Copy(0, Some(0), [0, 1], 1, Some(0), [0, 1], 1)
    requires cells == map[0 := [[B0], [B0], [B0], [B0]], 1 := [[B1], [B1]]]
    ensures AllAtOnce(c, cells, 2) == cells[0 := [[B1], [B1], [B0], [B0]]]
  {
    var one := cells[0 := [[B1], [B0], [B0], [B0]]];
    WriteOne(cells, 0, Some(0), Some(0));
    WriteOne(one, 1, Some(0), Some(0));
    assert cells[0][0 := [B1]] == one[0] && one[0][1 := [B1]] == [[B1], [B1], [B0], [B0]];
    assert AllAtOnce(c, cells, 0) == cells && AllAtOnce(c, cells, 1) == one;
  }

  lemma MovedCopy(m: Meaning, ext: seq<Dim>, lead: IndexAst, c: Copy, cells: Cells)
    requires c == Copy(0, Some(0), [0, 1], 1, Some(0), [0, 1], 1) && ext == [Dim(0, 2), Dim(0, 2)] && Sized(ext)
    requires cells == map[0 := [[B0], [B0], [B0], [B0]], 1 := [[B1], [B1]]] && lead == Unlisted(Element(0, Literal(0)))
    ensures Live(m, ext, [lead], ext, [], c, cells, 2) == cells[0 := [[B1], [B0], [B0], [B1]]]
  {
    hide FlatWord, ValueOf;
    var one := cells[0 := [[B1], [B0], [B0], [B0]]];
    RowOfTwo(0);
    RowOfTwo(1);
    ValueOfBit(m, cells, B0);
    ValueOfBit(m, one, B1);
    WriteOne(cells, 0, Some(0), Some(0));
    WriteOne(one, 1, Some(2), Some(0));
    assert cells[0][0 := [B1]] == one[0] && one[0][3 := [B1]] == [[B1], [B0], [B0], [B1]];
    LeadOfOne(m, ext, lead, cells);
    LeadOfOne(m, ext, lead, one);
    assert Live(m, ext, [lead], ext, [], c, cells, 0) == cells;
    assert Live(m, ext, [lead], ext, [], c, cells, 1) == one;
  }

  lemma LeadOfOne(m: Meaning, ext: seq<Dim>, lead: IndexAst, cells: Cells)
    requires Sized(ext) && 1 <= |ext|
    ensures LeadBase(m, ext, [lead], cells) == FlatWord(ext, [], [ValueOf(m, lead, cells)])
    ensures LeadBase(m, ext, [], cells) == Some(0)
  {
    assert Values(m, [lead], cells) == [ValueOf(m, lead, cells)] && Values(m, [], cells) == [];
  }

  /** One copy of the source's set bit. */
  lemma WriteOne(cells: Cells, off: nat, tb: Option<nat>, sb: Option<nat>)
    requires 0 in cells && 1 in cells && |cells[0]| == 4 && cells[1] == [[B1], [B1]]
    requires off < 2 && tb.Some? && tb.value + off < 4 && sb == Some(0)
    ensures StoreAt(cells, 0, ElementAt(tb, off), Load(cells, 1, ElementAt(sb, off), 1))
         == cells[0 := cells[0][tb.value + off := [B1]]]
  {
    assert cells[1][off] == [B1];
  }

  lemma ValueOfBit(m: Meaning, cells: Cells, b: Bit)
    requires 0 in cells && |cells[0]| >= 1 && cells[0][0] == [b] && b != BX
    ensures ValueOf(m, Unlisted(Element(0, Literal(0))), cells) == Some(BitValue(b))
  {
    assert [b][1..] == [];
    assert ToNat([b]) == BitValue(b);
    var element := Element(0, Literal(0));
    assert ValueOf(m, Literal(0), cells) == Some(0);
    assert ValueOf(m, element, cells) == Some(BitValue(b));
  }

  lemma RowOfTwo(i: nat)
    requires i < 2
    ensures Sized([Dim(0, 2), Dim(0, 2)]) && FlatWord([Dim(0, 2), Dim(0, 2)], [], [Some(i)]) == Some(2 * i)
  {
    var ext, idx := [Dim(0, 2), Dim(0, 2)], [Some(i)];
    assert ext[1..] == [Dim(0, 2)] && ext[1..][1..] == [];
    assert Product(ext[1..]) == 2 && Product(ext) == 4;
    FlatWordMeaning(ext, [], idx);
    var s := Slots(ext, [], idx);
    assert s == [i] && s[1..] == [];
    assert Offset(ext, s) == i * Product(ext[1..]) + Offset(ext[1..], []);
  }
}
