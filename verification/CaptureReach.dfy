/** The capturing callables a statement reaches by name mention: a breadth-first walk over routines, each
    with a flag that tells whether a module automatic task lies before it, and the paths read back from
    parent links. */
module CaptureReach {
  import opened Wrappers
  import opened Sequences

  datatype Lane = ModuleStaticTask | ModuleAutomaticTask | ModuleFunction | Other

  datatype Routine = Routine(name: string, lane: Lane, text: string)

  /** The routines, the statement's text, and the form in which a name is looked for. */
  datatype Scene = Scene(routines: seq<Routine>, text: string, quoted: string -> string)

  /** A routine, and whether it was reached through an automatic task. */
  type State = (nat, bool)

  predicate OccursAt(s: string, t: string, i: nat) { i + |t| <= |s| && s[i..i + |t|] == t }

  predicate Contains(s: string, t: string) { exists i :: 0 <= i <= |s| && OccursAt(s, t, i) }

  predicate Starts(g: Scene, i: nat) {
    i < |g.routines| && Contains(g.text, g.quoted(g.routines[i].name))
  }

  predicate Mentions(g: Scene, i: nat, j: nat) {
    i < |g.routines| && j < |g.routines| && Contains(g.routines[i].text, g.quoted(g.routines[j].name))
  }

  predicate Automatic(g: Scene, i: nat) {
    i < |g.routines| && g.routines[i].lane.ModuleAutomaticTask?
  }

  // ---- paths ----

  predicate Linked(g: Scene, p: seq<nat>) {
    forall k :: 0 <= k < |p| - 1 ==> Mentions(g, p[k], p[k + 1])
  }

  /** The statement names the first routine, and each routine names the next. */
  predicate Genuine(g: Scene, p: seq<nat>) {
    p != [] && Starts(g, p[0]) && Linked(g, p)
  }

  /** An automatic task stands before the last routine. */
  predicate ThroughAutomatic(g: Scene, p: seq<nat>) {
    exists k :: 0 <= k < |p| - 1 && Automatic(g, p[k])
  }

  predicate Leads(g: Scene, p: seq<nat>, i: nat, flag: bool) {
    Genuine(g, p) && p[|p| - 1] == i && ThroughAutomatic(g, p) == flag
  }

  ghost predicate Reached(g: Scene, i: nat, flag: bool) { exists p :: Leads(g, p, i, flag) }

  /** The routines that capture: an `Other` routine on any path, a static task on a path without an
      automatic task before it. */
  ghost predicate Captures(g: Scene, i: nat) {
    i < |g.routines| &&
    match g.routines[i].lane
    case ModuleStaticTask => Reached(g, i, false)
    case Other => Reached(g, i, false) || Reached(g, i, true)
    case _ => false
  }

  function Next(g: Scene, s: State): bool { s.1 || Automatic(g, s.0) }

  // ---- the walk ----

  datatype Walk = Walk(queue: seq<State>, parent: map<State, State>)

  predicate Step(g: Scene, s: State, t: State) { Mentions(g, s.0, t.0) && t.1 == Next(g, s) }

  /** The state at `q` starts a path, or was added by one before it. */
  predicate Entry(g: Scene, w: Walk, q: nat)
    requires q < |w.queue|
  {
    var s := w.queue[q];
    if s in w.parent then w.parent[s] in w.queue[..q] && Step(g, w.parent[s], s) else Starts(g, s.0) && !s.1
  }

  predicate Rooted(g: Scene, w: Walk) {
    Once(w.queue)
    && (forall q :: 0 <= q < |w.queue| ==> w.queue[q].0 < |g.routines| && Entry(g, w, q))
    && (forall s :: s in w.parent ==> s in w.queue)
  }

  /** Whatever the state names is queued. */
  ghost predicate Spreads(g: Scene, queue: seq<State>, s: State) {
    forall t: State :: Step(g, s, t) ==> t in queue
  }

  /** Every start is queued, and everything the first `k` states name. */
  ghost predicate Explored(g: Scene, queue: seq<State>, k: nat) {
    (forall i: nat :: Starts(g, i) ==> (i, false) in queue)
    && forall q :: 0 <= q < k <= |queue| ==> Spreads(g, queue, queue[q])
  }

  function AllStates(n: nat): set<State> {
    set i, b | 0 <= i < n && b in {false, true} :: (i, b)
  }

  lemma {:induction false} FitsStates(g: Scene, w: Walk)
    requires Rooted(g, w)
    ensures |w.queue| <= |AllStates(|g.routines|)|
  {
    assert Members(w.queue) <= AllStates(|g.routines|);
    OnceFits(w.queue, AllStates(|g.routines|));
  }

  method Begin(g: Scene) returns (w: Walk)
    ensures Rooted(g, w) && Explored(g, w.queue, 0)
  {
    hide Contains;
    w := Walk([], map[]);
    for i := 0 to |g.routines|
      invariant Rooted(g, w) && w.parent == map[]
      invariant forall j :: 0 <= j < i && Starts(g, j) ==> (j, false) in w.queue
      invariant forall s :: s in w.queue ==> s.0 < i
    {
      if Starts(g, i) {
        w := w.(queue := w.queue + [(i, false)]);
      }
    }
    assert forall i: nat :: Starts(g, i) ==> i < |g.routines|;
  }

  /** Add what one state names. */
  method Spread(g: Scene, w0: Walk, k: nat) returns (w: Walk)
    requires Rooted(g, w0) && Explored(g, w0.queue, k) && k < |w0.queue|
    ensures Rooted(g, w) && Explored(g, w.queue, k + 1) && w0.queue <= w.queue
  {
    hide Rooted, Explored, Mentions, Automatic;
    w := w0;
    var at := w.queue[k];
    var nb := Next(g, at);
    for j := 0 to |g.routines|
      invariant Rooted(g, w) && w0.queue <= w.queue && Explored(g, w.queue, k)
      invariant forall i :: 0 <= i < j && Mentions(g, at.0, i) ==> (i, nb) in w.queue
    {
      if (j, nb) !in w.queue && Mentions(g, at.0, j) {
        AddState(g, w, k, (j, nb));
        StillExplored(g, w.queue, k, (j, nb));
        w := Walk(w.queue + [(j, nb)], w.parent[(j, nb) := at]);
      }
    }
    NextExplored(g, w.queue, k);
  }

  lemma NextExplored(g: Scene, queue: seq<State>, k: nat)
    requires Explored(g, queue, k) && k < |queue|
    requires forall i :: 0 <= i < |g.routines| && Mentions(g, queue[k].0, i) ==> (i, Next(g, queue[k])) in queue
    ensures Explored(g, queue, k + 1)
  {
    hide Automatic, Starts;
    forall t: State | Step(g, queue[k], t) ensures t in queue {
      assert t == (t.0, t.1) && t.0 < |g.routines|;
    }
  }

  lemma StillExplored(g: Scene, queue: seq<State>, k: nat, s: State)
    requires Explored(g, queue, k) && k < |queue|
    ensures Explored(g, queue + [s], k)
  {
    hide Step, Starts;
    forall q | 0 <= q < k ensures Spreads(g, queue + [s], (queue + [s])[q]) {
      assert Spreads(g, queue, queue[q]);
    }
  }

  lemma {:induction false} AddState(g: Scene, w: Walk, k: nat, s: State)
    requires Rooted(g, w) && k < |w.queue| && s !in w.queue && Step(g, w.queue[k], s)
    ensures Rooted(g, Walk(w.queue + [s], w.parent[s := w.queue[k]]))
  {
    hide Starts, Contains, Next;
    var v := Walk(w.queue + [s], w.parent[s := w.queue[k]]);
    assert v.queue[..|w.queue|] == w.queue;
    forall q | 0 <= q < |w.queue| ensures Entry(g, v, q) {
      assert Entry(g, w, q) && v.queue[..q] == w.queue[..q];
    }
  }

  method Explore(g: Scene) returns (w: Walk)
    ensures Rooted(g, w) && Explored(g, w.queue, |w.queue|)
  {
    hide Rooted, Explored;
    w := Begin(g);
    var k := 0;
    while k < |w.queue|
      invariant 0 <= k <= |w.queue| && Rooted(g, w) && Explored(g, w.queue, k)
      decreases |AllStates(|g.routines|)| - k
    {
      FitsStates(g, w);
      w := Spread(g, w, k);
      k := k + 1;
    }
  }

  // ---- exactness ----

  lemma {:induction false} PathIsQueued(g: Scene, queue: seq<State>, p: seq<nat>)
    requires Explored(g, queue, |queue|) && Genuine(g, p)
    ensures (p[|p| - 1], ThroughAutomatic(g, p)) in queue
  {
    hide Mentions, Starts, Automatic, Spreads;
    if |p| > 1 {
      var front, last := p[..|p| - 1], p[|p| - 1];
      PathIsQueued(g, queue, front);
      FlagStep(g, front, last);
      assert p == front + [last] && Mentions(g, p[|p| - 2], p[|p| - 1]);
      var s, t := (front[|front| - 1], ThroughAutomatic(g, front)), (last, ThroughAutomatic(g, p));
      var q :| 0 <= q < |queue| && queue[q] == s;
      SpreadTo(g, queue, s, t);
    }
  }

  lemma SpreadTo(g: Scene, queue: seq<State>, s: State, t: State)
    requires Spreads(g, queue, s) && Step(g, s, t)
    ensures t in queue
  {
  }

  lemma {:induction false} FlagStep(g: Scene, p: seq<nat>, j: nat)
    requires p != []
    ensures ThroughAutomatic(g, p + [j]) == Next(g, (p[|p| - 1], ThroughAutomatic(g, p)))
  {
    hide Automatic;
    var r := p + [j];
    if ThroughAutomatic(g, p) {
      var k :| 0 <= k < |p| - 1 && Automatic(g, p[k]);
      assert Automatic(g, r[k]);
    }
    if Automatic(g, p[|p| - 1]) { assert Automatic(g, r[|p| - 1]); }
    if ThroughAutomatic(g, r) {
      var k :| 0 <= k < |r| - 1 && Automatic(g, r[k]);
      assert r[k] == p[k];
    }
  }

  /** The path to a queued state, read back through the parents. */
  method PathTo(g: Scene, w: Walk, target: State) returns (p: seq<nat>)
    requires Rooted(g, w) && target in w.queue
    ensures Leads(g, p, target.0, target.1)
  {
    hide Mentions, Starts, Automatic, Reversed, Linked, Crosses, Rooted;
    var at := target;
    var back := [at.0];
    ghost var i: nat :| i < |w.queue| && w.queue[i] == at;
    ghost var path := [at.0];
    OneLink(g, at.0);
    while at in w.parent
      invariant i < |w.queue| && w.queue[i] == at
      invariant path != [] && path == Reversed(back) && Linked(g, path)
      invariant path[0] == at.0 && path[|path| - 1] == target.0
      invariant target.1 == (at.1 || Crosses(g, path))
      decreases i
    {
      var prev := w.parent[at];
      ghost var j := ParentBefore(g, w, i);
      PrependLink(g, prev.0, path);
      ReversedSnoc(back, prev.0);
      back := back + [prev.0];
      path := [prev.0] + path;
      at, i := prev, j;
    }
    NoParent(g, w, i);
    p := Reversed(back);
    CrossesIs(g, p);
  }

  lemma {:induction false} ParentBefore(g: Scene, w: Walk, q: nat) returns (j: nat)
    requires Rooted(g, w) && q < |w.queue| && w.queue[q] in w.parent
    ensures j < q && w.queue[j] == w.parent[w.queue[q]] && Step(g, w.queue[j], w.queue[q])
  {
    hide Step;
    assert Entry(g, w, q);
    j :| j < q && w.queue[..q][j] == w.parent[w.queue[q]];
  }

  lemma {:induction false} NoParent(g: Scene, w: Walk, q: nat)
    requires Rooted(g, w) && q < |w.queue| && w.queue[q] !in w.parent
    ensures Starts(g, w.queue[q].0) && !w.queue[q].1
  {
    assert Entry(g, w, q);
  }

  lemma OneLink(g: Scene, i: nat)
    ensures Linked(g, [i]) && !Crosses(g, [i]) && Reversed([i]) == [i]
  {
    assert [i][..0] == [];
  }

  lemma ReversedSnoc(s: seq<nat>, x: nat)
    ensures Reversed(s + [x]) == [x] + Reversed(s)
  {
    assert (s + [x])[..|s|] == s;
  }

  function Reversed(s: seq<nat>): (r: seq<nat>)
    ensures |r| == |s|
  {
    if s == [] then [] else [s[|s| - 1]] + Reversed(s[..|s| - 1])
  }

  /** An automatic task stands before the end of the path. */
  predicate Crosses(g: Scene, p: seq<nat>) {
    p != [] && |p| > 1 && (Automatic(g, p[0]) || Crosses(g, p[1..]))
  }

  lemma {:induction false} CrossesIs(g: Scene, p: seq<nat>)
    ensures Crosses(g, p) == ThroughAutomatic(g, p)
  {
    hide Automatic;
    if |p| > 1 {
      CrossesIs(g, p[1..]);
      if ThroughAutomatic(g, p[1..]) {
        var k :| 0 <= k < |p[1..]| - 1 && Automatic(g, p[1..][k]);
        assert Automatic(g, p[k + 1]);
      }
      if ThroughAutomatic(g, p) {
        var k :| 0 <= k < |p| - 1 && Automatic(g, p[k]);
        if k > 0 { assert p[1..][k - 1] == p[k]; }
      }
    }
  }

  lemma {:induction false} PrependLink(g: Scene, i: nat, p: seq<nat>)
    requires p != [] && Linked(g, p) && Mentions(g, i, p[0])
    ensures Linked(g, [i] + p) && Crosses(g, [i] + p) == (Automatic(g, i) || Crosses(g, p))
  {
    hide Mentions, Automatic;
    var r := [i] + p;
    assert r[1..] == p;
    forall k | 0 <= k < |r| - 1 ensures Mentions(g, r[k], r[k + 1]) {
      if k > 0 { assert Mentions(g, p[k - 1], p[k]); }
    }
  }

  /** A state is queued exactly when a genuine path leads to it with its flag. */
  lemma {:induction false} QueuedIsReached(g: Scene, w: Walk, s: State)
    requires Rooted(g, w) && Explored(g, w.queue, |w.queue|)
    ensures s in w.queue ==> Reached(g, s.0, s.1)
    ensures Reached(g, s.0, s.1) ==> s in w.queue
  {
    if s in w.queue {
      var q: nat :| q < |w.queue| && w.queue[q] == s;
      var p := GenuinePath(g, w, q);
    }
    if Reached(g, s.0, s.1) {
      var p :| Leads(g, p, s.0, s.1);
      PathIsQueued(g, w.queue, p);
    }
  }

  lemma {:induction false} GenuinePath(g: Scene, w: Walk, q: nat) returns (p: seq<nat>)
    requires Rooted(g, w) && q < |w.queue|
    ensures Leads(g, p, w.queue[q].0, w.queue[q].1)
    decreases q
  {
    hide Mentions, Starts, Automatic, ThroughAutomatic, Rooted, Linked;
    var s := w.queue[q];
    if s in w.parent {
      var j := ParentBefore(g, w, q);
      var front := GenuinePath(g, w, j);
      p := front + [s.0];
      FlagStep(g, front, s.0);
      AppendLink(g, front, s.0);
    } else {
      p := [s.0];
      NoParent(g, w, q);
      NotThrough(g, s.0);
    }
  }

  lemma {:induction false} AppendLink(g: Scene, p: seq<nat>, j: nat)
    requires p != [] && Linked(g, p) && Mentions(g, p[|p| - 1], j)
    ensures Linked(g, p + [j])
  {
    hide Mentions;
    var r := p + [j];
    forall k | 0 <= k < |r| - 1 ensures Mentions(g, r[k], r[k + 1]) {
      if k < |p| - 1 { assert Mentions(g, p[k], p[k + 1]); }
    }
  }

  lemma NotThrough(g: Scene, i: nat)
    ensures !ThroughAutomatic(g, [i]) && Linked(g, [i])
  {
  }

  /** The entry of one capturing routine, or none. */
  function Choice(w: Walk, lane: Lane, i: nat): Option<State> {
    match lane
    case ModuleStaticTask => if (i, false) in w.queue then Some((i, false)) else None
    case Other =>
      if (i, false) in w.queue then Some((i, false)) else if (i, true) in w.queue then Some((i, true)) else None
    case _ => None
  }

  /** Every capturing routine, in order, each with a genuine path to it; the path goes through no
      automatic task whenever there is one that does not. */
  method ReachedCapturing(g: Scene) returns (out: seq<(nat, seq<nat>)>)
    ensures forall i :: Captures(g, i) <==> exists e :: e in out && e.0 == i
    ensures forall j, k :: 0 <= j < k < |out| ==> out[j].0 < out[k].0
    ensures forall e :: e in out ==> Leads(g, e.1, e.0, !Reached(g, e.0, false))
  {
    hide Mentions, Starts, Automatic, Leads, Explored, Rooted;
    var w := Explore(g);
    out := [];
    for i := 0 to |g.routines|
      invariant forall j :: 0 <= j < i ==> (Captures(g, j) <==> exists e :: e in out && e.0 == j)
      invariant forall e :: e in out ==> e.0 < i && Leads(g, e.1, e.0, !Reached(g, e.0, false))
      invariant forall j, k :: 0 <= j < k < |out| ==> out[j].0 < out[k].0
    {
      QueuedIsReached(g, w, (i, false));
      QueuedIsReached(g, w, (i, true));
      var st := Choice(w, g.routines[i].lane, i);
      ghost var was := out;
      if st.Some? {
        var p := PathTo(g, w, st.value);
        out := out + [(i, p)];
        assert out[|was|] == (i, p);
      }
      assert forall e :: e in was ==> e in out;
    }
  }

  // ---- in the words of the texts ----

  /** The name of routine `j`, as it is looked for, stands somewhere in the text. */
  predicate Named(g: Scene, text: string, j: nat) {
    j < |g.routines| && exists x, y :: 0 <= x <= y <= |text| && text[x..y] == g.quoted(g.routines[j].name)
  }

  lemma NamedIs(g: Scene, text: string, j: nat)
    requires j < |g.routines|
    ensures Named(g, text, j) <==> Contains(text, g.quoted(g.routines[j].name))
  {
    var q := g.quoted(g.routines[j].name);
    if x, y :| 0 <= x <= y <= |text| && text[x..y] == q { assert OccursAt(text, q, x); }
    if x :| 0 <= x <= |text| && OccursAt(text, q, x) { assert text[x..x + |q|] == q; }
  }

  /** The statement's text names the first routine, and the text of each names the next. */
  predicate NamePath(g: Scene, p: seq<nat>) {
    p != [] && Named(g, g.text, p[0])
    && forall k :: 0 <= k < |p| - 1 ==> p[k] < |g.routines| && Named(g, g.routines[p[k]].text, p[k + 1])
  }

  lemma {:induction false} NamePathIs(g: Scene, p: seq<nat>)
    ensures NamePath(g, p) <==> Genuine(g, p)
  {
    hide Contains, Named;
    forall text: string, j: nat | j < |g.routines| ensures Named(g, text, j) <==> Contains(text, g.quoted(g.routines[j].name)) {
      NamedIs(g, text, j);
    }
    forall text: string, j: nat | j >= |g.routines| ensures !Named(g, text, j) { NotNamed(g, text, j); }
    if p != [] && NamePath(g, p) {
      forall k | 0 <= k < |p| - 1 ensures Mentions(g, p[k], p[k + 1]) { assert Named(g, g.routines[p[k]].text, p[k + 1]); }
    }
    if p != [] && Genuine(g, p) {
      forall k | 0 <= k < |p| - 1 ensures p[k] < |g.routines| && Named(g, g.routines[p[k]].text, p[k + 1]) {
        assert Mentions(g, p[k], p[k + 1]);
      }
    }
  }

  lemma NotNamed(g: Scene, text: string, j: nat)
    requires j >= |g.routines|
    ensures !Named(g, text, j)
  {
  }

  /** The path ends in a routine of the lane that captures on any path, or in a module static task with no module
      automatic task on the path before it. */
  predicate Catches(g: Scene, p: seq<nat>, i: nat) {
    p != [] && p[|p| - 1] == i && i < |g.routines|
    && (g.routines[i].lane.Other?
        || (g.routines[i].lane.ModuleStaticTask?
            && forall k :: 0 <= k < |p| - 1 ==> p[k] < |g.routines| && !g.routines[p[k]].lane.ModuleAutomaticTask?))
  }

  /** A routine captures exactly when such a path of names leads to it. */
  lemma {:induction false} CapturesExactly(g: Scene, i: nat)
    ensures Captures(g, i) <==> exists p :: NamePath(g, p) && Catches(g, p, i)
  {
    hide NamePath, Genuine;
    forall p ensures NamePath(g, p) <==> Genuine(g, p) { NamePathIs(g, p); }
    forall p | NamePath(g, p) ensures p != [] && forall k :: 0 <= k < |p| ==> p[k] < |g.routines| { PathInScene(g, p); }
    if Captures(g, i) {
      var flag := g.routines[i].lane.Other? && !Reached(g, i, false);
      assert Reached(g, i, flag);
      var p :| Leads(g, p, i, flag);
      assert NamePath(g, p) && Catches(g, p, i);
    }
    if p :| NamePath(g, p) && Catches(g, p, i) {
      assert Leads(g, p, i, ThroughAutomatic(g, p));
      assert Reached(g, i, ThroughAutomatic(g, p));
    }
  }

  lemma PathInScene(g: Scene, p: seq<nat>)
    requires NamePath(g, p)
    ensures p != [] && forall k :: 0 <= k < |p| ==> p[k] < |g.routines|
  {
    forall k | 0 <= k < |p| ensures p[k] < |g.routines| {
      if k > 0 { assert Named(g, g.routines[p[k - 1]].text, p[k]); }
    }
  }
}
