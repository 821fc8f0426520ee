/** The scope a block-local's net is reserved under, and the outward lookup that has to find it. */
module ScopeKeys {
  import opened Wrappers
  import opened BlockLocal

  /** A segment of a scope prefix: a scoped block, or any other scope, through which a lookup may pass or not. */
  datatype Seg = Blk(lo: nat) | Scope(text: string, open: bool)

  type Prefix = seq<Seg>

  /** Where the blocks around a declaration start, outermost first. */
  type Chain = seq<nat>

  /** One declaration of block-locals, in the innermost block of its chain. */
  datatype Local = Local(chain: Chain, names: set<string>)

  predicate Selects(m: ScopeMap, lo: nat, names: set<string>) {
    lo in m && exists n :: n in names && n in m[lo]
  }

  /** An enclosing block counts when it is scoped at all, the declaring one when it scopes this declaration. */
  predicate Counts(m: ScopeMap, chain: Chain, names: set<string>, i: nat)
    requires i < |chain|
  {
    if i + 1 == |chain| then Selects(m, chain[i], names) else chain[i] in m
  }

  function ReservedTo(m: ScopeMap, d: Local, n: nat): Prefix
    requires n <= |d.chain|
  {
    if n == 0 then []
    else ReservedTo(m, d, n - 1) + if Counts(m, d.chain, d.names, n - 1) then [Blk(d.chain[n - 1])] else []
  }

  function Reserved(m: ScopeMap, d: Local): Prefix { ReservedTo(m, d, |d.chain|) }

  method ScopePrefix(m: ScopeMap, d: Local) returns (segs: Prefix)
    ensures segs == Reserved(m, d)
  {
    segs := [];
    for i := 0 to |d.chain|
      invariant segs == ReservedTo(m, d, i)
    {
      if i + 1 == |d.chain| {
        if Selects(m, d.chain[i], d.names) { segs := segs + [Blk(d.chain[i])]; }
      } else if d.chain[i] in m {
        segs := segs + [Blk(d.chain[i])];
      }
    }
  }

  /** The prefix statements in the innermost block of a chain are lowered under: every scoped block counts. */
  function Wrap(m: ScopeMap, chain: Chain): Prefix {
    if chain == [] then []
    else Wrap(m, chain[..|chain| - 1]) + if chain[|chain| - 1] in m then [Blk(chain[|chain| - 1])] else []
  }

  type Keys = set<(Prefix, string)>

  /** The innermost scope, at or around `prefix`, that holds the name. */
  function Lookup(keys: Keys, prefix: Prefix, name: string): Option<Prefix> {
    if (prefix, name) in keys then Some(prefix)
    else if prefix == [] then None
    else
      var last := prefix[|prefix| - 1];
      if last.Blk? || last.open then Lookup(keys, prefix[..|prefix| - 1], name) else None
  }

  method WalkOut(keys: Keys, from: Prefix, name: string) returns (r: Option<Prefix>)
    ensures r == Lookup(keys, from, name)
  {
    var prefix := from;
    while true
      invariant Lookup(keys, prefix, name) == Lookup(keys, from, name)
      decreases |prefix|
    {
      if (prefix, name) in keys {
        return Some(prefix);
      }
      if prefix == [] {
        return None;
      }
      var last := prefix[|prefix| - 1];
      if !last.Blk? && !last.open {
        return None;
      }
      prefix := prefix[..|prefix| - 1];
    }
  }

  // ---- a selected local is found from anywhere in its block ----

  /** What is reserved: every local of the body, and whatever is declared outside every block. */
  ghost predicate Holds(keys: Keys, base: Prefix, m: ScopeMap, locals: set<Local>) {
    (forall d, n :: d in locals && n in d.names ==> (base + Reserved(m, d), n) in keys)
    && forall p, n :: (base + p, n) in keys && p != [] ==> exists d :: d in locals && n in d.names && Reserved(m, d) == p
  }

  /** Where a block starts tells which blocks are around it. */
  predicate Agree(c: Chain, d: Chain) {
    forall i, j :: 0 <= i < |c| && 0 <= j < |d| && c[i] == d[j] ==> i == j && c[..i + 1] == d[..j + 1]
  }

  /** A declaration's net belongs to the innermost block that counts for it: the declaring one when it selects
      the declaration, otherwise the nearest scoped one around it. */
  function HomeTo(m: ScopeMap, d: Local, n: nat): (c: Chain)
    requires n <= |d.chain|
    ensures |c| <= n && c == d.chain[..|c|] && (c != [] ==> c[|c| - 1] in m)
  {
    if n == 0 then []
    else if Counts(m, d.chain, d.names, n - 1) then d.chain[..n]
    else HomeTo(m, d, n - 1)
  }

  function Home(m: ScopeMap, d: Local): Chain { HomeTo(m, d, |d.chain|) }

  lemma {:induction false} WrapInner(m: ScopeMap, d: Local, n: nat)
    requires n < |d.chain|
    ensures ReservedTo(m, d, n) == Wrap(m, d.chain[..n])
  {
    if n > 0 {
      WrapInner(m, d, n - 1);
      assert d.chain[..n][..n - 1] == d.chain[..n - 1];
    }
  }

  /** The reserved prefix is the one statements in the home block are lowered under. */
  lemma {:induction false} ReservedIsHome(m: ScopeMap, d: Local, n: nat)
    requires n <= |d.chain|
    ensures ReservedTo(m, d, n) == Wrap(m, HomeTo(m, d, n))
  {
    if n > 0 {
      ReservedIsHome(m, d, n - 1);
      if Counts(m, d.chain, d.names, n - 1) {
        WrapInner(m, d, n - 1);
        assert d.chain[..n][..n - 1] == d.chain[..n - 1];
      }
    }
  }

  /** A chain that ends in a scoped block is told by its prefix. */
  lemma {:induction false} WrapEnds(m: ScopeMap, c: Chain)
    requires c != [] && c[|c| - 1] in m
    ensures Wrap(m, c) != [] && Wrap(m, c)[|Wrap(m, c)| - 1] == Blk(c[|c| - 1])
  {
  }

  lemma {:induction false} WrapLonger(m: ScopeMap, c: Chain, d: Chain)
    requires c < d && d[|d| - 1] in m
    ensures |Wrap(m, c)| < |Wrap(m, d)|
    decreases |d|
  {
    var front := d[..|d| - 1];
    if c != front { WrapGrows(m, c, front); }
  }

  lemma {:induction false} WrapGrows(m: ScopeMap, c: Chain, d: Chain)
    requires c <= d
    ensures |Wrap(m, c)| <= |Wrap(m, d)|
    decreases |d|
  {
    if c != d { WrapGrows(m, c, d[..|d| - 1]); }
  }

  /** Whether some declaration of the name lives in block `at[..k]`. */
  ghost predicate LivesAt(m: ScopeMap, locals: set<Local>, at: Chain, k: nat, name: string)
    requires k <= |at|
  {
    exists e :: e in locals && name in e.names && Home(m, e) == at[..k]
  }

  /** A lookup finds the innermost block around it in which a declaration of the name lives. */
  lemma {:induction false} FindsInnermost(keys: Keys, base: Prefix, m: ScopeMap, locals: set<Local>, at: Chain, k: nat, name: string)
    requires Holds(keys, base, m, locals) && forall e :: e in locals ==> Agree(at, e.chain)
    requires 1 <= k <= |at| && LivesAt(m, locals, at, k, name)
    requires forall j :: k < j <= |at| ==> !LivesAt(m, locals, at, j, name)
    ensures Lookup(keys, base + Wrap(m, at), name) == Some(base + Wrap(m, at[..k]))
    decreases |at|
  {
    hide Counts, Agree, Lookup, HomeTo, Holds;
    if k == |at| {
      assert at[..k] == at;
      var e :| e in locals && name in e.names && Home(m, e) == at[..k];
      KeyHeld(keys, base, m, locals, e, name);
      LookupHit(keys, base + Wrap(m, at), name);
    } else {
      var outer, lo := at[..|at| - 1], at[|at| - 1];
      forall j | 0 <= j <= |outer| ensures LivesAt(m, locals, outer, j, name) == LivesAt(m, locals, at, j, name) {
        assert outer[..j] == at[..j];
      }
      forall e | e in locals ensures Agree(outer, e.chain) { AgreeOuter(at, e.chain); }
      assert outer[..k] == at[..k];
      FindsInnermost(keys, base, m, locals, outer, k, name);
      if lo in m {
        NotHeld(keys, base, m, locals, at, name);
        var p, q := base + Wrap(m, at), base + Wrap(m, outer);
        assert p == q + [Blk(lo)] && p[..|p| - 1] == q;
        LookupOut(keys, p, name);
      } else {
        assert Wrap(m, at) == Wrap(m, outer);
      }
    }
  }

  lemma KeyHeld(keys: Keys, base: Prefix, m: ScopeMap, locals: set<Local>, e: Local, name: string)
    requires Holds(keys, base, m, locals) && e in locals && name in e.names
    ensures (base + Wrap(m, Home(m, e)), name) in keys
  {
    ReservedIsHome(m, e, |e.chain|);
  }

  lemma LookupHit(keys: Keys, p: Prefix, name: string)
    requires (p, name) in keys
    ensures Lookup(keys, p, name) == Some(p)
  {
  }

  lemma LookupOut(keys: Keys, p: Prefix, name: string)
    requires (p, name) !in keys && p != [] && p[|p| - 1].Blk?
    ensures Lookup(keys, p, name) == Lookup(keys, p[..|p| - 1], name)
  {
  }

  /** Nothing is reserved under the prefix of a scoped block in which no declaration of the name lives. */
  lemma {:induction false} NotHeld(keys: Keys, base: Prefix, m: ScopeMap, locals: set<Local>, at: Chain, name: string)
    requires Holds(keys, base, m, locals) && forall e :: e in locals ==> Agree(at, e.chain)
    requires at != [] && at[|at| - 1] in m && !LivesAt(m, locals, at, |at|, name)
    ensures (base + Wrap(m, at), name) !in keys
  {
    hide Agree, HomeTo;
    var p := Wrap(m, at);
    assert at[..|at|] == at;
    WrapEnds(m, at);
    if (base + p, name) in keys {
      var e :| e in locals && name in e.names && Reserved(m, e) == p;
      ReservedIsHome(m, e, |e.chain|);
      HomeIsAt(m, e, at);
    }
  }

  lemma {:induction false} HomeIsAt(m: ScopeMap, e: Local, at: Chain)
    requires Agree(at, e.chain) && at != [] && at[|at| - 1] in m && Wrap(m, Home(m, e)) == Wrap(m, at)
    ensures Home(m, e) == at
  {
    hide HomeTo;
    var h := Home(m, e);
    WrapEnds(m, at);
    assert h != [] && h == e.chain[..|h|];
    WrapEnds(m, h);
    var j := |h| - 1;
    assert e.chain[j] == h[j] == at[|at| - 1];
    assert j == |at| - 1 && at[..|at|] == e.chain[..j + 1];
  }

  lemma AgreeOuter(at: Chain, c: Chain)
    requires Agree(at, c) && at != []
    ensures Agree(at[..|at| - 1], c)
  {
    var outer := at[..|at| - 1];
    forall i, j | 0 <= i < |outer| && 0 <= j < |c| && outer[i] == c[j] ensures i == j && outer[..i + 1] == c[..j + 1] {
      assert at[i] == c[j] && outer[..i + 1] == at[..i + 1];
    }
  }

  /** The innermost block past `k` in which a declaration of the name lives. */
  lemma {:induction false} Innermost(m: ScopeMap, locals: set<Local>, at: Chain, name: string, k: nat, n: nat) returns (j: nat)
    requires k < n <= |at| && exists i :: k < i <= n && LivesAt(m, locals, at, i, name)
    requires forall i :: n < i <= |at| ==> !LivesAt(m, locals, at, i, name)
    ensures k < j <= |at| && LivesAt(m, locals, at, j, name)
    ensures forall i :: j < i <= |at| ==> !LivesAt(m, locals, at, i, name)
    decreases n
  {
    if LivesAt(m, locals, at, n, name) { j := n; } else { j := Innermost(m, locals, at, name, k, n - 1); }
  }

  /** A statement inside a block that selects a local finds that block's own net, at every nesting depth, exactly
      when no other declaration of the name lives in a block between: redeclared names, nested either way, are
      each found from their own block. */
  lemma {:induction false} FindsOwn(keys: Keys, base: Prefix, m: ScopeMap, locals: set<Local>, d: Local, at: Chain, name: string)
    requires Holds(keys, base, m, locals) && d in locals && name in d.names
    requires d.chain != [] && Selects(m, d.chain[|d.chain| - 1], d.names) && d.chain <= at
    requires forall e :: e in locals ==> Agree(at, e.chain)
    ensures Lookup(keys, base + Wrap(m, at), name) == Some(base + Reserved(m, d))
       <==> forall e :: e in locals && name in e.names ==> !(d.chain < Home(m, e) <= at)
  {
    hide Selects, Counts, Agree, Lookup, HomeTo, Holds;
    var n := |d.chain|;
    OwnHome(m, d);
    assert at[..n] == d.chain;
    assert LivesAt(m, locals, at, n, name);
    LivesBetween(m, locals, d, at, name);
    if exists j :: n < j <= |at| && LivesAt(m, locals, at, j, name) {
      FindsInner(keys, base, m, locals, d.chain, at, name);
    } else {
      FindsInnermost(keys, base, m, locals, at, n, name);
    }
  }

  lemma FindsInner(keys: Keys, base: Prefix, m: ScopeMap, locals: set<Local>, own: Chain, at: Chain, name: string)
    requires Holds(keys, base, m, locals) && own <= at && forall e :: e in locals ==> Agree(at, e.chain)
    requires LivesAt(m, locals, at, |own|, name) && exists j :: |own| < j <= |at| && LivesAt(m, locals, at, j, name)
    ensures Lookup(keys, base + Wrap(m, at), name) != Some(base + Wrap(m, own))
  {
    hide Counts, Agree, Lookup, Holds, LivesAt;
    var j := Innermost(m, locals, at, name, |own|, |at|);
    FindsInnermost(keys, base, m, locals, at, j, name);
    LivesScoped(m, locals, at, j, name);
    WrapLonger(m, own, at[..j]);
    assert |base + Wrap(m, own)| < |base + Wrap(m, at[..j])|;
  }

  lemma LivesScoped(m: ScopeMap, locals: set<Local>, at: Chain, j: nat, name: string)
    requires 1 <= j <= |at| && LivesAt(m, locals, at, j, name)
    ensures at[..j][j - 1] in m
  {
  }

  lemma LivesBetween(m: ScopeMap, locals: set<Local>, d: Local, at: Chain, name: string)
    requires d.chain <= at
    ensures (exists j :: |d.chain| < j <= |at| && LivesAt(m, locals, at, j, name))
       <==> exists e :: e in locals && name in e.names && d.chain < Home(m, e) <= at
  {
    hide Home;
    if e :| e in locals && name in e.names && d.chain < Home(m, e) <= at {
      var h := Home(m, e);
      assert at[..|h|] == h;
      assert LivesAt(m, locals, at, |h|, name);
    }
    if j :| |d.chain| < j <= |at| && LivesAt(m, locals, at, j, name) {
      var e :| e in locals && name in e.names && Home(m, e) == at[..j];
      assert d.chain < Home(m, e) <= at;
    }
  }

  /** A selected local lives in its own block. */
  lemma OwnHome(m: ScopeMap, d: Local)
    requires d.chain != [] && Selects(m, d.chain[|d.chain| - 1], d.names)
    ensures Home(m, d) == d.chain && Reserved(m, d) == Wrap(m, d.chain)
  {
    ReservedIsHome(m, d, |d.chain|);
    assert Counts(m, d.chain, d.names, |d.chain| - 1);
    assert d.chain[..|d.chain|] == d.chain;
  }

  /** Two declarations share a prefix exactly when they live in one block: selected locals of different blocks
      never do, and an unselected one shares with the nearest scoped block around it. */
  lemma {:induction false} KeysDiffer(m: ScopeMap, d: Local, e: Local)
    requires Agree(d.chain, e.chain)
    ensures Reserved(m, d) == Reserved(m, e) <==> Home(m, d) == Home(m, e)
    ensures d.chain != [] && Selects(m, d.chain[|d.chain| - 1], d.names) ==> Home(m, d) == d.chain
  {
    hide Selects, HomeTo;
    ReservedIsHome(m, d, |d.chain|);
    ReservedIsHome(m, e, |e.chain|);
    var h, g := Home(m, d), Home(m, e);
    if h != [] {
      WrapEnds(m, h);
      if Wrap(m, h) == Wrap(m, g) {
        AgreePrefix(d.chain, e.chain, |h|);
        HomeIsAt(m, e, h);
      }
    } else if g != [] {
      WrapEnds(m, g);
    }
    if d.chain != [] && Selects(m, d.chain[|d.chain| - 1], d.names) { OwnHome(m, d); }
  }

  lemma AgreePrefix(c: Chain, d: Chain, n: nat)
    requires Agree(c, d) && n <= |c|
    ensures Agree(c[..n], d)
  {
    var f := c[..n];
    forall i, j | 0 <= i < |f| && 0 <= j < |d| && f[i] == d[j] ensures i == j && f[..i + 1] == d[..j + 1] {
      assert c[i] == d[j] && f[..i + 1] == c[..i + 1];
    }
  }

  lemma {:induction false} SharedHome(m: ScopeMap, d: Local, e: Local, n: nat)
    requires d.chain != [] && d.chain < e.chain && |d.chain| <= n <= |e.chain| && d.chain[|d.chain| - 1] in m
    requires !Selects(m, e.chain[|e.chain| - 1], e.names)
    requires forall k :: |d.chain| <= k < |e.chain| - 1 ==> e.chain[k] !in m
    ensures HomeTo(m, e, n) == d.chain
  {
    hide Selects;
    if n > |d.chain| { SharedHome(m, d, e, n - 1); }
  }

  /** An unselected local is reserved with the locals of the nearest scoped block around it, same name or not. */
  lemma {:induction false} UnselectedShares(m: ScopeMap, d: Local, e: Local)
    requires d.chain != [] && d.chain < e.chain && Selects(m, d.chain[|d.chain| - 1], d.names)
    requires !Selects(m, e.chain[|e.chain| - 1], e.names)
    requires forall k :: |d.chain| <= k < |e.chain| - 1 ==> e.chain[k] !in m
    ensures Reserved(m, d) == Reserved(m, e)
  {
    hide HomeTo;
    OwnHome(m, d);
    SharedHome(m, d, e, |e.chain|);
    ReservedIsHome(m, e, |e.chain|);
  }

  // ---- prefix and lookup, place by place ----

  /** Block `i` of the chain has a segment: an enclosing block when any name is scoped there, the declaring block when
      one of the names declared is. */
  predicate HasSegment(m: ScopeMap, d: Local, i: int) {
    0 <= i < |d.chain| && d.chain[i] in m && (i == |d.chain| - 1 ==> exists n :: n in d.names && n in m[d.chain[i]])
  }

  function SegmentsTo(m: ScopeMap, d: Local, n: nat): Prefix
    requires n <= |d.chain|
  {
    if n == 0 then [] else SegmentsTo(m, d, n - 1) + if HasSegment(m, d, n - 1) then [Blk(d.chain[n - 1])] else []
  }

  /** The prefix has the segments of those blocks, outermost first. */
  lemma {:induction false} PrefixExactly(m: ScopeMap, d: Local, n: nat)
    requires n <= |d.chain|
    ensures ReservedTo(m, d, n) == SegmentsTo(m, d, n)
  {
    if n > 0 { PrefixExactly(m, d, n - 1); }
  }

  /** A lookup answers with a scope exactly when that scope is at or around where it starts, holds the name, every scope
      inside it lets the lookup through, and none of them holds the name. */
  lemma {:induction false} LookupExactly(keys: Keys, prefix: Prefix, name: string, n: nat)
    requires n <= |prefix|
    ensures Lookup(keys, prefix, name) == Some(prefix[..n])
       <==> (prefix[..n], name) in keys && (forall k: nat :: n < k <= |prefix| ==> (prefix[..k], name) !in keys)
            && forall j :: n <= j < |prefix| ==> prefix[j].Blk? || prefix[j].open
  {
    assert prefix[..|prefix|] == prefix;
    if (prefix, name) !in keys && prefix != [] {
      var front := prefix[..|prefix| - 1];
      LookupIsAround(keys, front, name);
      if n < |prefix| {
        assert front[..n] == prefix[..n];
        assert forall k: nat :: k <= |front| ==> front[..k] == prefix[..k];
        LookupExactly(keys, front, name, n);
      }
    }
  }

  /** What a lookup answers with is where it starts, or around it. */
  lemma {:induction false} LookupIsAround(keys: Keys, prefix: Prefix, name: string)
    ensures Lookup(keys, prefix, name).Some? ==>
      exists n: nat :: n <= |prefix| && Lookup(keys, prefix, name) == Some(prefix[..n])
  {
    assert prefix[..|prefix|] == prefix;
    if (prefix, name) !in keys && prefix != [] {
      var front := prefix[..|prefix| - 1];
      LookupIsAround(keys, front, name);
      if n: nat :| n <= |front| && Lookup(keys, front, name) == Some(front[..n]) { assert front[..n] == prefix[..n]; }
    }
  }
}
