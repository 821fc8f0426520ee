/** Linking told from outside: which unit a name resolves to, which units are loaded and in what order, and which
    items, precision and files the composed unit has. */
module LinkAccount {
  import opened Wrappers
  import opened Sequences
  import opened Escapes
  import opened LinkClosure
  import opened LinkMerge

  // ---- resolution ----

  predicate ListedAt(w: World, li: nat, ci: nat, n: string) {
    li < |w.libs| && ci < |w.libs[li].manifest.cus| && exists u :: u in w.libs[li].manifest.cus[ci].units && u.1 == n
  }

  /** A name resolves to the unit that lists it, of the first library in search order that has one, and of the first
      such unit in that library's manifest. */
  lemma {:induction false} ResolvesExactly(w: World, m: UnitMap, n: string, li: nat, ci: nat)
    requires IsUnitMap(w, m)
    ensures n in m && m[n] == (li, ci)
       <==> ListedAt(w, li, ci, n)
            && forall lj: nat, cj: nat :: ListedAt(w, lj, cj, n) ==> li < lj || (li == lj && ci <= cj)
  {
    forall lj: nat, cj: nat ensures ListedAt(w, lj, cj, n) <==> Lists(w, (lj, cj), n) {}
    if n in m && m[n] == (li, ci) {
      assert Wins(w, n, m[n]);
      forall lj: nat, cj: nat | ListedAt(w, lj, cj, n) ensures li < lj || (li == lj && ci <= cj) {
        assert Before(m[n], (lj, cj));
      }
    }
    if ListedAt(w, li, ci, n) {
      assert n in m && Wins(w, n, m[n]);
      assert m[n] == (m[n].0, m[n].1) && ListedAt(w, m[n].0, m[n].1, n);
      assert Before(m[n], (li, ci));
    }
  }

  // ---- loading ----

  /** `n` is instantiated by unit `k`. */
  predicate Needs(w: World, k: CuKey, n: string) { w.blob(k).Some? && n in w.blob(k).value.inst }

  /** Each unit of the chain instantiates a name that resolves to the next; the first is a top's. */
  ghost predicate NeedChain(w: World, m: UnitMap, tops: seq<string>, c: seq<CuKey>) {
    c != [] && (exists n :: n in tops && n in m && m[n] == c[0])
    && forall i :: 0 <= i < |c| - 1 ==> Follows(w, m, c[i], c[i + 1])
  }

  ghost predicate Follows(w: World, m: UnitMap, j: CuKey, k: CuKey) { exists n :: Needs(w, j, n) && n in m && m[n] == k }

  ghost predicate Needed(w: World, m: UnitMap, tops: seq<string>, k: CuKey) {
    exists c :: NeedChain(w, m, tops, c) && c[|c| - 1] == k
  }

  lemma AsksIs(w: World, m: UnitMap, j: CuKey, k: CuKey)
    ensures k in Asks(w, m, j) <==> Follows(w, m, j, k)
  {
  }

  lemma {:induction false} ChainIsClosed(w: World, m: UnitMap, tops: seq<string>, s: set<CuKey>, c: seq<CuKey>)
    requires Closed(w, m, tops, s) && NeedChain(w, m, tops, c)
    ensures c[|c| - 1] in s
    decreases |c|
  {
    if |c| == 1 {
      var n :| n in tops && n in m && m[n] == c[0];
      assert m[n] in Resolved(m, tops);
    } else {
      var front := c[..|c| - 1];
      assert forall i :: 0 <= i < |front| - 1 ==> Follows(w, m, front[i], front[i + 1]) by {
        forall i | 0 <= i < |front| - 1 ensures Follows(w, m, front[i], front[i + 1]) {
          assert Follows(w, m, c[i], c[i + 1]);
        }
      }
      ChainIsClosed(w, m, tops, s, front);
      assert Follows(w, m, c[|c| - 2], c[|c| - 1]);
      AsksIs(w, m, c[|c| - 2], c[|c| - 1]);
    }
  }

  /** The needed units among some. */
  ghost function NeededOf(w: World, m: UnitMap, tops: seq<string>, s: set<CuKey>): set<CuKey> {
    set k | k in s && Needed(w, m, tops, k)
  }

  lemma {:induction false} NeededClosed(w: World, m: UnitMap, tops: seq<string>, s: set<CuKey>)
    requires Closed(w, m, tops, s)
    ensures Closed(w, m, tops, NeededOf(w, m, tops, s))
  {
    hide Asks;
    var t := NeededOf(w, m, tops, s);
    forall k | k in Resolved(m, tops) ensures k in t { assert NeedChain(w, m, tops, [k]) && [k][|[k]| - 1] == k; }
    forall j, k | j in t && k in Asks(w, m, j) ensures k in t {
      AsksIs(w, m, j, k);
      var c :| NeedChain(w, m, tops, c) && c[|c| - 1] == j;
      var more := c + [k];
      forall i | 0 <= i < |more| - 1 ensures Follows(w, m, more[i], more[i + 1]) {
        if i < |c| - 1 { assert Follows(w, m, c[i], c[i + 1]); }
      }
      assert NeedChain(w, m, tops, more) && more[|more| - 1] == k;
    }
  }

  /** What is loaded is exactly what a chain of instantiations from a top leads to. */
  lemma {:induction false} LoadedExactly(w: World, m: UnitMap, tops: seq<string>, s: set<CuKey>, k: CuKey)
    requires Closed(w, m, tops, s) && InEveryClosed(w, m, tops, s)
    ensures k in s <==> Needed(w, m, tops, k)
  {
    hide Closed;
    NeededClosed(w, m, tops, s);
    if Needed(w, m, tops, k) {
      var c :| NeedChain(w, m, tops, c) && c[|c| - 1] == k;
      ChainIsClosed(w, m, tops, s, c);
    }
  }

  /** Asked for at `i`, and not before. */
  predicate AskedAt(m: UnitMap, names: seq<string>, i: int, k: CuKey) { 0 <= i < |names| && names[i] in m && m[names[i]] == k }

  predicate AskedFirst(m: UnitMap, names: seq<string>, j: CuKey, k: CuKey) {
    exists i :: 0 <= i < |names| && AskedAt(m, names, i, j) && forall h :: 0 <= h <= i ==> !AskedAt(m, names, h, k)
  }

  /** Units stand in the order of their first mention. */
  lemma {:induction false} AskedInOrder(m: UnitMap, names: seq<string>)
    ensures forall x, y :: 0 <= x < y < |FirstAsked(m, names)| ==> AskedFirst(m, names, FirstAsked(m, names)[x], FirstAsked(m, names)[y])
  {
    if names != [] {
      var front, last := names[..|names| - 1], names[|names| - 1];
      assert names == front + [last];
      AskedInOrder(m, front);
      FirstAskedOnce(m, front);
      var was, now := FirstAsked(m, front), FirstAsked(m, names);
      forall x, y | 0 <= x < y < |now| ensures AskedFirst(m, names, now[x], now[y]) {
        if y < |was| {
          assert AskedFirst(m, front, was[x], was[y]);
          LaterAsked(m, front, last, was[x], was[y]);
        } else {
          assert now[y] !in was && now[y] !in Members(was);
          assert now[x] in Members(was);
          NeverAsked(m, front, last, now[x], now[y]);
        }
      }
    }
  }

  lemma LaterAsked(m: UnitMap, front: seq<string>, last: string, j: CuKey, k: CuKey)
    requires AskedFirst(m, front, j, k)
    ensures AskedFirst(m, front + [last], j, k)
  {
    var i :| 0 <= i < |front| && AskedAt(m, front, i, j) && forall h :: 0 <= h <= i ==> !AskedAt(m, front, h, k);
    var names := front + [last];
    assert AskedAt(m, names, i, j);
    forall h | 0 <= h <= i ensures !AskedAt(m, names, h, k) { assert !AskedAt(m, front, h, k); }
  }

  lemma NeverAsked(m: UnitMap, front: seq<string>, last: string, j: CuKey, k: CuKey)
    requires j in Resolved(m, front) && k !in Resolved(m, front)
    ensures AskedFirst(m, front + [last], j, k)
  {
    var n :| n in front && n in m && m[n] == j;
    var i :| 0 <= i < |front| && front[i] == n;
    var names := front + [last];
    assert AskedAt(m, names, i, j);
    forall h | 0 <= h <= i ensures !AskedAt(m, names, h, k) {
      assert names[h] == front[h] && front[h] in front;
      if front[h] in m { assert m[front[h]] in Resolved(m, front); }
    }
  }

  lemma InstSplits(w: World, x: seq<CuKey>, k: CuKey)
    ensures Inst(w, x + [k]) == Inst(w, x) + if w.blob(k).Some? then w.blob(k).value.inst else []
  {
    assert (x + [k])[..|x|] == x;
  }

  /** The names that units instantiate are those of the first, then those of the next. */
  lemma {:induction false} InstJoins(w: World, x: seq<CuKey>, y: seq<CuKey>)
    ensures Inst(w, x + y) == Inst(w, x) + Inst(w, y)
  {
    hide Inst;
    if y == [] {
      assert x + y == x;
      NoInst(w);
    } else {
      var front, last := y[..|y| - 1], y[|y| - 1];
      assert y == front + [last] && x + y == x + front + [last];
      InstJoins(w, x, front);
      InstSplits(w, x + front, last);
      InstSplits(w, front, last);
    }
  }

  lemma NoInst(w: World)
    ensures Inst(w, []) == []
  {
  }

  // ---- merging ----

  /** The items of the loaded units as they come by, each with its unit. */
  function Stream(w: World, ks: seq<CuKey>): seq<(CuKey, Item)> {
    if ks == [] then [] else Stream(w, ks[..|ks| - 1]) + Of(ks[|ks| - 1], ItemsOf(w, ks[|ks| - 1]))
  }

  function Of(k: CuKey, items: seq<Item>): (s: seq<(CuKey, Item)>)
    ensures |s| == |items| && forall i :: 0 <= i < |s| ==> s[i] == (k, items[i])
  {
    seq(|items|, i requires 0 <= i < |items| => (k, items[i]))
  }

  /** A named item that comes from the unit its name resolves to, if it resolves at all. */
  predicate Eligible(m: UnitMap, e: (CuKey, Item)) {
    e.1.name.Some? && (e.1.name.value in m ==> m[e.1.name.value] == e.0)
  }

  /** An item is taken when it has no name, or is the first eligible one of its name. */
  predicate Taken(m: UnitMap, s: seq<(CuKey, Item)>, p: int) {
    0 <= p < |s|
    && (s[p].1.name.None? || (Eligible(m, s[p]) && forall q :: 0 <= q < p && Eligible(m, s[q]) ==> s[q].1.name != s[p].1.name))
  }

  function TakenUpTo(m: UnitMap, s: seq<(CuKey, Item)>, n: nat): seq<Item>
    requires n <= |s|
  {
    if n == 0 then [] else TakenUpTo(m, s, n - 1) + if Taken(m, s, n - 1) then [s[n - 1].1] else []
  }

  function Fold(m: UnitMap, s: seq<(CuKey, Item)>): Merged {
    if s == [] then Merged([], {}) else Emit(m, s[|s| - 1].0, s[|s| - 1].1, Fold(m, s[..|s| - 1]))
  }

  lemma {:induction false} FoldItems(m: UnitMap, s: seq<(CuKey, Item)>, key: CuKey, items: seq<Item>)
    ensures Fold(m, s + Of(key, items)) == MergeItems(m, key, items, Fold(m, s))
  {
    hide Emit;
    if items == [] {
      assert s + Of(key, items) == s;
    } else {
      var front, last := items[..|items| - 1], items[|items| - 1];
      var all := s + Of(key, items);
      assert all[..|all| - 1] == s + Of(key, front) && all[|all| - 1] == (key, last);
      FoldItems(m, s, key, front);
    }
  }

  lemma {:induction false} FoldAll(w: World, m: UnitMap, ks: seq<CuKey>)
    ensures Fold(m, Stream(w, ks)) == MergeAll(w, m, ks)
  {
    hide Emit, MergeItems;
    if ks != [] {
      var front, last := ks[..|ks| - 1], ks[|ks| - 1];
      FoldAll(w, m, front);
      FoldItems(m, Stream(w, front), last, ItemsOf(w, last));
    }
  }

  lemma {:induction false} TakenPrefix(m: UnitMap, s: seq<(CuKey, Item)>, n: nat)
    requires n < |s|
    ensures TakenUpTo(m, s[..|s| - 1], n) == TakenUpTo(m, s, n)
  {
    hide Eligible;
    if n > 0 {
      TakenPrefix(m, s, n - 1);
      assert forall q :: 0 <= q < n ==> s[..|s| - 1][q] == s[q];
    }
  }

  lemma {:induction false} FoldTakes(m: UnitMap, s: seq<(CuKey, Item)>)
    ensures Fold(m, s).items == TakenUpTo(m, s, |s|)
    ensures forall n :: n in Fold(m, s).emitted <==> exists q :: 0 <= q < |s| && Eligible(m, s[q]) && s[q].1.name == Some(n)
  {
    if s != [] {
      var front, last := s[..|s| - 1], s[|s| - 1];
      FoldTakes(m, front);
      TakenPrefix(m, s, |front|);
      FoldStep(m, front, last, Fold(m, front));
      assert s == front + [last];
    }
  }

  lemma {:induction false} FoldStep(m: UnitMap, front: seq<(CuKey, Item)>, last: (CuKey, Item), was: Merged)
    requires forall n :: n in was.emitted <==> exists q :: 0 <= q < |front| && Eligible(m, front[q]) && front[q].1.name == Some(n)
    ensures var s, now := front + [last], Emit(m, last.0, last.1, was);
      now.items == was.items + (if Taken(m, s, |front|) then [last.1] else [])
      && forall n :: n in now.emitted <==> exists q :: 0 <= q < |s| && Eligible(m, s[q]) && s[q].1.name == Some(n)
  {
    var s, now := front + [last], Emit(m, last.0, last.1, was);
    assert s[|front|] == last && forall q :: 0 <= q < |front| ==> s[q] == front[q];
    if last.1.name.Some? {
      var n := last.1.name.value;
      if n in was.emitted { var q :| 0 <= q < |front| && Eligible(m, front[q]) && front[q].1.name == Some(n); assert s[q] == front[q]; }
      if !Taken(m, s, |front|) && Eligible(m, last) {
        var q :| 0 <= q < |front| && Eligible(m, s[q]) && s[q].1.name == last.1.name;
        assert front[q] == s[q];
      }
    }
    forall n ensures n in now.emitted <==> exists q :: 0 <= q < |s| && Eligible(m, s[q]) && s[q].1.name == Some(n) {
      if n in was.emitted { var q :| 0 <= q < |front| && Eligible(m, front[q]) && front[q].1.name == Some(n); assert s[q] == front[q]; }
      if q :| 0 <= q < |s| && Eligible(m, s[q]) && s[q].1.name == Some(n) {
        if q < |front| { assert front[q] == s[q]; }
      }
    }
  }

  /** The composed unit has, of the items as they come by unit after unit, those without a name and the first of each
      name that comes from the unit the name resolves to, in that order. */
  lemma {:induction false} MergedExactly(w: World, m: UnitMap, ks: seq<CuKey>)
    ensures MergeAll(w, m, ks).items == TakenUpTo(m, Stream(w, ks), |Stream(w, ks)|)
  {
    FoldAll(w, m, ks);
    FoldTakes(m, Stream(w, ks));
  }

  /** The precision is the finest any unit sets; 127 stands for none, and where no unit sets one it is a nanosecond. */
  lemma {:induction false} FinalPrecision(w: World, ks: seq<CuKey>)
    requires forall k :: k in ks ==> w.blob(k).Some? && w.blob(k).value.prec <= 127
    ensures var p := WithDefault(ScalesOf(w, ks)).prec;
      if forall k :: k in ks ==> w.blob(k).value.prec == 127 then p == -9
      else (exists k :: k in ks && p == w.blob(k).value.prec) && forall k :: k in ks ==> p <= w.blob(k).value.prec
    ensures WithDefault(ScalesOf(w, ks)).unitExp == ScalesOf(w, ks).unitExp
    ensures WithDefault(ScalesOf(w, ks)).precExp == ScalesOf(w, ks).precExp
  {
    hide ScalesOf;
    FinestPrecision(w, ks);
    BelowNone(w, ks);
  }

  lemma {:induction false} BelowNone(w: World, ks: seq<CuKey>)
    ensures ScalesOf(w, ks).prec <= 127
  {
    if ks != [] { BelowNone(w, ks[..|ks| - 1]); }
  }

  /** The consumed files are the sources and the includes of the loaded units. */
  lemma {:induction false} FilesAre(w: World, ks: seq<CuKey>, f: (string, Digest))
    requires forall k :: k in ks ==> IsCu(w, k)
    ensures f in FilesOf(w, ks) <==>
      exists k :: k in ks && (f in w.libs[k.0].manifest.cus[k.1].sources || f in w.libs[k.0].manifest.cus[k.1].includes)
  {
    if ks != [] {
      var front, last := ks[..|ks| - 1], ks[|ks| - 1];
      assert ks == front + [last];
      FilesAre(w, front, f);
    }
  }
}
