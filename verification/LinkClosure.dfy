/** Composing libraries: which compilation units are loaded for the given tops. Names resolve to the first
    library, in search order, that lists them; loading walks the instantiated names breadth first. */
module LinkClosure {
  import opened Wrappers
  import opened Sequences
  import opened Escapes
  import opened Manifest

  /** A compilation unit: the library's place in the search order, and the unit's place in its manifest. */
  type CuKey = (nat, nat)

  datatype Lib = Lib(name: string, dir: string, manifest: Library, digest: Digest)

  /** A top-level item; imports and the like have no name. */
  datatype Item = Item(name: Option<string>, text: nat)

  /** A decoded unit: its items, the names they instantiate, and its time scales. */
  datatype Blob = Blob(items: seq<Item>, inst: seq<string>, unitExp: map<string, int>, precExp: map<string, int>,
                       prec: int, digest: Digest)

  /** The libraries in search order, and each unit's blob when it can be read. */
  datatype World = World(libs: seq<Lib>, blob: CuKey -> Option<Blob>)

  predicate IsCu(w: World, k: CuKey) { k.0 < |w.libs| && k.1 < |w.libs[k.0].manifest.cus| }

  function CuOf(w: World, k: CuKey): Cu
    requires IsCu(w, k)
  {
    w.libs[k.0].manifest.cus[k.1]
  }

  /** The manifest lists `name` among the units of `k`. */
  predicate Lists(w: World, k: CuKey, name: string) {
    IsCu(w, k) && exists u :: u in CuOf(w, k).units && u.1 == name
  }

  predicate Before(j: CuKey, k: CuKey) { j.0 < k.0 || (j.0 == k.0 && j.1 <= k.1) }

  /** The first unit, in search order, that lists the name. */
  ghost predicate Wins(w: World, name: string, k: CuKey) {
    Lists(w, k, name) && forall j :: Lists(w, j, name) ==> Before(k, j)
  }

  // ---- the unit map ----

  type UnitMap = map<string, CuKey>

  /** The map holds the winner of every name listed before `end`. */
  ghost predicate MapUpTo(w: World, m: UnitMap, end: CuKey) {
    (forall n :: n in m ==> Lists(w, m[n], n))
    && (forall n, j :: Lists(w, j, n) && Before(j, end) && j != end ==> n in m)
    && (forall n, j :: n in m && Lists(w, j, n) ==> Before(m[n], j))
  }

  ghost predicate IsUnitMap(w: World, m: UnitMap) {
    (forall n :: n in m ==> Wins(w, n, m[n])) && (forall n, j :: Lists(w, j, n) ==> n in m)
  }

  method AddUnits(w: World, m0: UnitMap, li: nat, ci: nat) returns (m: UnitMap)
    requires IsCu(w, (li, ci)) && MapUpTo(w, m0, (li, ci))
    ensures MapUpTo(w, m, (li, ci + 1))
  {
    var units := CuOf(w, (li, ci)).units;
    m := m0;
    for k := 0 to |units|
      invariant MapUpTo(w, m, (li, ci)) && forall j :: 0 <= j < k ==> units[j].1 in m
    {
      assert units[k] in CuOf(w, (li, ci)).units;
      assert Lists(w, (li, ci), units[k].1);
      if units[k].1 !in m {
        m := m[units[k].1 := (li, ci)];
      }
    }
    MapStep(w, m, li, ci);
  }

  lemma MapStep(w: World, m: UnitMap, li: nat, ci: nat)
    requires IsCu(w, (li, ci)) && MapUpTo(w, m, (li, ci))
    requires forall k :: 0 <= k < |CuOf(w, (li, ci)).units| ==> CuOf(w, (li, ci)).units[k].1 in m
    ensures MapUpTo(w, m, (li, ci + 1))
  {
    var units := CuOf(w, (li, ci)).units;
    forall n, j | Lists(w, j, n) && Before(j, (li, ci + 1)) && j != (li, ci + 1) ensures n in m {
      if j == (li, ci) {
        var u :| u in units && u.1 == n;
        var i :| 0 <= i < |units| && units[i] == u;
        assert units[i].1 in m;
      } else {
        assert Before(j, (li, ci));
      }
    }
  }

  method BuildUnitMap(w: World) returns (m: UnitMap)
    ensures IsUnitMap(w, m)
  {
    m := map[];
    var li := 0;
    while li < |w.libs|
      invariant 0 <= li <= |w.libs| && MapUpTo(w, m, (li, 0))
    {
      var ci := 0;
      while ci < |w.libs[li].manifest.cus|
        invariant 0 <= ci <= |w.libs[li].manifest.cus| && MapUpTo(w, m, (li, ci))
      {
        m := AddUnits(w, m, li, ci);
        ci := ci + 1;
      }
      NextLib(w, m, li);
      li := li + 1;
    }
    MapDone(w, m);
  }

  lemma NextLib(w: World, m: UnitMap, li: nat)
    requires li < |w.libs| && MapUpTo(w, m, (li, |w.libs[li].manifest.cus|))
    ensures MapUpTo(w, m, (li + 1, 0))
  {
    forall n, j | Lists(w, j, n) && Before(j, (li + 1, 0)) && j != (li + 1, 0) ensures n in m {
      assert Before(j, (li, |w.libs[li].manifest.cus|));
    }
  }

  lemma MapDone(w: World, m: UnitMap)
    requires MapUpTo(w, m, (|w.libs|, 0))
    ensures IsUnitMap(w, m)
  {
    forall n, j | Lists(w, j, n) ensures n in m {
      assert Before(j, (|w.libs|, 0));
    }
  }

  // ---- the closure ----

  /** The units the given names resolve to. */
  function Resolved(m: UnitMap, names: seq<string>): set<CuKey> {
    set n | n in names && n in m :: m[n]
  }

  /** What loading `k` asks for. */
  function Asks(w: World, m: UnitMap, k: CuKey): set<CuKey> {
    match w.blob(k)
    case None => {}
    case Some(b) => Resolved(m, b.inst)
  }

  /** A set of units that holds the tops and whatever its units ask for. */
  ghost predicate Closed(w: World, m: UnitMap, tops: seq<string>, s: set<CuKey>) {
    Resolved(m, tops) <= s && forall k :: k in s ==> Asks(w, m, k) <= s
  }

  ghost predicate InEveryClosed(w: World, m: UnitMap, tops: seq<string>, s: set<CuKey>) {
    forall t: set<CuKey> :: Closed(w, m, tops, t) ==> s <= t
  }

  datatype LoadError = NoTop(name: string) | NoBlob(key: CuKey)

  /** The units a list of names resolves to, in the order in which they are first asked for. */
  function FirstAsked(m: UnitMap, names: seq<string>): seq<CuKey> {
    if names == [] then []
    else
      var front, last := FirstAsked(m, names[..|names| - 1]), names[|names| - 1];
      if last in m && m[last] !in front then front + [m[last]] else front
  }

  lemma {:induction false} FirstAskedOnce(m: UnitMap, names: seq<string>)
    ensures Once(FirstAsked(m, names)) && Members(FirstAsked(m, names)) == Resolved(m, names)
  {
    if names != [] {
      var front, last := names[..|names| - 1], names[|names| - 1];
      FirstAskedOnce(m, front);
      assert names == front + [last];
      if last in m { OnceSnoc(FirstAsked(m, front), m[last]); }
    }
  }

  /** Every name the given units instantiate, unit by unit. */
  function Inst(w: World, ks: seq<CuKey>): seq<string> {
    if ks == [] then []
    else
      var b := w.blob(ks[|ks| - 1]);
      Inst(w, ks[..|ks| - 1]) + if b.Some? then b.value.inst else []
  }

  /** Seeing more names: each unit joins the queue the first time it is asked for. */
  method Enqueue(m: UnitMap, names: seq<string>, queue0: seq<CuKey>, seen0: set<CuKey>, ghost asked: seq<string>,
                 ghost done: seq<CuKey>)
      returns (queue: seq<CuKey>, seen: set<CuKey>)
    requires done + queue0 == FirstAsked(m, asked) && seen0 == Resolved(m, asked)
    ensures done + queue == FirstAsked(m, asked + names) && seen == Resolved(m, asked + names)
  {
    hide FirstAsked, Resolved;
    queue, seen := queue0, seen0;
    assert asked + names[..0] == asked;
    for k := 0 to |names|
      invariant done + queue == FirstAsked(m, asked + names[..k]) && seen == Resolved(m, asked + names[..k])
    {
      assert asked + names[..k + 1] == asked + names[..k] + [names[k]];
      AskedSnoc(m, asked + names[..k], names[k]);
      if names[k] in m {
        var key := m[names[k]];
        assert done + (queue + [key]) == done + queue + [key];
        if key !in seen {
          queue, seen := queue + [key], seen + {key};
        }
      }
    }
    assert names[..|names|] == names;
  }

  lemma {:induction false} AskedSnoc(m: UnitMap, asked: seq<string>, n: string)
    ensures Resolved(m, asked + [n]) == Resolved(m, asked) + if n in m then {m[n]} else {}
    ensures FirstAsked(m, asked + [n])
         == FirstAsked(m, asked) + if n in m && m[n] !in Resolved(m, asked) then [m[n]] else []
  {
    var all := asked + [n];
    assert all[..|all| - 1] == asked;
    FirstAskedOnce(m, asked);
    assert forall k :: k in FirstAsked(m, asked) <==> k in Members(FirstAsked(m, asked));
  }

  /** Load the tops and everything they need, each unit once, in the order in which it is first asked for. */
  method Load(w: World, m: UnitMap, tops: seq<string>) returns (r: Result<seq<CuKey>, LoadError>)
    ensures r.Ok? ==>
      Once(r.value) && Closed(w, m, tops, Members(r.value)) && InEveryClosed(w, m, tops, Members(r.value))
      && (forall n :: n in tops ==> n in m) && (forall k :: k in r.value ==> w.blob(k).Some?)
    ensures r.Ok? ==> r.value == FirstAsked(m, tops + Inst(w, r.value))
    ensures r.Err? && r.error.NoTop? ==> r.error.name in tops && r.error.name !in m
    ensures r.Err? && r.error.NoBlob? ==>
      w.blob(r.error.key).None? && InEveryClosed(w, m, tops, {r.error.key})
  {
    hide FirstAsked, Resolved, Closed;
    for k := 0 to |tops|
      invariant forall j :: 0 <= j < k ==> tops[j] in m
    {
      if tops[k] !in m {
        return Err(NoTop(tops[k]));
      }
    }
    NothingAsked(m);
    var queue, seen := Enqueue(m, tops, [], {}, [], []);
    ghost var asked := tops;
    assert [] + tops == tops && [] + queue == queue && tops + [] == tops;
    var loaded: seq<CuKey> := [];
    TopsAsked(w, m, tops);
    while queue != []
      invariant asked == tops + Inst(w, loaded)
      invariant loaded + queue == FirstAsked(m, asked) && seen == Resolved(m, asked)
      invariant InEveryClosed(w, m, tops, seen)
      invariant forall k :: k in loaded ==> w.blob(k).Some?
      decreases |m.Values| - |loaded|
    {
      var key := queue[0];
      FirstAskedOnce(m, asked);
      KeyAsked(w, m, tops, asked, key);
      var blob := w.blob(key);
      if blob.None? {
        return Err(NoBlob(key));
      }
      ghost var before := asked;
      asked := asked + blob.value.inst;
      assert loaded + queue == loaded + [key] + queue[1..];
      queue, seen := Enqueue(m, blob.value.inst, queue[1..], seen, before, loaded + [key]);
      InstSnoc(w, tops, loaded, key);
      MoreAsked(w, m, tops, before, key);
      FirstAskedOnce(m, asked);
      LoadedFits(m, asked, loaded + [key], queue);
      loaded := loaded + [key];
    }
    assert loaded + [] == loaded;
    FirstAskedOnce(m, asked);
    AskedIsClosed(w, m, tops, loaded);
    r := Ok(loaded);
  }

  lemma NothingAsked(m: UnitMap)
    ensures [] + [] == FirstAsked(m, []) && {} == Resolved(m, [])
  {
  }

  lemma TopsAsked(w: World, m: UnitMap, tops: seq<string>)
    ensures InEveryClosed(w, m, tops, Resolved(m, tops)) && Inst(w, []) == []
  {
  }

  lemma KeyAsked(w: World, m: UnitMap, tops: seq<string>, asked: seq<string>, key: CuKey)
    requires InEveryClosed(w, m, tops, Resolved(m, asked)) && key in FirstAsked(m, asked)
    ensures InEveryClosed(w, m, tops, {key}) && key in Resolved(m, asked)
  {
    hide FirstAsked, Closed;
    FirstAskedOnce(m, asked);
    assert key in Members(FirstAsked(m, asked));
  }

  lemma InstSnoc(w: World, tops: seq<string>, ks: seq<CuKey>, key: CuKey)
    requires w.blob(key).Some?
    ensures tops + Inst(w, ks + [key]) == tops + Inst(w, ks) + w.blob(key).value.inst
  {
    assert (ks + [key])[..|ks|] == ks;
  }

  lemma ResolvedBoth(m: UnitMap, x: seq<string>, y: seq<string>)
    ensures Resolved(m, x + y) == Resolved(m, x) + Resolved(m, y)
  {
  }

  lemma MoreAsked(w: World, m: UnitMap, tops: seq<string>, asked: seq<string>, key: CuKey)
    requires InEveryClosed(w, m, tops, Resolved(m, asked)) && key in Resolved(m, asked) && w.blob(key).Some?
    ensures InEveryClosed(w, m, tops, Resolved(m, asked + w.blob(key).value.inst))
  {
    hide Resolved;
    ResolvedBoth(m, asked, w.blob(key).value.inst);
    forall t: set<CuKey> | Closed(w, m, tops, t) ensures Resolved(m, asked + w.blob(key).value.inst) <= t {
      assert Resolved(m, asked) <= t;
      assert Asks(w, m, key) <= t;
    }
  }

  lemma LoadedFits(m: UnitMap, asked: seq<string>, loaded: seq<CuKey>, queue: seq<CuKey>)
    requires loaded + queue == FirstAsked(m, asked)
    ensures |loaded| <= |m.Values|
  {
    FirstAskedOnce(m, asked);
    assert Resolved(m, asked) <= m.Values;
    OnceFits(loaded + queue, m.Values);
  }

  lemma {:induction false} InstHolds(w: World, ks: seq<CuKey>, k: CuKey, n: string)
    requires k in ks && w.blob(k).Some? && n in w.blob(k).value.inst
    ensures n in Inst(w, ks)
  {
    var front, last := ks[..|ks| - 1], ks[|ks| - 1];
    assert ks == front + [last];
    if k != last { InstHolds(w, front, k, n); }
  }

  /** When everything asked for is loaded, the loaded units are closed. */
  lemma AskedIsClosed(w: World, m: UnitMap, tops: seq<string>, loaded: seq<CuKey>)
    requires loaded == FirstAsked(m, tops + Inst(w, loaded))
    ensures Closed(w, m, tops, Members(loaded)) && Once(loaded)
    ensures Members(loaded) == Resolved(m, tops + Inst(w, loaded))
  {
    hide FirstAsked;
    FirstAskedOnce(m, tops + Inst(w, loaded));
    ResolvedBoth(m, tops, Inst(w, loaded));
    forall k | k in Members(loaded) ensures Asks(w, m, k) <= Members(loaded) {
      if w.blob(k).Some? {
        forall n | n in w.blob(k).value.inst ensures n in Inst(w, loaded) { InstHolds(w, loaded, k, n); }
      }
    }
  }
}
