/** The merge of loaded units into one: each name once, from the unit that wins it; time scales and the
    consumed record alongside. */
module LinkMerge {
  import opened Wrappers
  import opened Sequences
  import opened Escapes
  import opened LinkClosure

  datatype Merged = Merged(items: seq<Item>, emitted: set<string>)

  /** A shadowed copy is skipped, and so is a name already emitted. */
  predicate Emits(m: UnitMap, key: CuKey, it: Item, emitted: set<string>) {
    it.name.Some? ==> (it.name.value in m ==> m[it.name.value] == key) && it.name.value !in emitted
  }

  function Emit(m: UnitMap, key: CuKey, it: Item, s: Merged): Merged {
    if !Emits(m, key, it, s.emitted) then s
    else Merged(s.items + [it], s.emitted + if it.name.Some? then {it.name.value} else {})
  }

  function MergeItems(m: UnitMap, key: CuKey, items: seq<Item>, s: Merged): Merged {
    if items == [] then s else Emit(m, key, items[|items| - 1], MergeItems(m, key, items[..|items| - 1], s))
  }

  function ItemsOf(w: World, k: CuKey): seq<Item> {
    if w.blob(k).Some? then w.blob(k).value.items else []
  }

  function MergeAll(w: World, m: UnitMap, ks: seq<CuKey>): Merged {
    if ks == [] then Merged([], {})
    else MergeItems(m, ks[|ks| - 1], ItemsOf(w, ks[|ks| - 1]), MergeAll(w, m, ks[..|ks| - 1]))
  }

  // ---- time scales: the first loaded unit that sets one decides it ----

  function AddScales(x: map<string, int>, y: map<string, int>): map<string, int> { y + x }

  const NO_PREC: int := 127

  datatype Scales = Scales(unitExp: map<string, int>, precExp: map<string, int>, prec: int)

  function ScalesOf(w: World, ks: seq<CuKey>): Scales {
    if ks == [] then Scales(map[], map[], NO_PREC)
    else
      var front := ScalesOf(w, ks[..|ks| - 1]);
      match w.blob(ks[|ks| - 1])
      case None => front
      case Some(b) => Scales(AddScales(front.unitExp, b.unitExp), AddScales(front.precExp, b.precExp),
                             if b.prec < front.prec then b.prec else front.prec)
  }

  /** With no precision set anywhere, a nanosecond. */
  function WithDefault(s: Scales): Scales { if s.prec == NO_PREC then s.(prec := -9) else s }

  // ---- the loop ----

  method AddEntries(x0: map<string, int>, y: map<string, int>) returns (x: map<string, int>)
    ensures x == AddScales(x0, y)
  {
    hide AddScales;
    x := x0;
    var todo := y.Keys;
    while todo != {}
      invariant todo <= y.Keys <= x.Keys + todo && AddScales(x, y) == AddScales(x0, y)
      decreases |todo|
    {
      var k :| k in todo;
      todo := todo - {k};
      if k !in x {
        AddOne(x, y, k);
        x := x[k := y[k]];
      }
    }
    AddKnown(x, y);
  }

  lemma AddOne(x: map<string, int>, y: map<string, int>, k: string)
    requires k in y && k !in x
    ensures AddScales(x[k := y[k]], y) == AddScales(x, y)
  {
  }

  lemma AddKnown(x: map<string, int>, y: map<string, int>)
    requires y.Keys <= x.Keys
    ensures AddScales(x, y) == x
  {
  }

  method Merge(w: World, m: UnitMap, loaded: seq<CuKey>) returns (out: Merged, scales: Scales)
    requires forall k :: k in loaded ==> w.blob(k).Some?
    ensures out == MergeAll(w, m, loaded)
    ensures scales == WithDefault(ScalesOf(w, loaded))
  {
    hide Emit, AddScales;
    out, scales := Merged([], {}), Scales(map[], map[], NO_PREC);
    for i := 0 to |loaded|
      invariant out == MergeAll(w, m, loaded[..i]) && scales == ScalesOf(w, loaded[..i])
    {
      assert loaded[..i + 1][..i] == loaded[..i];
      var b := w.blob(loaded[i]).value;
      var unitExp := AddEntries(scales.unitExp, b.unitExp);
      var precExp := AddEntries(scales.precExp, b.precExp);
      scales := Scales(unitExp, precExp, if b.prec < scales.prec then b.prec else scales.prec);
      out := MergeUnit(m, loaded[i], b.items, out);
    }
    assert loaded[..|loaded|] == loaded;
    scales := WithDefault(scales);
  }

  method MergeUnit(m: UnitMap, key: CuKey, items: seq<Item>, s: Merged) returns (out: Merged)
    ensures out == MergeItems(m, key, items, s)
  {
    var merged, emitted := s.items, s.emitted;
    for j := 0 to |items|
      invariant Merged(merged, emitted) == MergeItems(m, key, items[..j], s)
    {
      assert items[..j + 1][..j] == items[..j];
      var it := items[j];
      if it.name.Some? {
        var n := it.name.value;
        if n in m && m[n] != key {
          continue;
        }
        if n in emitted {
          continue;
        }
        emitted := emitted + {n};
      }
      merged := merged + [it];
    }
    assert items[..|items|] == items;
    out := Merged(merged, emitted);
  }

  // ---- what the merge guarantees ----

  /** The named items carry the emitted names, each once. */
  predicate Tidy(s: Merged) {
    (forall i :: 0 <= i < |s.items| && s.items[i].name.Some? ==> s.items[i].name.value in s.emitted)
    && (forall n :: n in s.emitted ==> exists i :: 0 <= i < |s.items| && s.items[i].name == Some(n))
    && (forall i, j :: 0 <= i < j < |s.items| && s.items[i].name.Some? ==> s.items[i].name != s.items[j].name)
  }

  predicate Extends(s: Merged, t: Merged) {
    s.items <= t.items && s.emitted <= t.emitted
  }

  lemma {:induction false} EmitTidy(m: UnitMap, key: CuKey, it: Item, s: Merged)
    requires Tidy(s)
    ensures Tidy(Emit(m, key, it, s)) && Extends(s, Emit(m, key, it, s))
  {
    if Emits(m, key, it, s.emitted) {
      var t := Emit(m, key, it, s);
      assert t.items[|s.items|] == it;
      forall n | n in t.emitted ensures exists i :: 0 <= i < |t.items| && t.items[i].name == Some(n) {
        if n in s.emitted {
          var i :| 0 <= i < |s.items| && s.items[i].name == Some(n);
          assert t.items[i].name == Some(n);
        } else {
          assert t.items[|s.items|].name == Some(n);
        }
      }
    }
  }

  lemma {:induction false} ItemsTidy(m: UnitMap, key: CuKey, items: seq<Item>, s: Merged)
    requires Tidy(s)
    ensures Tidy(MergeItems(m, key, items, s)) && Extends(s, MergeItems(m, key, items, s))
  {
    hide Emit, Tidy;
    if items != [] {
      ItemsTidy(m, key, items[..|items| - 1], s);
      EmitTidy(m, key, items[|items| - 1], MergeItems(m, key, items[..|items| - 1], s));
    }
  }

  /** Each name is emitted once. */
  lemma {:induction false} NamesOnce(w: World, m: UnitMap, ks: seq<CuKey>)
    ensures Tidy(MergeAll(w, m, ks))
  {
    if ks != [] {
      NamesOnce(w, m, ks[..|ks| - 1]);
      ItemsTidy(m, ks[|ks| - 1], ItemsOf(w, ks[|ks| - 1]), MergeAll(w, m, ks[..|ks| - 1]));
    }
  }

  predicate Has(items: seq<Item>, n: string) { exists i :: 0 <= i < |items| && items[i].name == Some(n) }

  /** `it` is an item of a loaded unit entitled to it. */
  ghost predicate Entitled(w: World, m: UnitMap, ks: seq<CuKey>, it: Item) {
    exists k :: k in ks && it in ItemsOf(w, k) && (it.name.Some? && it.name.value in m ==> m[it.name.value] == k)
  }

  lemma {:induction false} EmitFrom(m: UnitMap, key: CuKey, items: seq<Item>, s: Merged, it: Item)
    requires it in MergeItems(m, key, items, s).items
    ensures it in s.items || (it in items && (it.name.Some? && it.name.value in m ==> m[it.name.value] == key))
  {
    if items != [] {
      var front, last := items[..|items| - 1], items[|items| - 1];
      assert items == front + [last];
      if it in MergeItems(m, key, front, s).items { EmitFrom(m, key, front, s, it); }
    }
  }

  /** A name the libraries list comes from the unit that wins it, whatever else defines it. */
  lemma {:induction false} OnlyFromWinner(w: World, m: UnitMap, ks: seq<CuKey>, it: Item)
    requires it in MergeAll(w, m, ks).items
    ensures Entitled(w, m, ks, it)
  {
    hide MergeItems;
    if ks != [] {
      var front, last := ks[..|ks| - 1], ks[|ks| - 1];
      assert ks == front + [last] && last in ks;
      EmitFrom(m, last, ItemsOf(w, last), MergeAll(w, m, front), it);
      if it in MergeAll(w, m, front).items {
        OnlyFromWinner(w, m, front, it);
        var k :| k in front && it in ItemsOf(w, k) && (it.name.Some? && it.name.value in m ==> m[it.name.value] == k);
        assert k in ks;
      }
    }
  }

  lemma {:induction false} EmitAll(m: UnitMap, key: CuKey, items: seq<Item>, s: Merged, it: Item)
    requires Tidy(s) && it in items && (it.name.Some? && it.name.value in m ==> m[it.name.value] == key)
    ensures var t := MergeItems(m, key, items, s);
      if it.name.Some? then it.name.value in t.emitted else it in t.items
  {
    var front, last := items[..|items| - 1], items[|items| - 1];
    assert items == front + [last];
    ItemsTidy(m, key, front, s);
    EmitTidy(m, key, last, MergeItems(m, key, front, s));
    if it in front {
      EmitAll(m, key, front, s, it);
      Kept(MergeItems(m, key, front, s), MergeItems(m, key, items, s), it);
    }
  }

  lemma Kept(s: Merged, t: Merged, it: Item)
    requires Extends(s, t)
    ensures it in s.items ==> it in t.items
  {
  }

  /** Nothing entitled is lost: an item without a name is there, a name is there at least once. */
  lemma {:induction false} NothingLost(w: World, m: UnitMap, ks: seq<CuKey>, it: Item)
    requires Entitled(w, m, ks, it)
    ensures var t := MergeAll(w, m, ks); if it.name.Some? then it.name.value in t.emitted else it in t.items
  {
    hide MergeItems, Tidy;
    var k :| k in ks && it in ItemsOf(w, k) && (it.name.Some? && it.name.value in m ==> m[it.name.value] == k);
    var front, last := ks[..|ks| - 1], ks[|ks| - 1];
    assert ks == front + [last];
    NamesOnce(w, m, front);
    ItemsTidy(m, last, ItemsOf(w, last), MergeAll(w, m, front));
    if k in front {
      assert Entitled(w, m, front, it);
      NothingLost(w, m, front, it);
      Kept(MergeAll(w, m, front), MergeAll(w, m, ks), it);
    } else {
      EmitAll(m, last, ItemsOf(w, last), MergeAll(w, m, front), it);
    }
  }

  /** Manifests that list no unit their blob does not define. */
  ghost predicate Accurate(w: World) {
    forall k, n :: Lists(w, k, n) && w.blob(k).Some? ==> Has(ItemsOf(w, k), n)
  }

  /** The composed unit stands on its own: every name a loaded unit instantiates, and every top, is
      defined in it once if any library lists it, by the item of the first library that does. */
  lemma {:induction false} LinkedIsComplete(w: World, m: UnitMap, tops: seq<string>, ks: seq<CuKey>, n: string)
    requires Accurate(w) && IsUnitMap(w, m) && Closed(w, m, tops, Members(ks)) && n in m
    requires forall k :: k in ks ==> w.blob(k).Some?
    requires n in tops || exists k :: k in ks && n in w.blob(k).value.inst
    ensures Has(MergeAll(w, m, ks).items, n)
    ensures m[n] in ks && Wins(w, n, m[n])
    ensures forall it :: it in MergeAll(w, m, ks).items && it.name == Some(n) ==> it in ItemsOf(w, m[n])
  {
    hide MergeAll;
    assert m[n] in Members(ks) by { AskedFor(w, m, tops, ks, n); }
    var items := ItemsOf(w, m[n]);
    assert Lists(w, m[n], n) && Has(items, n);
    var i :| 0 <= i < |items| && items[i].name == Some(n);
    assert items[i] in items && Entitled(w, m, ks, items[i]);
    NothingLost(w, m, ks, items[i]);
    NamesOnce(w, m, ks);
    forall it | it in MergeAll(w, m, ks).items && it.name == Some(n) ensures it in items {
      OnlyFromWinner(w, m, ks, it);
    }
  }

  lemma AskedFor(w: World, m: UnitMap, tops: seq<string>, ks: seq<CuKey>, n: string)
    requires Closed(w, m, tops, Members(ks)) && n in m && forall k :: k in ks ==> w.blob(k).Some?
    requires n in tops || exists k :: k in ks && n in w.blob(k).value.inst
    ensures m[n] in Members(ks)
  {
    if n in tops {
      assert m[n] in Resolved(m, tops);
    } else {
      var k :| k in ks && n in w.blob(k).value.inst;
      assert k in Members(ks) && m[n] in Asks(w, m, k);
    }
  }

  /** The two scale maps of a blob, and of the merge. */
  datatype Which = UnitExp | PrecExp

  function ScaleIn(w: World, k: CuKey, which: Which): map<string, int> {
    match w.blob(k)
    case None => map[]
    case Some(b) => if which.UnitExp? then b.unitExp else b.precExp
  }

  function MergedScale(s: Scales, which: Which): map<string, int> {
    if which.UnitExp? then s.unitExp else s.precExp
  }

  /** The unit loaded first of those that set the name. */
  ghost predicate FirstWith(w: World, ks: seq<CuKey>, which: Which, n: string, k: nat) {
    k < |ks| && n in ScaleIn(w, ks[k], which) && forall j: nat :: j < k ==> n !in ScaleIn(w, ks[j], which)
  }

  /** The items go to the unit that wins the name, each of its two scales to the unit loaded first that sets
      it: they can come from different units. */
  lemma {:induction false} FirstLoadedScale(w: World, ks: seq<CuKey>, which: Which, n: string, k: nat)
    requires FirstWith(w, ks, which, n, k)
    ensures n in MergedScale(ScalesOf(w, ks), which)
    ensures MergedScale(ScalesOf(w, ks), which)[n] == ScaleIn(w, ks[k], which)[n]
  {
    hide ScalesOf, MergedScale, ScaleIn;
    var front, last := ks[..|ks| - 1], ks[|ks| - 1];
    ScaleStep(w, ks, which);
    if k < |front| {
      FirstLoadedScale(w, front, which, n, k);
    } else {
      ScaleIsSome(w, front, which, n);
    }
  }

  lemma {:induction false} ScaleStep(w: World, ks: seq<CuKey>, which: Which)
    requires ks != []
    ensures MergedScale(ScalesOf(w, ks), which)
         == ScaleIn(w, ks[|ks| - 1], which) + MergedScale(ScalesOf(w, ks[..|ks| - 1]), which)
  {
  }

  /** A name has a scale exactly when some unit sets one. */
  lemma {:induction false} ScaleIsSome(w: World, ks: seq<CuKey>, which: Which, n: string)
    ensures n in MergedScale(ScalesOf(w, ks), which) <==> exists k :: k in ks && n in ScaleIn(w, k, which)
  {
    hide MergedScale, ScaleIn;
    if ks == [] {
      assert n !in MergedScale(ScalesOf(w, ks), which) by { NoScales(w, which); }
    } else {
      var front, last := ks[..|ks| - 1], ks[|ks| - 1];
      assert ks == front + [last];
      ScaleIsSome(w, front, which, n);
      ScaleStep(w, ks, which);
    }
  }

  lemma NoScales(w: World, which: Which)
    ensures MergedScale(ScalesOf(w, []), which) == map[]
  {
  }

  /** The finest precision of any, or a nanosecond when none sets one. */
  lemma {:induction false} FinestPrecision(w: World, ks: seq<CuKey>)
    ensures forall k :: k in ks && w.blob(k).Some? ==> ScalesOf(w, ks).prec <= w.blob(k).value.prec
    ensures ScalesOf(w, ks).prec == NO_PREC
      || exists k :: k in ks && w.blob(k).Some? && ScalesOf(w, ks).prec == w.blob(k).value.prec
  {
    if ks != [] {
      var front, last := ks[..|ks| - 1], ks[|ks| - 1];
      assert ks == front + [last];
      FinestPrecision(w, front);
    }
  }

  // ---- what the snapshot records ----

  /** The files of the loaded units, sources before includes. */
  function FilesOf(w: World, ks: seq<CuKey>): seq<(string, Digest)>
    requires forall k :: k in ks ==> IsCu(w, k)
  {
    if ks == [] then []
    else
      var cu := CuOf(w, ks[|ks| - 1]);
      FilesOf(w, ks[..|ks| - 1]) + cu.sources + cu.includes
  }

  method AddFiles(files: seq<(string, Digest)>, out0: seq<(string, Digest)>, ghost all: seq<(string, Digest)>)
      returns (out: seq<(string, Digest)>)
    requires Once(out0) && Members(out0) == Members(all)
    ensures Once(out) && Members(out) == Members(all + files) && out0 <= out
  {
    out := out0;
    assert all + files[..0] == all;
    for k := 0 to |files|
      invariant Once(out) && Members(out) == Members(all + files[..k]) && out0 <= out
    {
      assert all + files[..k + 1] == all + files[..k] + [files[k]];
      OnceSnoc(all + files[..k], files[k]);
      OnceSnoc(out, files[k]);
      assert files[k] in out <==> files[k] in Members(out);
      if files[k] !in out { out := out + [files[k]]; }
    }
    assert files[..|files|] == files;
  }

  /** The consumed record names every source and include of every loaded unit, once per content. */
  method Consumed(w: World, loaded: seq<CuKey>) returns (files: seq<(string, Digest)>)
    requires forall k :: k in loaded ==> IsCu(w, k)
    ensures Once(files) && Members(files) == Members(FilesOf(w, loaded))
  {
    files := [];
    for i := 0 to |loaded|
      invariant Once(files) && Members(files) == Members(FilesOf(w, loaded[..i]))
    {
      assert loaded[..i + 1][..i] == loaded[..i];
      var cu := CuOf(w, loaded[i]);
      ghost var all := FilesOf(w, loaded[..i]);
      files := AddFiles(cu.sources, files, all);
      files := AddFiles(cu.includes, files, all + cu.sources);
    }
    assert loaded[..|loaded|] == loaded;
  }
}
