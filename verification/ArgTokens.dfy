/** The command line told word by word: what its filelists stand for, and which of its words deduplication drops. */
module ArgTokens {
  import opened Wrappers
  import opened Paths
  import opened Filelist
  import opened IncludeTree
  import opened PathText
  import opened FileTokens
  import opened FilelistArgs

  // ---- the splice ----

  /** The word at `i` stands for this piece: a filelist seen from where the tool was started, or itself. */
  ghost predicate ArgSays(w: World, args: seq<string>, i: nat, kid: Piece, next: nat) {
    i < |args| &&
    if args[i] == "-f" || args[i] == "-F" then
      next == i + 2 && i + 1 < |args| && w.env(args[i + 1]).Some? && kid.Sub?
      && kid.tree.path == Normal(Seen(w.env(args[i + 1]).value, w.cwd)) && (kid.tree.big <==> args[i] == "-F")
    else next == i + 1 && kid == Words([args[i]])
  }

  ghost predicate ArgsTold(w: World, args: seq<string>, i: nat, kids: seq<Piece>)
    decreases |kids|
  {
    if kids == [] then i >= |args|
    else i < |args| && exists next: nat :: ArgSays(w, args, i, kids[0], next) && ArgsTold(w, args, next, kids[1..])
  }

  lemma {:induction false} ArgIs(w: World, args: seq<string>, i: nat, kid: Piece)
    requires i < |args| && Based(w.cwd)
    ensures IsInclude(args[i]) ==>
      (KidFits(w, kid, IncludeItem(w, args[i], args, i, w.cwd, false), []) <==> ArgSays(w, args, i, kid, i + 2) && SubFits(w, kid, []))
    ensures !IsInclude(args[i]) ==>
      (KidFits(w, kid, Emit([args[i]]), []) <==> ArgSays(w, args, i, kid, i + 1) && SubFits(w, kid, []))
  {
    hide Fits, Canon, Resolve, Normal, Components, Spelled;
    if i + 1 < |args| && w.env(args[i + 1]).Some? { TargetIsThere(w, w.env(args[i + 1]).value, w.cwd); }
  }

  lemma OneArgNext(w: World, args: seq<string>, i: nat, kid: Piece, next: nat)
    requires ArgSays(w, args, i, kid, next)
    ensures next == i + if IsInclude(args[i]) then 2 else 1
  {
  }

  lemma {:induction false} ArgsStep(w: World, args: seq<string>, i: nat)
    requires i < |args|
    ensures ArgItems(w, args, i)
         == if IsInclude(args[i]) then Then(IncludeItem(w, args[i], args, i, w.cwd, false), ArgItems(w, args, i + 2))
            else Then(Emit([args[i]]), ArgItems(w, args, i + 1))
  {
  }

  lemma {:induction false} ArgsToldExactly(w: World, args: seq<string>, i: nat, kids: seq<Piece>)
    requires Based(w.cwd)
    ensures KidsFit(w, kids, ArgItems(w, args, i), []) <==> ArgsTold(w, args, i, kids) && AllSubFit(w, kids, [])
    decreases |kids|
  {
    hide KidsFit, ArgItems, ArgSays, SubFits, Based, KidFits, IncludeItem;
    if i >= |args| {
      ArgsDone(w, args, i, kids);
    } else if kids == [] {
      ArgsLeft(w, args, i);
    } else {
      ArgsStep(w, args, i);
      ArgIs(w, args, i, kids[0]);
      var item, next := Emit([args[i]]), i + 1;
      if IsInclude(args[i]) { item, next := IncludeItem(w, args[i], args, i, w.cwd, false), i + 2; }
      ThenFits(w, kids, item, ArgItems(w, args, next), []);
      forall m: nat | ArgSays(w, args, i, kids[0], m) ensures m == next { OneArgNext(w, args, i, kids[0], m); }
      ArgsToldExactly(w, args, next, kids[1..]);
      AllSubStep(w, kids, []);
    }
  }

  lemma ArgsDone(w: World, args: seq<string>, i: nat, kids: seq<Piece>)
    requires i >= |args|
    ensures KidsFit(w, kids, ArgItems(w, args, i), []) <==> kids == []
  {
  }

  lemma ArgsLeft(w: World, args: seq<string>, i: nat)
    requires i < |args|
    ensures !KidsFit(w, [], ArgItems(w, args, i), [])
  {
    hide IncludeItem;
  }

  ghost predicate AllTell(w: World, kids: seq<Piece>) { forall k :: 0 <= k < |kids| ==> KidTells(w, kids[k], []) }

  lemma {:induction false} ArgSubsBased(w: World, args: seq<string>, i: nat, kids: seq<Piece>)
    requires Based(w.cwd) && ArgsTold(w, args, i, kids)
    ensures forall k :: 0 <= k < |kids| && kids[k].Sub? ==> Based(kids[k].tree.path)
    decreases |kids|
  {
    hide ArgSays, Based;
    if kids != [] {
      var next: nat :| ArgSays(w, args, i, kids[0], next) && ArgsTold(w, args, next, kids[1..]);
      ArgSubsBased(w, args, next, kids[1..]);
      if kids[0].Sub? { ArgSubBased(w, args, i, kids[0], next); }
      forall k | 0 <= k < |kids| && kids[k].Sub? ensures Based(kids[k].tree.path) {
        if k > 0 { assert kids[k] == kids[1..][k - 1]; }
      }
    }
  }

  lemma ArgSubBased(w: World, args: seq<string>, i: nat, kid: Piece, next: nat)
    requires Based(w.cwd) && kid.Sub? && ArgSays(w, args, i, kid, next)
    ensures Based(kid.tree.path)
  {
    hide Normal, Components, Spelled;
    var t := w.env(args[i + 1]).value;
    ComponentsSpelled(t);
    if !IsAbsolute(t) { JoinSpelled(w.cwd, Components(t)); }
    NormalSpelled(Seen(t, w.cwd));
  }

  /** The command line is spliced exactly when its filelists tell themselves, and then every word stands where it
      stood, each filelist replaced by what it says. */
  lemma {:induction false} ArgsExactly(w: World, args: seq<string>)
    requires Based(w.cwd)
    ensures ItemsOutcome(w, [], ArgItems(w, args, 0)).error.None? <==> exists kids :: ArgsTold(w, args, 0, kids) && AllTell(w, kids)
    ensures forall kids :: ArgsTold(w, args, 0, kids) && AllTell(w, kids) ==>
      var r := ItemsOutcome(w, [], ArgItems(w, args, 0));
      r.out == SpliceKids(kids) && r.opens == PreOrderKids(kids)
  {
    hide KidsFit, ArgItems, ItemsOutcome, Based, Tells, Fits;
    var items := ArgItems(w, args, 0);
    forall kids: seq<Piece> ensures KidsFit(w, kids, items, []) <==> ArgsTold(w, args, 0, kids) && AllTell(w, kids) {
      ArgsToldExactly(w, args, 0, kids);
      if ArgsTold(w, args, 0, kids) {
        ArgSubsBased(w, args, 0, kids);
        forall k | 0 <= k < |kids| ensures SubFits(w, kids[k], []) <==> KidTells(w, kids[k], []) {
          if kids[k].Sub? { FitsIsTells(w, kids[k].tree, []); }
        }
      }
    }
    forall kids: seq<Piece> | KidsFit(w, kids, items, [])
      ensures var r := ItemsOutcome(w, [], items); r.error.None? && r.out == SpliceKids(kids) && r.opens == PreOrderKids(kids)
    {
      KidsExpand(w, kids, items, []);
    }
    if ItemsOutcome(w, [], items).error.None? { var kids := ItemsHaveKids(w, [], items); }
  }

  // ---- the words that are dropped ----

  /** The word at `k` is the value of the flag before it. */
  predicate IsValue(s: seq<string>, k: int)
    decreases k
  {
    1 <= k < |s| && s[k - 1] in VALUE_FLAGS && !IsValue(s, k - 1)
  }

  /** The word at `k` names a source. */
  predicate IsSource(s: seq<string>, k: int) {
    0 <= k < |s| && !IsValue(s, k) && (s[k] == "" || (s[k][0] != '-' && s[k][0] != '+'))
  }

  /** Two words name one source: one physical file, or where there is none one path. */
  predicate SameSource(w: World, x: string, y: string) {
    var p, q := Normal(Seen(x, w.cwd)), Normal(Seen(y, w.cwd));
    (if p in w.ids then w.ids[p] else Render(p)) == if q in w.ids then w.ids[q] else Render(q)
  }

  predicate NamedBefore(w: World, s: seq<string>, k: int) {
    IsSource(s, k) && exists j :: 0 <= j < k && IsSource(s, j) && SameSource(w, s[j], s[k])
  }

  /** The words not named before, in order. */
  function Remaining(w: World, s: seq<string>, k: nat): seq<string>
    requires k <= |s|
  {
    if k == 0 then [] else Remaining(w, s, k - 1) + if NamedBefore(w, s, k - 1) then [] else [s[k - 1]]
  }

  lemma KeyIs(w: World, x: string, y: string)
    ensures Key(w, x) == Key(w, y) <==> SameSource(w, x, y)
  {
    hide Normal, Components, Render;
  }

  lemma {:induction false} PendingIs(s: seq<string>, k: nat)
    requires k <= |s|
    ensures Pending(s[..k]) <==> k > 0 && s[k - 1] in VALUE_FLAGS && !IsValue(s, k - 1)
  {
    if k > 0 {
      assert s[..k][..k - 1] == s[..k - 1] && s[..k][k - 1] == s[k - 1];
      PendingIs(s, k - 1);
      ValueFlagsAreFlags(s[k - 1]);
    }
  }

  lemma ValueFlagsAreFlags(tok: string)
    ensures tok in VALUE_FLAGS ==> IsFlag(tok)
  {
  }

  lemma {:induction false} EndsIs(s: seq<string>, k: nat)
    requires k < |s|
    ensures EndsInSource(s[..k + 1]) <==> IsSource(s, k)
  {
    hide Pending, TakesValue;
    assert s[..k + 1][..k] == s[..k] && s[..k + 1][k] == s[k];
    PendingIs(s, k);
  }

  lemma {:induction false} KeysBefore(w: World, s: seq<string>, k: nat, tok: string)
    requires k <= |s|
    ensures Key(w, tok) in SourceKeys(w, s[..k]) <==> exists j :: 0 <= j < k && IsSource(s, j) && SameSource(w, s[j], tok)
  {
    hide EndsInSource, IsSource, SameSource, Key;
    if k > 0 {
      assert s[..k][..k - 1] == s[..k - 1] && s[..k][k - 1] == s[k - 1];
      KeysBefore(w, s, k - 1, tok);
      EndsIs(s, k - 1);
      KeyIs(w, s[k - 1], tok);
    }
  }

  /** Deduplication drops a word exactly when it names a source that an earlier word names; every other word stays
      where it is, and there is a duplicate exactly when a word is dropped. */
  lemma {:induction false} KeptExactly(w: World, s: seq<string>, k: nat)
    requires k <= |s|
    ensures Kept(w, s[..k]) == Remaining(w, s, k)
    ensures HasDup(w, s[..k]) <==> exists j :: 0 <= j < k && NamedBefore(w, s, j)
  {
    hide EndsInSource, IsSource, SameSource, Key, SourceKeys;
    if k > 0 {
      assert s[..k][..k - 1] == s[..k - 1] && s[..k][k - 1] == s[k - 1];
      KeptExactly(w, s, k - 1);
      EndsIs(s, k - 1);
      KeysBefore(w, s, k - 1, s[k - 1]);
      assert EndsInDup(w, s[..k]) <==> NamedBefore(w, s, k - 1);
    }
  }

  /** Where no physical identity is known, words name one source exactly when they have one normal form. */
  lemma {:induction false} PathsDecide(w: World, x: string, y: string)
    requires Based(w.cwd)
    requires Normal(Seen(x, w.cwd)) !in w.ids && Normal(Seen(y, w.cwd)) !in w.ids
    ensures SameSource(w, x, y) <==> Normal(Seen(x, w.cwd)) == Normal(Seen(y, w.cwd))
  {
    hide Normal, Components, Spelled, Render;
    SeenSpelled(x, w.cwd);
    SeenSpelled(y, w.cwd);
    if SameSource(w, x, y) { RenderInjective(Normal(Seen(x, w.cwd)), Normal(Seen(y, w.cwd))); }
  }

  lemma SeenSpelled(t: string, dir: Path)
    requires Based(dir)
    ensures Spelled(Normal(Seen(t, dir)))
  {
    hide Normal, Components, Spelled;
    ComponentsSpelled(t);
    if !IsAbsolute(t) { JoinSpelled(dir, Components(t)); }
    NormalSpelled(Seen(t, dir));
  }

  /** The command line as a whole: untouched without a filelist; otherwise what its words stand for with each source
      kept once, unless a filelist does not tell itself or dropped duplicates disagree. */
  lemma {:induction false} FlatExactly(w: World, args: seq<string>)
    requires Based(w.cwd)
    ensures "-f" !in args && "-F" !in args ==> Flat(w, args) == Some((args, []))
    ensures "-f" in args || "-F" in args ==>
      (Flat(w, args).Some? <==> exists kids :: ArgsTold(w, args, 0, kids) && AllTell(w, kids) && Agreed(w, SpliceKids(kids)))
      && forall kids :: ArgsTold(w, args, 0, kids) && AllTell(w, kids) && Agreed(w, SpliceKids(kids)) ==>
           Flat(w, args) == Some((Remaining(w, SpliceKids(kids), |SpliceKids(kids)|), PreOrderKids(kids)))
  {
    hide ArgItems, ItemsOutcome, Based, Kept, HasDup, ArgsTold, AllTell, Agreed, NamedBefore;
    ArgsExactly(w, args);
    HasInclude(args);
    var r := ItemsOutcome(w, [], ArgItems(w, args, 0));
    AgreedIs(w, r.out);
    KeptExactly(w, r.out, |r.out|);
    assert r.out[..|r.out|] == r.out;
  }

  /** No source is named twice, or the duplicates agree. */
  predicate Agreed(w: World, words: seq<string>) {
    (forall k :: 0 <= k < |words| ==> !NamedBefore(w, words, k)) || w.dupsAgree(words)
  }

  lemma AgreedIs(w: World, words: seq<string>)
    ensures Agreed(w, words) <==> !(HasDup(w, words) && !w.dupsAgree(words))
  {
    hide NamedBefore, HasDup;
    KeptExactly(w, words, |words|);
    assert words[..|words|] == words;
  }

  lemma HasInclude(args: seq<string>)
    ensures (forall k :: 0 <= k < |args| ==> !IsInclude(args[k])) <==> "-f" !in args && "-F" !in args
  {
  }
}
