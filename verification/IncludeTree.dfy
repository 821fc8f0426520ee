/** What filelist expansion means: it succeeds exactly when the includes below the file form a finite
    tree without repeats, and then it is that tree's pre-order splice; when it fails, the failure is real. */
module IncludeTree {
  import opened Wrappers
  import opened Sequences
  import opened Strings
  import opened CommentStrip
  import opened Paths
  import opened Filelist

  datatype Tree = Node(path: Path, big: bool, kids: seq<Piece>)

  datatype Piece = Words(ws: seq<string>) | Sub(tree: Tree)

  /** The tree is what the files say, read below the given active files. */
  predicate Fits(w: World, t: Tree, active: seq<Path>)
    decreases t
  {
    |active| < MAX_DEPTH && !Active(w, active, t.path)
    && FileItems(w, t.path, t.big).Some?
    && KidsFit(w, t.kids, FileItems(w, t.path, t.big).value, active + [t.path])
  }

  predicate KidsFit(w: World, kids: seq<Piece>, items: seq<Item>, active: seq<Path>)
    decreases kids
  {
    if kids == [] then items == []
    else
      items != [] && KidFits(w, kids[0], items[0], active) && KidsFit(w, kids[1..], items[1..], active)
  }

  predicate KidFits(w: World, kid: Piece, item: Item, active: seq<Path>)
    decreases kid
  {
    match kid
    case Words(ws) => item == Emit(ws)
    case Sub(t) => item.Include? && t.path == Canon(w, item.target) && t.big == item.big && Fits(w, t, active)
  }

  /** The words of the tree, each include replaced by what it stands for. */
  function Splice(t: Tree): seq<string> { SpliceKids(t.kids) }

  function SpliceKids(kids: seq<Piece>): seq<string> {
    if kids == [] then [] else SpliceKid(kids[0]) + SpliceKids(kids[1..])
  }

  function SpliceKid(kid: Piece): seq<string> {
    match kid
    case Words(ws) => ws
    case Sub(t) => Splice(t)
  }

  /** The files of the tree, each before those it includes. */
  function PreOrder(t: Tree): seq<Path> { [t.path] + PreOrderKids(t.kids) }

  function PreOrderKids(kids: seq<Piece>): seq<Path> {
    if kids == [] then [] else PreOrderKid(kids[0]) + PreOrderKids(kids[1..])
  }

  function PreOrderKid(kid: Piece): seq<Path> {
    match kid
    case Words(_) => []
    case Sub(t) => PreOrder(t)
  }

  ghost predicate IsTree(w: World, t: Tree, active: seq<Path>, path: string, big: bool) {
    t.path == Canon(w, path) && t.big == big && Fits(w, t, active)
  }

  // ---- success ----

  lemma {:induction false} TreeExpands(w: World, t: Tree, active: seq<Path>, path: string)
    requires |active| <= MAX_DEPTH && IsTree(w, t, active, path, t.big)
    ensures var r := FileOutcome(w, active, path, t.big);
      r.error.None? && r.out == Splice(t) && r.opens == PreOrder(t)
    decreases t
  {
    hide Items, Stripped, Text, Active, Canon;
    KidsExpand(w, t.kids, FileItems(w, t.path, t.big).value, active + [t.path]);
  }

  lemma {:induction false} KidsExpand(w: World, kids: seq<Piece>, items: seq<Item>, active: seq<Path>)
    requires |active| <= MAX_DEPTH && KidsFit(w, kids, items, active)
    ensures var r := ItemsOutcome(w, active, items);
      r.error.None? && r.out == SpliceKids(kids) && r.opens == PreOrderKids(kids)
    decreases kids
  {
    hide ItemOutcome, SpliceKid, PreOrderKid, KidFits;
    if kids != [] {
      KidExpands(w, kids[0], items[0], active);
      KidsExpand(w, kids[1..], items[1..], active);
    }
  }

  lemma {:induction false} KidExpands(w: World, kid: Piece, item: Item, active: seq<Path>)
    requires |active| <= MAX_DEPTH && KidFits(w, kid, item, active)
    ensures var r := ItemOutcome(w, active, item);
      r.error.None? && r.out == SpliceKid(kid) && r.opens == PreOrderKid(kid)
    decreases kid
  {
    hide FileOutcome, Splice, PreOrder, Canon, Fits;
    if kid.Sub? { TreeExpands(w, kid.tree, active, item.target); }
  }

  lemma {:induction false} ExpansionHasTree(w: World, active: seq<Path>, path: string, big: bool) returns (t: Tree)
    requires |active| <= MAX_DEPTH && FileOutcome(w, active, path, big).error.None?
    ensures IsTree(w, t, active, path, big)
    decreases MAX_DEPTH - |active|, 0
  {
    hide Items, Stripped, Text, Active, Canon, ItemsOutcome;
    var canon := Canon(w, path);
    var items := FileItems(w, canon, big).value;
    var kids := ItemsHaveKids(w, active + [canon], items);
    t := Node(canon, big, kids);
  }

  lemma {:induction false} ItemsHaveKids(w: World, active: seq<Path>, items: seq<Item>) returns (kids: seq<Piece>)
    requires |active| <= MAX_DEPTH && ItemsOutcome(w, active, items).error.None?
    ensures KidsFit(w, kids, items, active)
    decreases MAX_DEPTH - |active|, 1, |items|
  {
    hide FileOutcome, Fits, Canon;
    if items == [] {
      kids := [];
    } else {
      var kid;
      if items[0].Include? {
        var t := ExpansionHasTree(w, active, items[0].target, items[0].big);
        kid := Sub(t);
      } else {
        kid := Words(items[0].words);
      }
      var rest := ItemsHaveKids(w, active, items[1..]);
      kids := [kid] + rest;
      assert kids[1..] == rest;
    }
  }

  /** Expansion succeeds exactly when the include tree is finite, at most 256 files deep, and no file is
      included below itself; it then yields that tree's splice, and opened its files in pre-order. */
  lemma {:induction false} SpliceExactly(w: World, active: seq<Path>, path: string, big: bool)
    requires |active| <= MAX_DEPTH
    ensures FileOutcome(w, active, path, big).error.None? <==> exists t :: IsTree(w, t, active, path, big)
    ensures forall t :: IsTree(w, t, active, path, big) ==>
      FileOutcome(w, active, path, big).out == Splice(t) && FileOutcome(w, active, path, big).opens == PreOrder(t)
  {
    hide FileOutcome, Fits;
    forall t | IsTree(w, t, active, path, big)
      ensures var r := FileOutcome(w, active, path, big);
        r.error.None? && r.out == Splice(t) && r.opens == PreOrder(t)
    {
      TreeExpands(w, t, active, path);
    }
    if FileOutcome(w, active, path, big).error.None? {
      var t := ExpansionHasTree(w, active, path, big);
    }
  }

  // ---- failure ----

  predicate IncludesAt(w: World, p: Path, big: bool, k: nat, q: Path) {
    FileItems(w, p, big).Some? && k < |FileItems(w, p, big).value|
    && FileItems(w, p, big).value[k].Include? && Canon(w, FileItems(w, p, big).value[k].target) == q
  }

  /** File `p`, read in one of the two ways, asks for file `q`. */
  ghost predicate Includes(w: World, p: Path, q: Path) {
    exists big: bool, k: nat :: IncludesAt(w, p, big, k, q)
  }

  ghost predicate Chain(w: World, c: seq<Path>) {
    forall k :: 0 <= k < |c| - 1 ==> Includes(w, c[k], c[k + 1])
  }

  /** One file, by its path or by what it is physically. */
  predicate SameFile(w: World, p: Path, q: Path) { p == q || (p in w.ids && q in w.ids && w.ids[p] == w.ids[q]) }

  /** A file is active exactly when one of the open files is the same. */
  lemma {:induction false} ActiveIs(w: World, active: seq<Path>, p: Path)
    ensures Active(w, active, p) <==> exists k :: 0 <= k < |active| && SameFile(w, active[k], p)
  {
    if p in w.ids { IdsHold(w, active, w.ids[p]); }
  }

  lemma {:induction false} IdsHold(w: World, active: seq<Path>, id: string)
    ensures id in Ids(w, active) <==> exists k :: 0 <= k < |active| && active[k] in w.ids && w.ids[active[k]] == id
  {
    if active != [] {
      var front := active[..|active| - 1];
      IdsHold(w, front, id);
      if k :| 0 <= k < |front| && front[k] in w.ids && w.ids[front[k]] == id { assert active[k] == front[k]; }
      if k :| 0 <= k < |active| && active[k] in w.ids && w.ids[active[k]] == id {
        if k < |front| { assert front[k] == active[k]; }
      }
    }
  }

  ghost predicate CycleIsReal(w: World, c: seq<Path>) {
    c != [] && Chain(w, c) && exists k :: 0 <= k < |c| - 1 && SameFile(w, c[k], c[|c| - 1])
  }

  ghost predicate DeepChain(w: World, c: seq<Path>, path: string) {
    |c| == MAX_DEPTH + 1 && Chain(w, c) && c[MAX_DEPTH] == Canon(w, path)
    && Once(c[..MAX_DEPTH]) && Once(Ids(w, c[..MAX_DEPTH]))
  }

  /** What an error reports is so. */
  ghost predicate ErrorIsReal(w: World, e: Error) {
    match e
    case Cycle(c) => CycleIsReal(w, c)
    case TooDeep(path) => exists c :: DeepChain(w, c, path)
    case NotFound(path) => Canon(w, path) !in w.files
    case Unterminated(path, line) => Canon(w, path) in w.files && Stripped(w.files[Canon(w, path)]) == Result.Err(line)
    case MissingTarget(flag) => flag == "-f" || flag == "-F"
    case UndefEnv(tok) => w.env(tok).None?
    case Glob(tok) => '*' in tok || '?' in tok || '[' in tok
  }

  predicate Distinct(w: World, active: seq<Path>) {
    |active| <= MAX_DEPTH && Once(active) && Once(Ids(w, active))
  }

  lemma {:induction false} DistinctStep(w: World, active: seq<Path>, canon: Path)
    requires Distinct(w, active) && |active| < MAX_DEPTH && !Active(w, active, canon)
    ensures Distinct(w, active + [canon])
  {
    IdsStep(w, active, canon);
  }

  lemma {:induction false} ChainStep(w: World, active: seq<Path>, p: Path, q: Path)
    requires Chain(w, active + [p]) && Includes(w, p, q)
    ensures Chain(w, active + [p] + [q])
  {
    hide Includes;
    var c, d := active + [p] + [q], active + [p];
    forall k | 0 <= k < |c| - 1 ensures Includes(w, c[k], c[k + 1]) {
      if k < |d| - 1 { assert Includes(w, d[k], d[k + 1]); }
    }
  }

  /** Every failure is real: a cycle is an include chain that ends in an active file, and the depth bound
      is met only by a chain of 256 different files. */
  lemma {:induction false} FailureIsReal(w: World, active: seq<Path>, path: string, big: bool)
    requires Distinct(w, active) && Chain(w, active + [Canon(w, path)])
    requires FileOutcome(w, active, path, big).error.Some?
    ensures ErrorIsReal(w, FileOutcome(w, active, path, big).error.value)
    decreases MAX_DEPTH - |active|, 0
  {
    hide Items, Text, Canon, ItemsOutcome, Includes, Chain, Active, Once, Ids, SplitWhitespace, Base, Stripped, SameFile;
    var canon := Canon(w, path);
    var c := active + [canon];
    assert c[..|active|] == active;
    if Active(w, active, canon) {
      ActiveIs(w, active, canon);
      var k :| 0 <= k < |active| && SameFile(w, active[k], canon);
      assert c[k] == active[k] && c[|c| - 1] == canon;
    } else if |active| >= MAX_DEPTH {
      assert DeepChain(w, c, path);
    } else if canon in w.files && Stripped(w.files[canon]).Ok? {
      DistinctStep(w, active, canon);
      var items := FileItems(w, canon, big).value;
      StopsAreTokenErrors(w, SplitWhitespace(Text(Stripped(w.files[canon]).value), 0), 0, Base(w, canon, big), big);
      ItemsFailureIsReal(w, active, canon, big, items, 0);
      assert items[0..] == items;
    }
  }

  lemma {:induction false} ItemsFailureIsReal(w: World, active: seq<Path>, canon: Path, big: bool, items: seq<Item>, k: nat)
    requires |active| < MAX_DEPTH && Distinct(w, active + [canon]) && Chain(w, active + [canon])
    requires FileItems(w, canon, big) == Some(items) && k <= |items|
    requires ItemsOutcome(w, active + [canon], items[k..]).error.Some?
    requires forall j :: 0 <= j < |items| && items[j].Stop? ==> TokenError(w, items[j].error)
    ensures ErrorIsReal(w, ItemsOutcome(w, active + [canon], items[k..]).error.value)
    decreases MAX_DEPTH - |active| - 1, 1, |items| - k
  {
    hide FileItems, FileOutcome, Distinct, Chain, Canon, ErrorIsReal, Includes, TokenError;
    var c := active + [canon];
    var r := ItemOutcome(w, c, items[k]);
    assert items[k..][1..] == items[k + 1..] && items[k..][0] == items[k];
    if r.error.None? {
      ItemsFailureIsReal(w, active, canon, big, items, k + 1);
    } else if items[k].Include? {
      IncludesHere(w, canon, big, items, k);
      ChainStep(w, active, canon, Canon(w, items[k].target));
      FailureIsReal(w, c, items[k].target, items[k].big);
    } else {
      TokenErrorIsReal(w, items[k].error);
    }
  }

  lemma IncludesHere(w: World, canon: Path, big: bool, items: seq<Item>, k: nat)
    requires FileItems(w, canon, big) == Some(items) && k < |items| && items[k].Include?
    ensures Includes(w, canon, Canon(w, items[k].target))
  {
    assert IncludesAt(w, canon, big, k, Canon(w, items[k].target));
  }

  /** The error is one of a token, and the token has it. */
  predicate TokenError(w: World, e: Error) {
    match e
    case MissingTarget(flag) => IsInclude(flag)
    case UndefEnv(tok) => w.env(tok).None?
    case Glob(tok) => IsGlob(tok)
    case _ => false
  }

  lemma TokenErrorIsReal(w: World, e: Error)
    requires TokenError(w, e)
    ensures ErrorIsReal(w, e)
  {
  }

  lemma {:induction false} JoinStops(w: World, segs: seq<string>, base: Path, joined: string)
    ensures var item := JoinIncdirs(segs, base, joined); item.Stop? ==> TokenError(w, item.error)
    decreases |segs|
  {
    if segs != [] && !IsGlob(segs[0]) { JoinStops(w, segs[1..], base, joined + "+" + Resolve(segs[0], base)); }
  }

  /** What a token stream stops at is a matter of its tokens alone. */
  lemma {:induction false} StopsAreTokenErrors(w: World, toks: seq<string>, i: nat, base: Path, big: bool)
    ensures forall j :: 0 <= j < |Items(w, toks, i, base, big)| && Items(w, toks, i, base, big)[j].Stop? ==>
      TokenError(w, Items(w, toks, i, base, big)[j].error)
    decreases |toks| - i
  {
    hide TakesValue, Resolve, JoinIncdirs;
    if i < |toks| && w.env(toks[i]).Some? {
      var tok := w.env(toks[i]).value;
      if StartsWith(tok, "+incdir+") { JoinStops(w, PlusSegments(tok[8..], 0), base, "+incdir"); }
      StopsAreTokenErrors(w, toks, i + 1, base, big);
      StopsAreTokenErrors(w, toks, i + 2, base, big);
    }
  }

  // ---- the base of relative paths ----

  predicate AllBig(t: Tree)
    decreases t
  {
    t.big && forall k :: 0 <= k < |t.kids| ==> KidBig(t.kids[k])
  }

  predicate KidBig(kid: Piece)
    decreases kid
  {
    kid.Sub? ==> AllBig(kid.tree)
  }

  predicate BigItems(items: seq<Item>) {
    forall k :: 0 <= k < |items| && items[k].Include? ==> items[k].big
  }

  lemma {:induction false} JoinIncludesNothing(segs: seq<string>, base: Path, joined: string)
    ensures !JoinIncdirs(segs, base, joined).Include?
    decreases |segs|
  {
    if segs != [] && !IsGlob(segs[0]) { JoinIncludesNothing(segs[1..], base, joined + "+" + Resolve(segs[0], base)); }
  }

  lemma {:induction false} BigAsksBig(w: World, toks: seq<string>, i: nat, base: Path)
    ensures BigItems(Items(w, toks, i, base, true))
    decreases |toks| - i
  {
    hide TakesValue, Resolve, JoinIncdirs;
    if i < |toks| && w.env(toks[i]).Some? {
      var tok := w.env(toks[i]).value;
      if StartsWith(tok, "+incdir+") { JoinIncludesNothing(PlusSegments(tok[8..], 0), base, "+incdir"); }
      BigAsksBig(w, toks, i + 1, base);
      BigAsksBig(w, toks, i + 2, base);
    }
  }

  /** Once a file is entered by `-F`, every file below it is read against its own directory, those that
      `-f` names included. */
  lemma {:induction false} BigStays(w: World, t: Tree, active: seq<Path>)
    requires Fits(w, t, active) && t.big
    ensures AllBig(t)
    decreases t
  {
    hide Stripped, Text, Active, Canon, Items, BigItems;
    BigAsksBig(w, SplitWhitespace(Text(Stripped(w.files[t.path]).value), 0), 0, Base(w, t.path, true));
    KidsStayBig(w, t.kids, FileItems(w, t.path, true).value, active + [t.path]);
  }

  lemma {:induction false} KidsStayBig(w: World, kids: seq<Piece>, items: seq<Item>, active: seq<Path>)
    requires KidsFit(w, kids, items, active) && BigItems(items)
    ensures forall k :: 0 <= k < |kids| ==> KidBig(kids[k])
    decreases kids
  {
    hide Fits, AllBig, Canon;
    if kids != [] {
      KidStaysBig(w, kids[0], items[0], active);
      KidsStayBig(w, kids[1..], items[1..], active);
    }
  }

  lemma {:induction false} KidStaysBig(w: World, kid: Piece, item: Item, active: seq<Path>)
    requires KidFits(w, kid, item, active) && (item.Include? ==> item.big)
    ensures KidBig(kid)
    decreases kid
  {
    if kid.Sub? { BigStays(w, kid.tree, active); }
  }
}
