/** Filelist expansion: `.f` files spliced in place, with the include stack, the two-key cycle guard and
    the depth bound, over an arbitrary file system. */
module Filelist {
  import opened Wrappers
  import opened Sequences
  import opened Strings
  import opened CommentStrip
  import opened Paths

  const MAX_DEPTH: nat := 256

  /** What the expander asks of the world: where it was started, what each lexical path is physically,
      what it holds when it can be read, and the environment expansion of a token. */
  datatype World = World(
    cwd: Path,
    ids: map<Path, string>,
    files: map<Path, string>,
    env: string -> Option<string>,
    dupsAgree: seq<string> -> bool)

  datatype Error =
    | Cycle(chain: seq<Path>)
    | TooDeep(path: string)
    | NotFound(path: string)
    | Unterminated(path: string, line: nat)
    | MissingTarget(flag: string)
    | UndefEnv(tok: string)
    | Glob(tok: string)

  // ---- tokens ----

  predicate IsGlob(tok: string) { '*' in tok || '?' in tok || '[' in tok }

  const VALUE_FLAGS: set<string> :=
    { "-o", "--out", "--threads", "-j", "--backend", "--timeout", "-D", "--define", "-G", "--param", "-I", "--incdir",
      "-l", "--log", "--verbosity", "--upstream", "--work", "--workdir", "-L", "--top", "--obs-dir", "--hier-tree",
      "--inst-paths", "--probe", "--probe-file" }

  predicate TakesValue(flag: string) { flag in VALUE_FLAGS }

  predicate IsInclude(tok: string) { tok == "-f" || tok == "-F" }

  function WordEnd(s: string, i: nat): (j: nat)
    requires i <= |s|
    ensures i <= j <= |s|
    decreases |s| - i
  {
    if i < |s| && !IsSpace(s[i]) then WordEnd(s, i + 1) else i
  }

  function SplitWhitespace(s: string, i: nat): seq<string>
    requires i <= |s|
    decreases |s| - i
  {
    var j := WordEnd(s, i);
    (if i < j then [s[i..j]] else []) + if j < |s| then SplitWhitespace(s, j + 1) else []
  }

  function PlusEnd(s: string, i: nat): (j: nat)
    requires i <= |s|
    ensures i <= j <= |s|
    decreases |s| - i
  {
    if i < |s| && s[i] != '+' then PlusEnd(s, i + 1) else i
  }

  /** The nonempty `+`-separated segments. */
  function PlusSegments(s: string, i: nat): seq<string>
    requires i <= |s|
    decreases |s| - i
  {
    var j := PlusEnd(s, i);
    (if i < j then [s[i..j]] else []) + if j < |s| then PlusSegments(s, j + 1) else []
  }

  function Resolve(tok: string, base: Path): string {
    if IsAbsolute(tok) then tok else Render(Normal(base + Components(tok)))
  }

  /** The lexical identity of a filelist. */
  function Canon(w: World, path: string): Path {
    Normal(if IsAbsolute(path) then Components(path) else w.cwd + Components(path))
  }

  function Parent(w: World, canon: Path): Path {
    if canon == [] || canon == [Root] then w.cwd else canon[..|canon| - 1]
  }

  function Base(w: World, canon: Path, big: bool): Path {
    if big then Parent(w, canon) else w.cwd
  }

  // ---- what one file asks for ----

  datatype Item =
    | Emit(words: seq<string>)
    | Include(target: string, big: bool, warn: Option<string>)
    | Stop(words: seq<string>, error: Error)

  function JoinIncdirs(segs: seq<string>, base: Path, joined: string): Item {
    if segs == [] then Emit([joined])
    else if IsGlob(segs[0]) then Stop([], Glob(segs[0]))
    else JoinIncdirs(segs[1..], base, joined + "+" + Resolve(segs[0], base))
  }

  function WordItem(tok: string, base: Path): Item {
    if StartsWith(tok, "+define+") then Emit([tok])
    else if StartsWith(tok, "+incdir+") then JoinIncdirs(PlusSegments(tok[8..], 0), base, "+incdir")
    else if StartsWith(tok, "-") && |tok| > 1 then Emit([tok])
    else if IsGlob(tok) then Stop([], Glob(tok))
    else Emit([Resolve(tok, base)])
  }

  function IncludeItem(w: World, flag: string, toks: seq<string>, i: nat, base: Path, big: bool): Item {
    if i + 1 >= |toks| then Stop([], MissingTarget(flag))
    else match w.env(toks[i + 1])
      case None => Stop([], UndefEnv(toks[i + 1]))
      case Some(t) => Include(Resolve(t, base), big || flag == "-F", if big && flag == "-f" then Some(t) else None)
  }

  function ValueItem(w: World, flag: string, toks: seq<string>, i: nat): Item {
    if i + 1 >= |toks| then Emit([flag])
    else match w.env(toks[i + 1])
      case None => Stop([flag], UndefEnv(toks[i + 1]))
      case Some(v) => Emit([flag, v])
  }

  /** The requests of a token stream, in order, up to the first that cannot be met. */
  function Items(w: World, toks: seq<string>, i: nat, base: Path, big: bool): seq<Item>
    decreases |toks| - i
  {
    if i >= |toks| then []
    else match w.env(toks[i])
      case None => [Stop([], UndefEnv(toks[i]))]
      case Some(tok) =>
        if IsInclude(tok) then Then(IncludeItem(w, tok, toks, i, base, big), Items(w, toks, i + 2, base, big))
        else if TakesValue(tok) then Then(ValueItem(w, tok, toks, i), Items(w, toks, i + 2, base, big))
        else Then(WordItem(tok, base), Items(w, toks, i + 1, base, big))
  }

  function Then(item: Item, rest: seq<Item>): seq<Item> {
    if item.Stop? then [item] else [item] + rest
  }

  /** The requests of a file, when it can be read and its comments close. */
  function FileItems(w: World, canon: Path, big: bool): Option<seq<Item>> {
    if canon !in w.files then None
    else match Stripped(w.files[canon])
      case Err(_) => None
      case Ok(t) => Some(Items(w, SplitWhitespace(Text(t), 0), 0, Base(w, canon, big), big))
  }

  // ---- the expansion as a function ----

  datatype Outcome = Outcome(error: Option<Error>, out: seq<string>, opens: seq<Path>, warns: seq<string>)

  /** The physical identities of the active files. */
  function Ids(w: World, active: seq<Path>): seq<string> {
    if active == [] then []
    else Ids(w, active[..|active| - 1]) + if active[|active| - 1] in w.ids then [w.ids[active[|active| - 1]]] else []
  }

  predicate Active(w: World, active: seq<Path>, canon: Path) {
    canon in active || (canon in w.ids && w.ids[canon] in Ids(w, active))
  }

  function FileOutcome(w: World, active: seq<Path>, path: string, big: bool): Outcome
    requires |active| <= MAX_DEPTH
    decreases MAX_DEPTH - |active|, 0
  {
    var canon := Canon(w, path);
    if Active(w, active, canon) then Outcome(Some(Cycle(active + [canon])), [], [], [])
    else if |active| >= MAX_DEPTH then Outcome(Some(TooDeep(path)), [], [], [])
    else if canon !in w.files then Outcome(Some(NotFound(path)), [], [], [])
    else match Stripped(w.files[canon])
      case Err(line) => Outcome(Some(Unterminated(path, line)), [], [canon], [])
      case Ok(t) =>
        var items := Items(w, SplitWhitespace(Text(t), 0), 0, Base(w, canon, big), big);
        var r := ItemsOutcome(w, active + [canon], items);
        r.(opens := [canon] + r.opens)
  }

  function ItemOutcome(w: World, active: seq<Path>, item: Item): Outcome
    requires |active| <= MAX_DEPTH
    decreases MAX_DEPTH - |active|, 1
  {
    match item
    case Emit(words) => Outcome(None, words, [], [])
    case Stop(words, error) => Outcome(Some(error), words, [], [])
    case Include(target, big, warn) =>
      var r := FileOutcome(w, active, target, big);
      r.(warns := Warned(warn) + r.warns)
  }

  function ItemsOutcome(w: World, active: seq<Path>, items: seq<Item>): Outcome
    requires |active| <= MAX_DEPTH
    decreases MAX_DEPTH - |active|, 2, |items|
  {
    if items == [] then Outcome(None, [], [], [])
    else
      var r := ItemOutcome(w, active, items[0]);
      if r.error.Some? then r else Follows(r, ItemsOutcome(w, active, items[1..]))
  }

  function Warned(warn: Option<string>): seq<string> {
    if warn.Some? then [warn.value] else []
  }

  function Follows(x: Outcome, y: Outcome): Outcome {
    Outcome(y.error, x.out + y.out, x.opens + y.opens, x.warns + y.warns)
  }

  // ---- the expander ----

  datatype State = State(stack: seq<Path>, phys: seq<string>, out: seq<string>, opens: seq<Path>, warns: seq<string>,
                         errors: seq<Error>)

  /** The expander's state after a call: the active files as they were, and what the call added. */
  function Plus(s: State, r: Outcome): State {
    State(s.stack, s.phys, s.out + r.out, s.opens + r.opens, s.warns + r.warns,
          s.errors + if r.error.Some? then [r.error.value] else [])
  }

  lemma PlusPlus(s: State, x: Outcome, y: Outcome)
    requires x.error.None?
    ensures Plus(Plus(s, x), y) == Plus(s, Follows(x, y))
  {
    assert s.out + x.out + y.out == s.out + (x.out + y.out);
    assert s.opens + x.opens + y.opens == s.opens + (x.opens + y.opens);
    assert s.warns + x.warns + y.warns == s.warns + (x.warns + y.warns);
    assert s.errors + [] == s.errors;
  }

  lemma PlusNothing(s: State)
    ensures Plus(s, Outcome(None, [], [], [])) == s
  {
  }

  lemma FollowsAssoc(x: Outcome, y: Outcome, z: Outcome)
    ensures Follows(Follows(x, y), z) == Follows(x, Follows(y, z))
  {
  }

  predicate ValidState(w: World, s: State) {
    |s.stack| <= MAX_DEPTH && s.phys == Ids(w, s.stack) && Once(s.stack) && Once(s.phys)
  }

  class Expander {
    const w: World
    var stack: seq<Path>
    var phys: seq<string>
    var out: seq<string>
    var opens: seq<Path>
    var warns: seq<string>
    var errors: seq<Error>

    constructor (world: World)
      ensures w == world && Now() == State([], [], [], [], [], [])
    {
      w := world;
      stack, phys, out, opens, warns, errors := [], [], [], [], [], [];
    }

    function Now(): State
      reads this
    {
      State(stack, phys, out, opens, warns, errors)
    }

    /** No active file is repeated, lexically or physically, and there are at most 256. */
    predicate Valid()
      reads this
    {
      ValidState(w, Now())
    }

    method Err(e: Error)
      modifies this`errors
      ensures Now() == Plus(old(Now()), Outcome(Some(e), [], [], []))
    {
      errors := errors + [e];
    }

    method Push(words: seq<string>)
      modifies this`out
      ensures Now() == Plus(old(Now()), Outcome(None, words, [], []))
    {
      out := out + words;
    }

    /** Make a file active, unless that would repeat one. */
    method Enter(canon: Path)
      requires Valid() && |stack| < MAX_DEPTH && !Active(w, stack, canon)
      modifies this`stack, this`phys
      ensures Valid() && stack == old(stack) + [canon]
    {
      stack := stack + [canon];
      if canon in w.ids { phys := phys + [w.ids[canon]]; }
      IdsStep(w, old(stack), canon);
    }

    method Leave(ghost before: seq<Path>, canon: Path)
      requires Valid() && stack == before + [canon] && |before| < MAX_DEPTH
      modifies this`stack, this`phys
      ensures Valid() && stack == before
    {
      IdsStep(w, before, canon);
      stack := stack[..|stack| - 1];
      if canon in w.ids { phys := phys[..|phys| - 1]; }
    }

    method ExpandFile(path: string, big: bool) returns (ok: bool)
      requires Valid()
      modifies this
      ensures Valid() && ok == FileOutcome(w, old(stack), path, big).error.None?
      ensures Now() == Plus(old(Now()), FileOutcome(w, old(stack), path, big))
      decreases MAX_DEPTH - |stack|, 0
    {
      hide Items, ItemsOutcome, Stripped, Text, Canon, Once, Ids, SplitWhitespace, Base;
      var canon := Canon(w, path);
      if canon in stack || (canon in w.ids && w.ids[canon] in phys) {
        Err(Cycle(stack + [canon]));
        return false;
      }
      if |stack| >= MAX_DEPTH {
        Err(TooDeep(path));
        return false;
      }
      if canon !in w.files {
        Err(NotFound(path));
        return false;
      }
      opens := opens + [canon];
      Enter(canon);
      var text := StripComments(w.files[canon]);
      if text.Err? {
        Err(Unterminated(path, text.error));
        Leave(old(stack), canon);
        return false;
      }
      ok := ExpandTokens(text.value, canon, big);
      Leave(old(stack), canon);
    }

    method ExpandTokens(text: string, canon: Path, big: bool) returns (ok: bool)
      requires Valid()
      modifies this
      ensures Valid()
      ensures var r := ItemsOutcome(w, old(stack), Items(w, SplitWhitespace(text, 0), 0, Base(w, canon, big), big));
        Now() == Plus(old(Now()), r) && ok == r.error.None?
      decreases MAX_DEPTH - |stack|, 2
    {
      hide Items, ItemsOutcome, Once, Ids, SplitWhitespace, Follows, Parent;
      var base := if big then Parent(w, canon) else w.cwd;
      var toks := SplitWhitespace(text, 0);
      ghost var s0, active := Now(), stack;
      ghost var whole, done := ItemsOutcome(w, active, Items(w, toks, 0, base, big)), Outcome(None, [], [], []);
      PlusNothing(s0);
      FollowsNothing(whole);
      var i := 0;
      while i < |toks|
        invariant 0 <= i && Valid() && done.error.None? && Now() == Plus(s0, done)
        invariant whole == Follows(done, ItemsOutcome(w, active, Items(w, toks, i, base, big)))
        decreases |toks| - i
      {
        ghost var r;
        var step;
        ok, step, r := Request(toks, i, base, big);
        PlusPlus(s0, done, r);
        if !ok {
          FollowsError(done, r);
          return;
        }
        FollowsAssoc(done, r, ItemsOutcome(w, active, Items(w, toks, i + step, base, big)));
        FollowsError(done, r);
        done, i := Follows(done, r), i + step;
      }
      ItemsEnd(w, toks, i, base, big, active);
      FollowsNothing(done);
      ok := true;
    }

    /** One request: the token at `i`, and its argument when it takes one. */
    method Request(toks: seq<string>, i: nat, base: Path, big: bool) returns (ok: bool, step: nat, ghost r: Outcome)
      requires Valid() && i < |toks|
      modifies this
      ensures Valid() && Now() == Plus(old(Now()), r) && ok == r.error.None? && step >= 1
      ensures ItemsOutcome(w, old(stack), Items(w, toks, i, base, big))
           == if ok then Follows(r, ItemsOutcome(w, old(stack), Items(w, toks, i + step, base, big))) else r
      decreases MAX_DEPTH - |stack|, 1, 1
    {
      hide ItemOutcome, ItemsOutcome, WordItem, IncludeItem, ValueItem, Once, Ids, TakesValue, Follows, Then;
      ghost var item, active := Emit([]), stack;
      match w.env(toks[i]) {
        case None =>
          item, step := Stop([], UndefEnv(toks[i])), 1;
          StopOutcome(w, active, [], UndefEnv(toks[i]));
          Err(UndefEnv(toks[i]));
          ok := false;
        case Some(tok) =>
          if IsInclude(tok) {
            item, step := IncludeItem(w, tok, toks, i, base, big), 2;
            ok := ExpandInclude(tok, toks, i, base, big);
          } else if TakesValue(tok) {
            item, step := ValueItem(w, tok, toks, i), 2;
            ok := PushValue(tok, toks, i);
          } else {
            item, step := WordItem(tok, base), 1;
            ok := PushWord(tok, base);
          }
      }
      r := ItemOutcome(w, active, item);
      ItemsStep(w, active, item, Items(w, toks, i + step, base, big));
    }

    method ExpandInclude(flag: string, toks: seq<string>, i: nat, base: Path, big: bool) returns (ok: bool)
      requires Valid() && IsInclude(flag)
      modifies this
      ensures Valid()
      ensures var r := ItemOutcome(w, old(stack), IncludeItem(w, flag, toks, i, base, big));
        Now() == Plus(old(Now()), r) && ok == r.error.None?
      decreases MAX_DEPTH - |stack|, 1, 0
    {
      hide FileOutcome, Resolve, Once, Ids;
      if i + 1 >= |toks| {
        Err(MissingTarget(flag));
        return false;
      }
      var target;
      match w.env(toks[i + 1]) {
        case None =>
          Err(UndefEnv(toks[i + 1]));
          return false;
        case Some(t) => target := t;
      }
      var nestedBig := flag == "-F";
      if big && !nestedBig { warns := warns + [target]; }
      var resolved := Resolve(target, base);
      ok := ExpandFile(resolved, big || nestedBig);
    }

    method PushValue(flag: string, toks: seq<string>, i: nat) returns (ok: bool)
      requires Valid()
      modifies this
      ensures Valid()
      ensures var r := ItemOutcome(w, old(stack), ValueItem(w, flag, toks, i));
        Now() == Plus(old(Now()), r) && ok == r.error.None?
    {
      Push([flag]);
      if i + 1 < |toks| {
        match w.env(toks[i + 1]) {
          case None =>
            Err(UndefEnv(toks[i + 1]));
            return false;
          case Some(v) => Push([v]);
        }
      }
      ok := true;
    }

    method PushWord(tok: string, base: Path) returns (ok: bool)
      requires Valid()
      modifies this
      ensures Valid()
      ensures var r := ItemOutcome(w, old(stack), WordItem(tok, base));
        Now() == Plus(old(Now()), r) && ok == r.error.None?
    {
      hide Resolve, IsGlob, Once, Ids, PlusSegments;
      if StartsWith(tok, "+define+") {
        Push([tok]);
      } else if StartsWith(tok, "+incdir+") {
        ok := PushIncdirs(PlusSegments(tok[8..], 0), base);
        return;
      } else if StartsWith(tok, "-") && |tok| > 1 {
        Push([tok]);
      } else if IsGlob(tok) {
        Err(Glob(tok));
        return false;
      } else {
        Push([Resolve(tok, base)]);
      }
      ok := true;
    }

    method PushIncdirs(segs: seq<string>, base: Path) returns (ok: bool)
      requires Valid()
      modifies this
      ensures Valid()
      ensures var r := ItemOutcome(w, old(stack), JoinIncdirs(segs, base, "+incdir"));
        Now() == Plus(old(Now()), r) && ok == r.error.None?
    {
      hide Resolve, IsGlob, Once, Ids;
      var joined := "+incdir";
      var k := 0;
      while k < |segs|
        invariant 0 <= k <= |segs| && Valid() && Now() == old(Now())
        invariant JoinIncdirs(segs, base, "+incdir") == JoinIncdirs(segs[k..], base, joined)
      {
        if IsGlob(segs[k]) {
          Err(Glob(segs[k]));
          return false;
        }
        assert segs[k..][1..] == segs[k + 1..];
        joined := joined + "+" + Resolve(segs[k], base);
        k := k + 1;
      }
      Push([joined]);
      ok := true;
    }
  }

  lemma FollowsNothing(x: Outcome)
    ensures Follows(Outcome(None, [], [], []), x) == x
    ensures x.error.None? ==> Follows(x, Outcome(None, [], [], [])) == x
  {
  }

  lemma FollowsError(x: Outcome, y: Outcome)
    ensures Follows(x, y).error == y.error
  {
  }

  lemma ItemsStep(w: World, active: seq<Path>, item: Item, rest: seq<Item>)
    requires |active| <= MAX_DEPTH
    ensures var r := ItemOutcome(w, active, item);
      ItemsOutcome(w, active, Then(item, rest)) ==
        if r.error.Some? then r else Follows(r, ItemsOutcome(w, active, rest))
  {
    if !item.Stop? { assert ([item] + rest)[1..] == rest; }
  }

  lemma StopOutcome(w: World, active: seq<Path>, words: seq<string>, e: Error)
    requires |active| <= MAX_DEPTH
    ensures ItemOutcome(w, active, Stop(words, e)) == Outcome(Some(e), words, [], [])
    ensures forall rest :: Then(Stop(words, e), rest) == [Stop(words, e)]
  {
  }

  lemma ItemsEnd(w: World, toks: seq<string>, i: nat, base: Path, big: bool, active: seq<Path>)
    requires |active| <= MAX_DEPTH && i >= |toks|
    ensures ItemsOutcome(w, active, Items(w, toks, i, base, big)) == Outcome(None, [], [], [])
  {
  }

  lemma {:induction false} IdsStep(w: World, active: seq<Path>, canon: Path)
    ensures Ids(w, active + [canon]) == Ids(w, active) + if canon in w.ids then [w.ids[canon]] else []
  {
    assert (active + [canon])[..|active|] == active;
  }
}
