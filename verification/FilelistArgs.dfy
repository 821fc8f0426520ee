/** The command line: filelists spliced into it, then each source kept once. */
module FilelistArgs {
  import opened Wrappers
  import opened Sequences
  import opened Strings
  import opened Paths
  import opened Filelist

  /** The requests of the command line: only `-f` and `-F` are read, everything else is passed on. */
  function ArgItems(w: World, args: seq<string>, i: nat): seq<Item>
    decreases |args| - i
  {
    if i >= |args| then []
    else if IsInclude(args[i]) then Then(IncludeItem(w, args[i], args, i, w.cwd, false), ArgItems(w, args, i + 2))
    else [Emit([args[i]])] + ArgItems(w, args, i + 1)
  }

  predicate IsFlag(tok: string) { StartsWith(tok, "-") || StartsWith(tok, "+") }

  /** The last word is a flag still waiting for its value. */
  predicate Pending(s: seq<string>) {
    s != [] && !Pending(s[..|s| - 1]) && IsFlag(s[|s| - 1]) && TakesValue(s[|s| - 1])
  }

  function Key(w: World, tok: string): string {
    var canon := Canon(w, tok);
    if canon in w.ids then w.ids[canon] else Render(canon)
  }

  /** The last word names a source: it is no flag and no flag's value. */
  predicate EndsInSource(s: seq<string>) {
    s != [] && !Pending(s[..|s| - 1]) && !IsFlag(s[|s| - 1])
  }

  /** The sources' identities, in order. */
  function SourceKeys(w: World, s: seq<string>): seq<string> {
    if s == [] then []
    else SourceKeys(w, s[..|s| - 1]) + if EndsInSource(s) then [Key(w, s[|s| - 1])] else []
  }

  /** Everything else, in order. */
  function Others(s: seq<string>): seq<string> {
    if s == [] then [] else Others(s[..|s| - 1]) + if EndsInSource(s) then [] else [s[|s| - 1]]
  }

  predicate EndsInDup(w: World, s: seq<string>) {
    EndsInSource(s) && Key(w, s[|s| - 1]) in SourceKeys(w, s[..|s| - 1])
  }

  /** The words that are not a source named before. */
  function Kept(w: World, s: seq<string>): seq<string> {
    if s == [] then [] else Kept(w, s[..|s| - 1]) + if EndsInDup(w, s) then [] else [s[|s| - 1]]
  }

  predicate HasDup(w: World, s: seq<string>) {
    s != [] && (HasDup(w, s[..|s| - 1]) || EndsInDup(w, s))
  }

  /** The flat command line and the filelists opened, or a failure already reported. */
  function Flat(w: World, args: seq<string>): Option<(seq<string>, seq<Path>)> {
    if forall k :: 0 <= k < |args| ==> !IsInclude(args[k]) then Some((args, []))
    else
      var r := ItemsOutcome(w, [], ArgItems(w, args, 0));
      if r.error.Some? || (HasDup(w, r.out) && !w.dupsAgree(r.out)) then None
      else Some((Kept(w, r.out), r.opens))
  }

  method SpliceArgs(ex: Expander, args: seq<string>) returns (ok: bool)
    requires ex.Now() == State([], [], [], [], [], [])
    modifies ex
    ensures var r := ItemsOutcome(ex.w, [], ArgItems(ex.w, args, 0));
      ok == r.error.None? && ex.out == r.out && ex.opens == r.opens
  {
    hide ItemOutcome, ItemsOutcome, ArgItems, Ids, Follows, IncludeItem;
    ghost var s0, w := ex.Now(), ex.w;
    ghost var whole, done := ItemsOutcome(w, [], ArgItems(w, args, 0)), Outcome(None, [], [], []);
    PlusNothing(s0);
    FollowsNothing(whole);
    StartsValid(w);
    var i := 0;
    while i < |args|
      invariant 0 <= i && ex.Valid() && done.error.None? && ex.Now() == Plus(s0, done)
      invariant whole == Follows(done, ItemsOutcome(w, [], ArgItems(w, args, i)))
      decreases |args| - i
    {
      ghost var item;
      var step;
      if IsInclude(args[i]) {
        item, step := IncludeItem(w, args[i], args, i, w.cwd, false), 2;
        ok := ex.ExpandInclude(args[i], args, i, ex.w.cwd, false);
      } else {
        item, step := Emit([args[i]]), 1;
        EmitOutcome(w, [args[i]]);
        ex.Push([args[i]]);
        ok := true;
      }
      ghost var r, rest := ItemOutcome(w, [], item), ArgItems(w, args, i + step);
      ArgStep(w, args, i);
      ItemsStep(w, [], item, rest);
      PlusPlus(s0, done, r);
      FollowsError(done, r);
      if !ok {
        PlusParts(s0, Follows(done, r));
        return;
      }
      FollowsAssoc(done, r, ItemsOutcome(w, [], rest));
      done, i := Follows(done, r), i + step;
    }
    ArgsEnd(w, args, i);
    FollowsNothing(done);
    PlusParts(s0, done);
    ok := true;
  }

  lemma StartsValid(w: World)
    ensures ValidState(w, State([], [], [], [], [], []))
  {
  }

  lemma PlusParts(s: State, r: Outcome)
    requires s.out == [] && s.opens == []
    ensures Plus(s, r).out == r.out && Plus(s, r).opens == r.opens
  {
  }

  lemma EmitOutcome(w: World, words: seq<string>)
    ensures ItemOutcome(w, [], Emit(words)) == Outcome(None, words, [], [])
    ensures forall rest :: Then(Emit(words), rest) == [Emit(words)] + rest
  {
  }

  lemma {:induction false} ArgStep(w: World, args: seq<string>, i: nat)
    requires i < |args|
    ensures ArgItems(w, args, i)
         == if IsInclude(args[i]) then Then(IncludeItem(w, args[i], args, i, w.cwd, false), ArgItems(w, args, i + 2))
            else [Emit([args[i]])] + ArgItems(w, args, i + 1)
  {
  }

  lemma {:induction false} ArgsEnd(w: World, args: seq<string>, i: nat)
    requires i >= |args|
    ensures ItemsOutcome(w, [], ArgItems(w, args, i)) == Outcome(None, [], [], [])
  {
  }

  method Dedup(w: World, s: seq<string>) returns (kept: seq<string>, hasDup: bool)
    ensures kept == Kept(w, s) && hasDup == HasDup(w, s)
  {
    hide Key, IsFlag, TakesValue;
    var seen: set<string> := {};
    var skipValue := false;
    kept, hasDup := [], false;
    var k := 0;
    while k < |s|
      invariant 0 <= k <= |s| && skipValue == Pending(s[..k])
      invariant kept == Kept(w, s[..k]) && hasDup == HasDup(w, s[..k])
      invariant forall key :: key in seen <==> key in SourceKeys(w, s[..k])
    {
      assert s[..k + 1][..k] == s[..k] && s[..k + 1][k] == s[k];
      if skipValue {
        skipValue := false;
        kept := kept + [s[k]];
      } else if IsFlag(s[k]) {
        skipValue := TakesValue(s[k]);
        kept := kept + [s[k]];
      } else {
        var key := Key(w, s[k]);
        if key in seen {
          hasDup := true;
        } else {
          seen := seen + {key};
          kept := kept + [s[k]];
        }
      }
      k := k + 1;
    }
    assert s[..|s|] == s;
  }

  /** Expand every filelist in place, then keep each source once. Without a filelist nothing is touched. */
  method ExpandArgv(w: World, args: seq<string>) returns (r: Option<(seq<string>, seq<Path>)>)
    ensures r == Flat(w, args)
  {
    hide ItemsOutcome, ArgItems, Kept, HasDup, IsInclude;
    if forall k :: 0 <= k < |args| ==> !IsInclude(args[k]) {
      return Some((args, []));
    }
    var ex := new Expander(w);
    var ok := SpliceArgs(ex, args);
    if !ok {
      return None;
    }
    var kept, hasDup := Dedup(w, ex.out);
    if hasDup && !w.dupsAgree(ex.out) {
      return None;
    }
    r := Some((kept, ex.opens));
  }

  // ---- what deduplication keeps ----

  predicate SourceAfter(x: seq<string>, t: string) { !Pending(x) && !IsFlag(t) }

  predicate DupAfter(w: World, x: seq<string>, t: string) {
    SourceAfter(x, t) && Key(w, t) in SourceKeys(w, x)
  }

  lemma {:induction false} Snoc(w: World, x: seq<string>, t: string)
    ensures Pending(x + [t]) == (!Pending(x) && IsFlag(t) && TakesValue(t))
    ensures SourceKeys(w, x + [t]) == SourceKeys(w, x) + if SourceAfter(x, t) then [Key(w, t)] else []
    ensures Others(x + [t]) == Others(x) + if SourceAfter(x, t) then [] else [t]
    ensures Kept(w, x + [t]) == Kept(w, x) + if DupAfter(w, x, t) then [] else [t]
    ensures HasDup(w, x + [t]) == (HasDup(w, x) || DupAfter(w, x, t))
  {
    assert (x + [t])[..|x|] == x;
  }

  lemma {:induction false} KeptPending(w: World, s: seq<string>)
    ensures Pending(Kept(w, s)) == Pending(s)
  {
    hide Key, IsFlag, TakesValue, SourceKeys, Pending, Kept;
    if s == [] {
      KeptNothing(w);
    } else {
      var front, last := s[..|s| - 1], s[|s| - 1];
      assert s == front + [last] && Kept(w, front) + [] == Kept(w, front);
      KeptPending(w, front);
      Snoc(w, front, last);
      Snoc(w, Kept(w, front), last);
    }
  }

  lemma KeptNothing(w: World)
    ensures Kept(w, []) == Others([]) == SourceKeys(w, []) == [] && !HasDup(w, [])
  {
  }

  /** Flags and their values all stay, in order; each source stays once, at its first mention. */
  lemma {:induction false} DedupKeeps(w: World, s: seq<string>)
    ensures Others(Kept(w, s)) == Others(s)
    ensures forall key :: key in SourceKeys(w, Kept(w, s)) <==> key in SourceKeys(w, s)
    ensures Once(SourceKeys(w, Kept(w, s)))
  {
    hide Key, IsFlag, TakesValue, SourceKeys, Pending, Kept, Others;
    KeptNothing(w);
    if s != [] {
      var front, last := s[..|s| - 1], s[|s| - 1];
      assert s == front + [last] && Kept(w, front) + [] == Kept(w, front);
      DedupKeeps(w, front);
      KeptPending(w, front);
      Snoc(w, front, last);
      Snoc(w, Kept(w, front), last);
    }
  }

  /** Nothing is left to drop. */
  lemma {:induction false} DedupTwice(w: World, s: seq<string>)
    ensures !HasDup(w, Kept(w, s)) && Kept(w, Kept(w, s)) == Kept(w, s)
  {
    hide Key, IsFlag, TakesValue, SourceKeys, Pending, Kept, Others, HasDup;
    KeptNothing(w);
    if s != [] {
      var front, last := s[..|s| - 1], s[|s| - 1];
      assert s == front + [last] && Kept(w, front) + [] == Kept(w, front);
      DedupTwice(w, front);
      DedupKeeps(w, front);
      KeptPending(w, front);
      Snoc(w, front, last);
      Snoc(w, Kept(w, front), last);
    }
  }

  /** A source is still repeated in the flat command line exactly when none named a filelist and some source
      was repeated. */
  lemma {:induction false} RepeatsLeft(w: World, args: seq<string>)
    requires Flat(w, args).Some?
    ensures HasDup(w, Flat(w, args).value.0) <==>
      (forall k :: 0 <= k < |args| ==> !IsInclude(args[k])) && HasDup(w, args)
  {
    hide HasDup, Kept, ItemsOutcome, ArgItems, IsInclude;
    if exists k :: 0 <= k < |args| && IsInclude(args[k]) {
      DedupTwice(w, ItemsOutcome(w, [], ArgItems(w, args, 0)).out);
    }
  }
}
