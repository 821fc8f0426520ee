/** What a filelist says, told token by token: the base directory of each file, where each word of it leads, and
    which files it asks for. Expansion is exactly the reading of a tree of such files. */
module FileTokens {
  import opened Wrappers
  import opened Strings
  import opened CommentStrip
  import opened Paths
  import opened Filelist
  import opened IncludeTree
  import opened PathText

  /** The path a token stands for, seen from a directory. */
  function Seen(tok: string, dir: Path): Path {
    if tok != "" && tok[0] == '/' then Components(tok) else dir + Components(tok)
  }

  /** A word that names a file: left alone when absolute, otherwise the normal form from the directory. */
  predicate Names(word: string, tok: string, dir: Path) {
    if tok != "" && tok[0] == '/' then word == tok else word == Render(Normal(dir + Components(tok)))
  }

  predicate Wild(tok: string) { '*' in tok || '?' in tok || '[' in tok }

  // ---- `+incdir+` ----

  function Concat(parts: seq<string>): string {
    if parts == [] then "" else parts[0] + Concat(parts[1..])
  }

  /** The pieces put together again, a `+` between each two. */
  function WithPlus(parts: seq<string>): string {
    if parts == [] then "" else if |parts| == 1 then parts[0] else parts[0] + "+" + WithPlus(parts[1..])
  }

  /** Every nonempty piece between plus signs is a directory to be named, and none has a wildcard. */
  ghost predicate IncdirSays(text: string, dir: Path, word: string) {
    exists parts: seq<string>, words: seq<string> ::
      WithPlus(parts) == text && (forall k :: 0 <= k < |parts| ==> '+' !in parts[k]) && |words| == |parts|
      && word == "+incdir" + Concat(words) && forall k :: 0 <= k < |parts| ==> PieceSays(parts[k], dir, words[k])
  }

  predicate PieceSays(part: string, dir: Path, word: string) {
    if part == "" then word == ""
    else !Wild(part) && word != "" && word[0] == '+' && Names(word[1..], part, dir)
  }

  // ---- one token, or two ----

  /** The token at `i`, in a file read from `dir`, stands for this piece, and reading goes on at `next`. */
  ghost predicate Says(w: World, toks: seq<string>, i: nat, dir: Path, big: bool, kid: Piece, next: nat) {
    i < |toks| && w.env(toks[i]).Some? &&
    var tok := w.env(toks[i]).value;
    if tok == "-f" || tok == "-F" then
      next == i + 2 && i + 1 < |toks| && w.env(toks[i + 1]).Some? && kid.Sub?
      && kid.tree.path == Normal(Seen(w.env(toks[i + 1]).value, dir)) && (kid.tree.big <==> big || tok == "-F")
    else if tok in VALUE_FLAGS then
      next == i + 2 && (i + 1 < |toks| ==> w.env(toks[i + 1]).Some?)
      && kid == Words(if i + 1 < |toks| then [tok, w.env(toks[i + 1]).value] else [tok])
    else
      next == i + 1 && kid.Words? && |kid.ws| == 1
      && if |tok| >= 8 && tok[..8] == "+define+" then kid.ws[0] == tok
         else if |tok| >= 8 && tok[..8] == "+incdir+" then IncdirSays(tok[8..], dir, kid.ws[0])
         else if |tok| > 1 && tok[0] == '-' then kid.ws[0] == tok
         else !Wild(tok) && Names(kid.ws[0], tok, dir)
  }

  /** The tokens from `i` on stand for these pieces, one after the other, and nothing is left over. */
  ghost predicate Told(w: World, toks: seq<string>, i: nat, dir: Path, big: bool, kids: seq<Piece>)
    decreases |kids|
  {
    if kids == [] then i >= |toks|
    else i < |toks| && exists next: nat :: Says(w, toks, i, dir, big, kids[0], next) && Told(w, toks, next, dir, big, kids[1..])
  }

  // ---- `+incdir+` as it is split ----

  function Nonempty(parts: seq<string>): seq<string> {
    if parts == [] then [] else (if parts[0] == "" then [] else [parts[0]]) + Nonempty(parts[1..])
  }

  lemma {:induction false} EndIs(s: string, i: nat, n: nat)
    requires i + n <= |s| && '+' !in s[i..i + n] && (i + n == |s| || s[i + n] == '+')
    ensures PlusEnd(s, i) == i + n
    decreases n
  {
    if n > 0 {
      assert s[i..i + n] == [s[i]] + s[i + 1..i + n];
      EndIs(s, i + 1, n - 1);
    }
  }

  lemma HeadOfSuffix(s: string, i: nat, head: string, rest: string)
    requires i <= |s| && s[i..] == head + "+" + rest
    ensures var j := i + |head|; j < |s| && s[i..j] == head && s[j] == '+' && s[j + 1..] == rest
  {
    var j := i + |head|;
    assert s[i..j] == s[i..][..|head|];
    assert s[j] == s[i..][|head|];
    assert s[j + 1..] == s[i..][|head| + 1..];
  }

  lemma {:induction false} SegmentsAt(s: string, i: nat, j: nat)
    requires i <= j <= |s| && PlusEnd(s, i) == j
    ensures PlusSegments(s, i) == (if i < j then [s[i..j]] else []) + if j < |s| then PlusSegments(s, j + 1) else []
  {
  }

  lemma PartsAt(parts: seq<string>)
    requires parts != []
    ensures WithPlus(parts) == if |parts| == 1 then parts[0] else parts[0] + "+" + WithPlus(parts[1..])
    ensures Nonempty(parts) == (if parts[0] == "" then [] else [parts[0]]) + Nonempty(parts[1..])
    ensures Nonempty([]) == []
  {
  }

  /** The segments are the nonempty pieces. */
  lemma {:induction false} PartsSplit(s: string, i: nat, parts: seq<string>)
    requires i <= |s| && parts != [] && WithPlus(parts) == s[i..] && forall k :: 0 <= k < |parts| ==> '+' !in parts[k]
    ensures PlusSegments(s, i) == Nonempty(parts)
    decreases |parts|
  {
    hide PlusEnd, PlusSegments, WithPlus, Nonempty;
    var n := |parts[0]|;
    var j := i + n;
    PartsAt(parts);
    if |parts| == 1 {
      assert j == |s| && s[i..j] == parts[0];
      assert parts[1..] == [];
    } else {
      HeadOfSuffix(s, i, parts[0], WithPlus(parts[1..]));
      PartsSplit(s, j + 1, parts[1..]);
    }
    EndIs(s, i, n);
    SegmentsAt(s, i, j);
  }

  lemma {:induction false} SplitsAtPlus(s: string) returns (parts: seq<string>)
    ensures parts != [] && WithPlus(parts) == s && forall k :: 0 <= k < |parts| ==> '+' !in parts[k]
    decreases |s|
  {
    var j := PlusEnd(s, 0);
    NoPlus(s, 0);
    assert s[0..j] == s[..j];
    if j < |s| {
      var rest := SplitsAtPlus(s[j + 1..]);
      parts := [s[..j]] + rest;
      assert s == s[..j] + "+" + s[j + 1..];
      assert parts[1..] == rest;
    } else {
      parts := [s];
    }
  }

  lemma {:induction false} NoPlus(s: string, i: nat)
    requires i <= |s|
    ensures var j := PlusEnd(s, i); '+' !in s[i..j] && (j < |s| ==> s[j] == '+')
    decreases |s| - i
  {
    if i < |s| && s[i] != '+' {
      NoPlus(s, i + 1);
      assert s[i..PlusEnd(s, i)] == [s[i]] + s[i + 1..PlusEnd(s, i)];
    }
  }

  lemma ResolveNames(word: string, tok: string, dir: Path)
    ensures Names(word, tok, dir) <==> word == Resolve(tok, dir)
  {
  }

  lemma {:induction false} JoinIs(parts: seq<string>, base: Path, joined: string, words: seq<string>)
    requires |words| == |parts| && forall k :: 0 <= k < |parts| ==> PieceSays(parts[k], base, words[k])
    ensures JoinIncdirs(Nonempty(parts), base, joined) == Emit([joined + Concat(words)])
  {
    hide Resolve, Names;
    if parts == [] {
      assert joined + "" == joined;
    } else {
      assert PieceSays(parts[0], base, words[0]);
      if parts[0] == "" {
        assert [] + Nonempty(parts[1..]) == Nonempty(parts[1..]);
        JoinIs(parts[1..], base, joined, words[1..]);
        assert words[0] + Concat(words[1..]) == Concat(words[1..]);
      } else {
        ResolveNames(words[0][1..], parts[0], base);
        assert words[0] == "+" + words[0][1..];
        var more := joined + "+" + Resolve(parts[0], base);
        assert more == joined + words[0];
        JoinIs(parts[1..], base, more, words[1..]);
        assert ([parts[0]] + Nonempty(parts[1..]))[1..] == Nonempty(parts[1..]);
        assert joined + words[0] + Concat(words[1..]) == joined + Concat(words);
      }
    }
  }

  lemma {:induction false} JoinSays(parts: seq<string>, base: Path, joined: string) returns (words: seq<string>)
    requires JoinIncdirs(Nonempty(parts), base, joined).Emit?
    ensures |words| == |parts| && forall k :: 0 <= k < |parts| ==> PieceSays(parts[k], base, words[k])
  {
    hide Resolve, Names;
    if parts == [] {
      words := [];
    } else {
      var rest, word;
      if parts[0] == "" {
        assert [] + Nonempty(parts[1..]) == Nonempty(parts[1..]);
        rest := JoinSays(parts[1..], base, joined);
        word := "";
      } else {
        assert ([parts[0]] + Nonempty(parts[1..]))[1..] == Nonempty(parts[1..]);
        rest := JoinSays(parts[1..], base, joined + "+" + Resolve(parts[0], base));
        word := "+" + Resolve(parts[0], base);
        ResolveNames(word[1..], parts[0], base);
      }
      words := [word] + rest;
      assert PieceSays(parts[0], base, words[0]);
    }
  }

  lemma {:induction false} IncdirIs(text: string, base: Path, word: string)
    ensures IncdirSays(text, base, word) <==> JoinIncdirs(PlusSegments(text, 0), base, "+incdir") == Emit([word])
  {
    hide PieceSays, JoinIncdirs, PlusSegments, WithPlus;
    assert text[0..] == text;
    if IncdirSays(text, base, word) {
      var parts: seq<string>, words: seq<string> :| WithPlus(parts) == text
        && (forall k :: 0 <= k < |parts| ==> '+' !in parts[k]) && |words| == |parts|
        && word == "+incdir" + Concat(words) && forall k :: 0 <= k < |parts| ==> PieceSays(parts[k], base, words[k]);
      JoinIs(parts, base, "+incdir", words);
      if parts == [] { NoParts(text); } else { PartsSplit(text, 0, parts); }
    }
    if JoinIncdirs(PlusSegments(text, 0), base, "+incdir") == Emit([word]) {
      var parts := SplitsAtPlus(text);
      PartsSplit(text, 0, parts);
      var words := JoinSays(parts, base, "+incdir");
      JoinIs(parts, base, "+incdir", words);
    }
  }

  lemma NoParts(text: string)
    requires WithPlus([]) == text
    ensures PlusSegments(text, 0) == [] == Nonempty([])
  {
  }

  // ---- a token is told as it is read ----

  /** A file below fits under the active ones. */
  predicate SubFits(w: World, kid: Piece, active: seq<Path>) { kid.Sub? ==> Fits(w, kid.tree, active) }

  predicate Based(base: Path) { Spelled(base) && Absolute(base) }

  lemma {:induction false} IncludeSays(w: World, toks: seq<string>, i: nat, base: Path, big: bool, kid: Piece, active: seq<Path>)
    requires i < |toks| && w.env(toks[i]).Some? && IsInclude(w.env(toks[i]).value) && Based(base)
    ensures KidFits(w, kid, IncludeItem(w, w.env(toks[i]).value, toks, i, base, big), active)
       <==> Says(w, toks, i, base, big, kid, i + 2) && SubFits(w, kid, active)
  {
    hide Fits, Canon, Resolve, Normal, Components, Spelled;
    if i + 1 < |toks| && w.env(toks[i + 1]).Some? { TargetIsThere(w, w.env(toks[i + 1]).value, base); }
  }

  lemma {:induction false} ValueSays(w: World, toks: seq<string>, i: nat, base: Path, big: bool, kid: Piece, active: seq<Path>)
    requires i < |toks| && w.env(toks[i]).Some? && !IsInclude(w.env(toks[i]).value) && TakesValue(w.env(toks[i]).value)
    ensures KidFits(w, kid, ValueItem(w, w.env(toks[i]).value, toks, i), active)
       <==> Says(w, toks, i, base, big, kid, i + 2) && SubFits(w, kid, active)
  {
    hide Fits, IncdirSays;
  }

  lemma {:induction false} WordSays(w: World, toks: seq<string>, i: nat, base: Path, big: bool, kid: Piece, active: seq<Path>)
    requires i < |toks| && w.env(toks[i]).Some? && !IsInclude(w.env(toks[i]).value) && !TakesValue(w.env(toks[i]).value)
    ensures KidFits(w, kid, WordItem(w.env(toks[i]).value, base), active)
       <==> Says(w, toks, i, base, big, kid, i + 1) && SubFits(w, kid, active)
  {
    hide Fits, IncdirSays, Resolve, JoinIncdirs, PlusSegments, Names;
    var tok := w.env(toks[i]).value;
    JoinIncludesNothing(PlusSegments(tok[if |tok| >= 8 then 8 else 0..], 0), base, "+incdir");
    if kid.Words? && |kid.ws| == 1 {
      ResolveNames(kid.ws[0], tok, base);
      if |tok| >= 8 { IncdirIs(tok[8..], base, kid.ws[0]); }
      assert kid.ws == [kid.ws[0]];
    }
    if |tok| >= 8 { JoinEmitsOne(PlusSegments(tok[8..], 0), base, "+incdir"); }
  }

  lemma {:induction false} JoinEmitsOne(segs: seq<string>, base: Path, joined: string)
    ensures var item := JoinIncdirs(segs, base, joined); item.Stop? || (item.Emit? && |item.words| == 1)
    decreases |segs|
  {
    if segs != [] && !IsGlob(segs[0]) { JoinEmitsOne(segs[1..], base, joined + "+" + Resolve(segs[0], base)); }
  }

  /** The first request of a token stream, and where the next begins. */
  lemma {:induction false} FirstSays(w: World, toks: seq<string>, i: nat, base: Path, big: bool, kids: seq<Piece>, active: seq<Path>)
    requires i < |toks| && kids != [] && Based(base)
    ensures KidsFit(w, kids, Items(w, toks, i, base, big), active)
       <==> exists next: nat :: Says(w, toks, i, base, big, kids[0], next) && SubFits(w, kids[0], active)
                                && KidsFit(w, kids[1..], Items(w, toks, next, base, big), active)
  {
    hide KidFits, Says, SubFits, WordItem, IncludeItem, ValueItem, TakesValue, IsInclude;
    var kid := kids[0];
    if w.env(toks[i]).None? {
      StopsThere(w, UndefEnv(toks[i]), [], kids, active);
      forall next: nat ensures !Says(w, toks, i, base, big, kid, next) { NothingSaid(w, toks, i, base, big, kid, next); }
    } else {
      var tok := w.env(toks[i]).value;
      var item, step := WordItem(tok, base), 1;
      if IsInclude(tok) {
        item, step := IncludeItem(w, tok, toks, i, base, big), 2;
        IncludeSays(w, toks, i, base, big, kid, active);
      } else if TakesValue(tok) {
        item, step := ValueItem(w, tok, toks, i), 2;
        ValueSays(w, toks, i, base, big, kid, active);
      } else {
        WordSays(w, toks, i, base, big, kid, active);
      }
      var next := i + step;
      ThenFits(w, kids, item, Items(w, toks, next, base, big), active);
      forall m: nat | Says(w, toks, i, base, big, kid, m) ensures m == next { OneNext(w, toks, i, base, big, kid, m); }
    }
  }

  lemma StopsThere(w: World, e: Error, words: seq<string>, kids: seq<Piece>, active: seq<Path>)
    ensures !KidsFit(w, kids, [Stop(words, e)], active)
  {
    if kids != [] { assert [Stop(words, e)][0] == Stop(words, e); }
  }

  lemma NothingSaid(w: World, toks: seq<string>, i: nat, base: Path, big: bool, kid: Piece, next: nat)
    requires i < |toks| && w.env(toks[i]).None?
    ensures !Says(w, toks, i, base, big, kid, next)
  {
  }

  lemma OneNext(w: World, toks: seq<string>, i: nat, base: Path, big: bool, kid: Piece, next: nat)
    requires i < |toks| && w.env(toks[i]).Some? && Says(w, toks, i, base, big, kid, next)
    ensures next == i + if IsInclude(w.env(toks[i]).value) || TakesValue(w.env(toks[i]).value) then 2 else 1
  {
    hide IncdirSays, Names;
  }

  lemma ThenFits(w: World, kids: seq<Piece>, item: Item, rest: seq<Item>, active: seq<Path>)
    requires kids != []
    ensures KidsFit(w, kids, Then(item, rest), active)
       <==> KidFits(w, kids[0], item, active) && KidsFit(w, kids[1..], rest, active)
  {
    hide Fits;
    if item.Stop? {
      StopsThere(w, item.error, item.words, kids, active);
    } else {
      assert ([item] + rest)[1..] == rest && ([item] + rest)[0] == item;
    }
  }

  predicate AllSubFit(w: World, kids: seq<Piece>, active: seq<Path>) {
    forall k :: 0 <= k < |kids| ==> SubFits(w, kids[k], active)
  }

  /** A file's requests fit exactly when its tokens tell them. */
  lemma {:induction false} ToldExactly(w: World, toks: seq<string>, i: nat, base: Path, big: bool, kids: seq<Piece>, active: seq<Path>)
    requires Based(base)
    ensures KidsFit(w, kids, Items(w, toks, i, base, big), active)
       <==> Told(w, toks, i, base, big, kids) && AllSubFit(w, kids, active)
    decreases |kids|
  {
    hide KidsFit, Items, Says, SubFits, Based;
    if i >= |toks| {
      NoItems(w, toks, i, base, big, kids, active);
    } else if kids == [] {
      SomeItems(w, toks, i, base, big, active);
    } else {
      FirstSays(w, toks, i, base, big, kids, active);
      forall next: nat
        ensures KidsFit(w, kids[1..], Items(w, toks, next, base, big), active)
           <==> Told(w, toks, next, base, big, kids[1..]) && AllSubFit(w, kids[1..], active)
      {
        ToldExactly(w, toks, next, base, big, kids[1..], active);
      }
      AllSubStep(w, kids, active);
    }
  }

  lemma AllSubStep(w: World, kids: seq<Piece>, active: seq<Path>)
    requires kids != []
    ensures AllSubFit(w, kids, active) <==> SubFits(w, kids[0], active) && AllSubFit(w, kids[1..], active)
  {
    hide SubFits;
    assert forall k :: 0 < k < |kids| ==> kids[k] == kids[1..][k - 1];
    if AllSubFit(w, kids[1..], active) && SubFits(w, kids[0], active) {
      forall k | 0 <= k < |kids| ensures SubFits(w, kids[k], active) { if k > 0 { assert SubFits(w, kids[1..][k - 1], active); } }
    }
    if AllSubFit(w, kids, active) {
      forall k | 0 <= k < |kids[1..]| ensures SubFits(w, kids[1..][k], active) { assert SubFits(w, kids[k + 1], active); }
    }
  }

  lemma NoItems(w: World, toks: seq<string>, i: nat, base: Path, big: bool, kids: seq<Piece>, active: seq<Path>)
    requires i >= |toks|
    ensures KidsFit(w, kids, Items(w, toks, i, base, big), active) <==> kids == []
  {
  }

  lemma SomeItems(w: World, toks: seq<string>, i: nat, base: Path, big: bool, active: seq<Path>)
    requires i < |toks|
    ensures !KidsFit(w, [], Items(w, toks, i, base, big), active)
  {
    hide WordItem, IncludeItem, ValueItem, TakesValue;
  }

  // ---- the tree, told without the expander ----

  /** The directory words are seen from: the file's own when it was entered by `-F`, where the tool was started
      otherwise. */
  function Dir(w: World, t: Tree): Path {
    if t.big && |t.path| > 1 then t.path[..|t.path| - 1] else w.cwd
  }

  function Tokens(w: World, p: Path): seq<string>
    requires p in w.files && Stripped(w.files[p]).Ok?
  {
    SplitWhitespace(Text(Stripped(w.files[p]).value), 0)
  }

  /** Every file of the tree is readable, open nowhere above itself, at most 256 deep, and says what the tree has. */
  ghost predicate Tells(w: World, t: Tree, active: seq<Path>)
    decreases t
  {
    |active| < MAX_DEPTH && (forall k :: 0 <= k < |active| ==> !SameFile(w, active[k], t.path))
    && t.path in w.files && Stripped(w.files[t.path]).Ok?
    && Told(w, Tokens(w, t.path), 0, Dir(w, t), t.big, t.kids)
    && forall k :: 0 <= k < |t.kids| ==> KidTells(w, t.kids[k], active + [t.path])
  }

  ghost predicate KidTells(w: World, kid: Piece, active: seq<Path>)
    decreases kid
  {
    kid.Sub? ==> Tells(w, kid.tree, active)
  }

  lemma DirIsBase(w: World, t: Tree)
    requires Based(w.cwd) && Based(t.path)
    ensures Dir(w, t) == Base(w, t.path, t.big) && Based(Dir(w, t))
  {
  }

  lemma {:induction false} SubsAreBased(w: World, toks: seq<string>, i: nat, base: Path, big: bool, kids: seq<Piece>)
    requires Based(base) && Told(w, toks, i, base, big, kids)
    ensures forall k :: 0 <= k < |kids| && kids[k].Sub? ==> Based(kids[k].tree.path)
    decreases |kids|
  {
    hide Says, Based;
    if kids != [] {
      var next: nat :| Says(w, toks, i, base, big, kids[0], next) && Told(w, toks, next, base, big, kids[1..]);
      SubsAreBased(w, toks, next, base, big, kids[1..]);
      if kids[0].Sub? { SubIsBased(w, toks, i, base, big, kids[0], next); }
      forall k | 0 <= k < |kids| && kids[k].Sub? ensures Based(kids[k].tree.path) {
        if k > 0 { assert kids[k] == kids[1..][k - 1]; }
      }
    }
  }

  lemma SubIsBased(w: World, toks: seq<string>, i: nat, base: Path, big: bool, kid: Piece, next: nat)
    requires Based(base) && kid.Sub? && Says(w, toks, i, base, big, kid, next)
    ensures Based(kid.tree.path)
  {
    hide Normal, Components, Spelled, IncdirSays, Names;
    var t := w.env(toks[i + 1]).value;
    ComponentsSpelled(t);
    if !IsAbsolute(t) { JoinSpelled(base, Components(t)); }
    NormalSpelled(Seen(t, base));
  }

  /** The trees of the expansion are the trees that tell themselves. */
  lemma {:induction false} FitsIsTells(w: World, t: Tree, active: seq<Path>)
    requires Based(w.cwd) && Based(t.path)
    ensures Fits(w, t, active) <==> Tells(w, t, active)
    decreases t
  {
    hide Items, Stripped, Text, Active, SplitWhitespace, Told, Based, KidsFit, SameFile, Base, Dir;
    DirIsBase(w, t);
    ActiveIs(w, active, t.path);
    if t.path in w.files && Stripped(w.files[t.path]).Ok? {
      var toks := Tokens(w, t.path);
      ToldExactly(w, toks, 0, Dir(w, t), t.big, t.kids, active + [t.path]);
      if Told(w, toks, 0, Dir(w, t), t.big, t.kids) {
        SubsAreBased(w, toks, 0, Dir(w, t), t.big, t.kids);
        forall k | 0 <= k < |t.kids|
          ensures SubFits(w, t.kids[k], active + [t.path]) <==> KidTells(w, t.kids[k], active + [t.path])
        {
          if t.kids[k].Sub? { FitsIsTells(w, t.kids[k].tree, active + [t.path]); }
        }
      }
    }
  }

  /** Expansion succeeds exactly when a tree tells itself below the file: each file seen from its own directory
      inside `-F` and from where the tool was started elsewhere, each token accounted for. It then yields that
      tree's words, and opened its files, in pre-order. */
  lemma {:induction false} ExpandsExactly(w: World, active: seq<Path>, path: string, big: bool)
    requires Based(w.cwd) && |active| <= MAX_DEPTH
    ensures var r := FileOutcome(w, active, path, big);
      r.error.None? <==> exists t :: StandsFor(w, t, path, big) && Tells(w, t, active)
    ensures forall t :: StandsFor(w, t, path, big) && Tells(w, t, active) ==>
      FileOutcome(w, active, path, big).out == Splice(t) && FileOutcome(w, active, path, big).opens == PreOrder(t)
  {
    hide FileOutcome, Fits, Tells, Based;
    SpliceExactly(w, active, path, big);
    forall t ensures IsTree(w, t, active, path, big) <==> StandsFor(w, t, path, big) && Tells(w, t, active) {
      StandsIsCanon(w, t, path, big);
      if StandsFor(w, t, path, big) { FitsIsTells(w, t, active); }
    }
  }

  predicate StandsFor(w: World, t: Tree, path: string, big: bool) { t.path == Normal(Seen(path, w.cwd)) && t.big == big }

  lemma StandsIsCanon(w: World, t: Tree, path: string, big: bool)
    requires Based(w.cwd)
    ensures StandsFor(w, t, path, big) <==> t.path == Canon(w, path) && t.big == big
    ensures StandsFor(w, t, path, big) ==> Based(t.path)
  {
    hide Normal, Components, Spelled;
    ComponentsSpelled(path);
    if !IsAbsolute(path) { JoinSpelled(w.cwd, Components(path)); }
    NormalSpelled(Seen(path, w.cwd));
  }

  // ---- the tokens ----

  /** The word is a longest stretch of the text without space. */
  predicate WordAt(s: string, word: string, l: nat, h: nat) {
    l < h <= |s| && word == s[l..h] && (forall m :: l <= m < h ==> !IsSpace(s[m]))
    && (l == 0 || IsSpace(s[l - 1])) && (h == |s| || IsSpace(s[h]))
  }

  predicate SpaceFrom(s: string, i: nat, j: nat) { i <= j <= |s| && forall m :: i <= m < j ==> IsSpace(s[m]) }

  /** These are all the words of the text from `i` on, in order: nothing but space stands between them. */
  ghost predicate WordsFrom(s: string, i: nat, words: seq<string>)
    decreases |words|
  {
    if words == [] then SpaceFrom(s, i, |s|)
    else exists l: nat, h: nat :: SpaceFrom(s, i, l) && WordAt(s, words[0], l, h) && WordsFrom(s, h, words[1..])
  }

  lemma {:induction false} WordEndIs(s: string, i: nat)
    requires i <= |s|
    ensures var j := WordEnd(s, i);
      (forall m :: i <= m < j ==> !IsSpace(s[m])) && (j == |s| || IsSpace(s[j]))
    decreases |s| - i
  {
    if i < |s| && !IsSpace(s[i]) { WordEndIs(s, i + 1); }
  }

  lemma {:induction false} SplitAtWord(s: string, i: nat)
    requires i <= |s|
    ensures var j := WordEnd(s, i);
      SplitWhitespace(s, i) == (if i < j then [s[i..j]] else []) + if j < |s| then SplitWhitespace(s, j + 1) else []
  {
  }

  lemma WordsCons(s: string, i: nat, j: nat, rest: seq<string>)
    requires i <= j <= |s| && WordAt(s, s[i..j], i, j) && WordsFrom(s, j, rest)
    ensures WordsFrom(s, i, [s[i..j]] + rest)
  {
    hide WordAt, IsSpace;
    var words := [s[i..j]] + rest;
    assert words[1..] == rest && words[0] == s[i..j] && SpaceFrom(s, i, i);
  }

  lemma NoWords(s: string)
    ensures WordsFrom(s, |s|, [])
  {
  }

  /** The tokens of a text are its words. */
  lemma {:induction false} SplitIsWords(s: string, i: nat)
    requires i <= |s| && (i == 0 || IsSpace(s[i - 1]))
    ensures WordsFrom(s, i, SplitWhitespace(s, i))
    decreases |s| - i
  {
    hide IsSpace, WordEnd, SplitWhitespace, WordsFrom;
    var j := WordEnd(s, i);
    WordEndIs(s, i);
    SplitAtWord(s, i);
    var rest := if j < |s| then SplitWhitespace(s, j + 1) else [];
    if j < |s| {
      SplitIsWords(s, j + 1);
      SpaceBefore(s, j, j + 1, rest);
    } else {
      NoWords(s);
    }
    if i < j {
      WordsCons(s, i, j, rest);
    } else {
      assert [] + rest == rest;
    }
  }

  lemma {:induction false} SpaceBefore(s: string, i: nat, j: nat, words: seq<string>)
    requires SpaceFrom(s, i, j) && WordsFrom(s, j, words)
    ensures WordsFrom(s, i, words)
  {
    hide IsSpace, WordAt;
    if words != [] {
      var l: nat, h: nat :| SpaceFrom(s, j, l) && WordAt(s, words[0], l, h) && WordsFrom(s, h, words[1..]);
      assert SpaceFrom(s, i, l);
    }
  }
}
