/** What the lenient manifest reader sees: the lines that say something, without trailing space. Everything else may
    stand in a text or not; only the line numbers of errors notice. */
module ManifestContent {
  import opened Wrappers
  import opened Strings
  import opened Escapes
  import opened Manifest
  import opened ManifestParse
  import opened ManifestRoundTrip

  /** The content of the lines from `i` on. */
  function Content(lines: seq<string>, i: nat): seq<string>
    decreases |lines| - i
  {
    if i >= |lines| then []
    else (if Skipped(lines[i]) then [] else [TrimEnd(lines[i])]) + Content(lines, i + 1)
  }

  lemma {:induction false} NextIsContent(lines: seq<string>, i: nat)
    ensures match NextContent(lines, i)
      case None => Content(lines, i) == []
      case Some(p) => Content(lines, i) == [p.1] + Content(lines, p.0)
    decreases |lines| - i
  {
    hide Skipped;
    if i < |lines| && Skipped(lines[i]) { NextIsContent(lines, i + 1); }
  }

  /** Two steps that read the same, and leave the same content. */
  ghost predicate SameStep<T>(x: seq<string>, r: Result<(T, nat), ParseError>, y: seq<string>, q: Result<(T, nat), ParseError>) {
    (r.Ok? <==> q.Ok?) && (r.Ok? ==> r.value.0 == q.value.0 && Content(x, r.value.1) == Content(y, q.value.1))
  }

  lemma {:induction false} NextSame(x: seq<string>, i: nat, y: seq<string>, j: nat)
    requires Content(x, i) == Content(y, j)
    ensures var p, q := NextContent(x, i), NextContent(y, j);
      (p.Some? <==> q.Some?)
      && (p.Some? ==> p.value.1 == q.value.1 && Content(x, p.value.0) == Content(y, q.value.0))
  {
    hide Content;
    NextIsContent(x, i);
    NextIsContent(y, j);
    var p, q := NextContent(x, i), NextContent(y, j);
    if p.Some? && q.Some? {
      assert Content(x, i)[0] == p.value.1 && Content(y, j)[0] == q.value.1;
      assert Content(x, i)[1..] == Content(x, p.value.0) && Content(y, j)[1..] == Content(y, q.value.0);
    }
  }

  lemma {:induction false} ElementsSame(x: seq<string>, i: nat, y: seq<string>, j: nat, key: string)
    requires Content(x, i) == Content(y, j)
    ensures SameStep(x, ParseElements(x, i, key), y, ParseElements(y, j, key))
    decreases |x| - i
  {
    hide Content, ParseElement, NextContent;
    NextSame(x, i, y, j);
    var p, q := NextContent(x, i), NextContent(y, j);
    if p.Some? && p.value.1 != "]" && ParseElement(p.value.1).Some? {
      NextForward(x, i);
      ElementsSame(x, p.value.0, y, q.value.0, key);
    }
  }

  lemma NextForward(x: seq<string>, i: nat)
    ensures var p := NextContent(x, i); p.Some? ==> i < p.value.0 <= |x|
  {
  }

  lemma {:induction false} ArraySame(x: seq<string>, i: nat, y: seq<string>, j: nat, key: string)
    requires Content(x, i) == Content(y, j)
    ensures SameStep(x, ParseArray(x, i, key), y, ParseArray(y, j, key))
  {
    hide Content, NextContent, ParseElements;
    NextSame(x, i, y, j);
    var p, q := NextContent(x, i), NextContent(y, j);
    if p.Some? { ElementsSame(x, p.value.0, y, q.value.0, key); }
  }

  lemma {:induction false} DigestsSame(x: seq<string>, i: nat, y: seq<string>, j: nat, key: string)
    requires Content(x, i) == Content(y, j)
    ensures SameStep(x, ParseDigests(x, i, key), y, ParseDigests(y, j, key))
  {
    hide Content, ParseArray, ToDigests;
    ArraySame(x, i, y, j, key);
  }

  lemma {:induction false} CuSame(x: seq<string>, i: nat, y: seq<string>, j: nat)
    requires Content(x, i) == Content(y, j)
    ensures SameStep(x, ParseCu(x, i), y, ParseCu(y, j))
  {
    hide Content, NextContent, ParseKeyLine, ParseArray, ParseDigests, ToUnits;
    NextSame(x, i, y, j);
    var p, q := NextContent(x, i), NextContent(y, j);
    if p.None? || ParseKeyLine(p.value.1, "blob").None? { return; }
    ArraySame(x, p.value.0, y, q.value.0, "defines");
    var r1, s1 := ParseArray(x, p.value.0, "defines"), ParseArray(y, q.value.0, "defines");
    if r1.Err? { return; }
    ArraySame(x, r1.value.1, y, s1.value.1, "incdirs");
    var r2, s2 := ParseArray(x, r1.value.1, "incdirs"), ParseArray(y, s1.value.1, "incdirs");
    if r2.Err? { return; }
    DigestsSame(x, r2.value.1, y, s2.value.1, "sources");
    var r3, s3 := ParseDigests(x, r2.value.1, "sources"), ParseDigests(y, s2.value.1, "sources");
    if r3.Err? { return; }
    DigestsSame(x, r3.value.1, y, s3.value.1, "includes");
    var r4, s4 := ParseDigests(x, r3.value.1, "includes"), ParseDigests(y, s3.value.1, "includes");
    if r4.Err? { return; }
    ArraySame(x, r4.value.1, y, s4.value.1, "units");
  }

  lemma {:induction false} CusSame(x: seq<string>, i: nat, y: seq<string>, j: nat)
    requires Content(x, i) == Content(y, j)
    ensures var r, q := ParseCus(x, i), ParseCus(y, j); (r.Ok? <==> q.Ok?) && (r.Ok? ==> r == q)
    decreases |x| - i
  {
    hide Content, NextContent, ParseCu;
    NextSame(x, i, y, j);
    NextForward(x, i);
    var p, q := NextContent(x, i), NextContent(y, j);
    if p.Some? && p.value.1 == "[[cu]]" {
      CuSame(x, p.value.0, y, q.value.0);
      var r, s := ParseCu(x, p.value.0), ParseCu(y, q.value.0);
      if r.Ok? {
        CuAdvances(x, p.value.0);
        CusSame(x, r.value.1, y, s.value.1);
      }
    }
  }

  /** Texts with the same content are read the same: one library, or an error in both. */
  lemma {:induction false} ContentDecides(x: string, y: string)
    requires Content(SplitLines(x), 0) == Content(SplitLines(y), 0)
    ensures Parsed(x).Ok? <==> Parsed(y).Ok?
    ensures Parsed(x).Ok? ==> Parsed(x) == Parsed(y)
  {
    hide Content, NextContent, ParseKeyLine, ParseCus, SplitLines;
    var a, b := SplitLines(x), SplitLines(y);
    NextSame(a, 0, b, 0);
    var p, q := NextContent(a, 0), NextContent(b, 0);
    if p.Some? && p.value.1 == VERSION {
      NextSame(a, p.value.0, b, q.value.0);
      var n, m := NextContent(a, p.value.0), NextContent(b, q.value.0);
      if n.Some? { CusSame(a, n.value.0, b, m.value.0); }
    }
  }

  /** So a text is read as a library whenever its content is that of the library's own text, whatever comments,
      blank lines and trailing spaces stand in it; and two libraries never share their content. */
  lemma {:induction false} AnyWithItsContent(m: Library, text: string)
    requires Clean(m) && Content(SplitLines(text), 0) == Content(SplitLines(Text(m)), 0)
    ensures Parsed(text) == Ok(m)
  {
    hide Content, Parsed, Text;
    CleanRoundTrip(m);
    ContentDecides(text, Text(m));
  }

  lemma {:induction false} ContentIsInjective(m: Library, n: Library)
    requires Clean(m) && Clean(n) && Content(SplitLines(Text(m)), 0) == Content(SplitLines(Text(n)), 0)
    ensures m == n
  {
    hide Content, Parsed, Text, Clean;
    AnyWithItsContent(n, Text(m));
    CleanRoundTrip(m);
  }

  // ---- what an error reports ----

  /** Line `n`, counted from one, is the next after `i` that says something. */
  predicate SaysAt(lines: seq<string>, i: nat, n: nat) {
    i < n <= |lines| && !Skipped(lines[n - 1]) && forall k :: i <= k < n - 1 ==> Skipped(lines[k])
  }

  lemma {:induction false} NextSays(lines: seq<string>, i: nat)
    ensures match NextContent(lines, i)
      case None => forall k :: i <= k < |lines| ==> Skipped(lines[k])
      case Some(p) => SaysAt(lines, i, p.0) && p.1 == TrimEnd(lines[p.0 - 1])
    decreases |lines| - i
  {
    hide Skipped;
    if i < |lines| && Skipped(lines[i]) { NextSays(lines, i + 1); }
  }

  /** The line says something, and not what the error says was expected there. */
  predicate LineIsWrong(lines: seq<string>, e: ParseError) {
    match e
    case NotCanonical(n) => 0 < n <= |lines| && !Skipped(lines[n - 1]) && TrimEnd(lines[n - 1]) != VERSION
    case ExpectedName(n) => 0 < n <= |lines| && !Skipped(lines[n - 1]) && ParseKeyLine(TrimEnd(lines[n - 1]), "name").None?
    case ExpectedCu(n) => 0 < n <= |lines| && !Skipped(lines[n - 1]) && TrimEnd(lines[n - 1]) != "[[cu]]"
    case ExpectedBlob(n) => 0 < n <= |lines| && !Skipped(lines[n - 1]) && ParseKeyLine(TrimEnd(lines[n - 1]), "blob").None?
    case ExpectedArray(key, n) =>
      0 < n <= |lines| && !Skipped(lines[n - 1])
      && TrimEnd(lines[n - 1]) != key + " = []" && TrimEnd(lines[n - 1]) != key + " = ["
    case BadElement(n) =>
      0 < n <= |lines| && !Skipped(lines[n - 1]) && TrimEnd(lines[n - 1]) != "]" && ParseElement(TrimEnd(lines[n - 1])).None?
    case BadDigest(entry) => SplitOnce(entry, "  ").None? || Unhex32(SplitOnce(entry, "  ").value.0).None?
    case BadUnit(entry) => SplitOnce(entry, " ").None?
    case _ => true
  }

  lemma {:induction false} ElementsWrong(lines: seq<string>, i: nat, key: string)
    ensures var r := ParseElements(lines, i, key); r.Err? ==> LineIsWrong(lines, r.error)
    decreases |lines| - i
  {
    hide Skipped, ParseElement, NextContent, TrimEnd;
    NextSays(lines, i);
    NextForward(lines, i);
    var p := NextContent(lines, i);
    if p.Some? && p.value.1 != "]" { ElementsWrong(lines, p.value.0, key); }
  }

  lemma {:induction false} ArrayWrong(lines: seq<string>, i: nat, key: string)
    ensures var r := ParseArray(lines, i, key); r.Err? ==> LineIsWrong(lines, r.error)
  {
    hide Skipped, NextContent, TrimEnd, ParseElements;
    NextSays(lines, i);
    var p := NextContent(lines, i);
    if p.Some? { ElementsWrong(lines, p.value.0, key); }
  }

  lemma {:induction false} DigestsWrong(lines: seq<string>, entries: seq<string>)
    ensures var r := ToDigests(entries); r.Err? ==> LineIsWrong(lines, r.error)
  {
    hide Unhex32, SplitOnce;
    if entries != [] { DigestsWrong(lines, entries[1..]); }
  }

  lemma {:induction false} UnitsWrong(lines: seq<string>, entries: seq<string>)
    ensures var r := ToUnits(entries); r.Err? ==> LineIsWrong(lines, r.error)
  {
    hide SplitOnce;
    if entries != [] { UnitsWrong(lines, entries[1..]); }
  }

  lemma {:induction false} DigestArrayWrong(lines: seq<string>, i: nat, key: string)
    ensures var r := ParseDigests(lines, i, key); r.Err? ==> LineIsWrong(lines, r.error)
  {
    hide ParseArray, ToDigests, LineIsWrong;
    ArrayWrong(lines, i, key);
    var raw := ParseArray(lines, i, key);
    if raw.Ok? { DigestsWrong(lines, raw.value.0); }
  }

  lemma {:induction false} CuWrong(lines: seq<string>, i: nat)
    ensures var r := ParseCu(lines, i); r.Err? ==> LineIsWrong(lines, r.error)
  {
    hide ParseArray, ParseDigests, ToUnits, NextContent, Skipped, ParseKeyLine, TrimEnd;
    NextSays(lines, i);
    forall k: nat, key: string ensures ParseArray(lines, k, key).Err? ==> LineIsWrong(lines, ParseArray(lines, k, key).error) {
      ArrayWrong(lines, k, key);
    }
    forall k: nat, key: string
      ensures ParseDigests(lines, k, key).Err? ==> LineIsWrong(lines, ParseDigests(lines, k, key).error)
    {
      DigestArrayWrong(lines, k, key);
    }
    forall es: seq<string> ensures ToUnits(es).Err? ==> LineIsWrong(lines, ToUnits(es).error) { UnitsWrong(lines, es); }
  }

  lemma {:induction false} CusWrong(lines: seq<string>, i: nat)
    ensures var r := ParseCus(lines, i); r.Err? ==> LineIsWrong(lines, r.error)
    decreases |lines| - i
  {
    hide ParseCu, NextContent, Skipped, TrimEnd;
    NextSays(lines, i);
    NextForward(lines, i);
    var p := NextContent(lines, i);
    if p.Some? && p.value.1 == "[[cu]]" {
      CuWrong(lines, p.value.0);
      var cu := ParseCu(lines, p.value.0);
      if cu.Ok? {
        CuAdvances(lines, p.value.0);
        CusWrong(lines, cu.value.1);
      }
    }
  }

  /** A refusal points at a line, or an entry, that is indeed not what it says was expected. */
  lemma {:induction false} ErrorsAreReal(text: string)
    ensures Parsed(text).Err? ==> LineIsWrong(SplitLines(text), Parsed(text).error)
  {
    hide ParseCus, NextContent, Skipped, ParseKeyLine, TrimEnd, SplitLines;
    var lines := SplitLines(text);
    NextSays(lines, 0);
    var v := NextContent(lines, 0);
    if v.Some? && v.value.1 == VERSION {
      NextSays(lines, v.value.0);
      var n := NextContent(lines, v.value.0);
      if n.Some? { CusWrong(lines, n.value.0); }
    }
  }
}
