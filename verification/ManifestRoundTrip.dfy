/** Reading a manifest is the inverse of writing it, on exactly the libraries whose strings hold no newline
    and whose unit kinds hold no space. */
module ManifestRoundTrip {
  import opened Wrappers
  import opened Strings
  import opened Escapes
  import opened Manifest
  import opened ManifestParse

  // ---- the libraries the line form can hold ----

  predicate CleanUnit(u: (string, string)) { OneLine(u.0) && ' ' !in u.0 && OneLine(u.1) }

  predicate CleanUnits(us: seq<(string, string)>) { forall k :: 0 <= k < |us| ==> CleanUnit(us[k]) }

  predicate CleanStrings(xs: seq<string>) { forall k :: 0 <= k < |xs| ==> OneLine(xs[k]) }

  predicate CleanEntries(es: seq<(string, Digest)>) { forall k :: 0 <= k < |es| ==> OneLine(es[k].0) }

  predicate CleanCu(cu: Cu) {
    OneLine(cu.blob) && CleanStrings(cu.defines) && CleanStrings(cu.incdirs)
    && CleanEntries(cu.sources) && CleanEntries(cu.includes) && CleanUnits(cu.units)
  }

  predicate CleanCus(cus: seq<Cu>) { forall k :: 0 <= k < |cus| ==> CleanCu(cus[k]) }

  predicate Clean(m: Library) { OneLine(m.name) && CleanCus(m.cus) }

  // ---- reading what was written ----

  predicate At(lines: seq<string>, i: nat, block: seq<string>) {
    i + |block| <= |lines| && lines[i..i + |block|] == block
  }

  lemma {:induction false} AtBoth(lines: seq<string>, i: nat, x: seq<string>, y: seq<string>)
    requires At(lines, i, x + y)
    ensures At(lines, i, x) && At(lines, i + |x|, y)
  {
    var all := lines[i..i + |x + y|];
    assert all[..|x|] == x && all[|x|..] == y;
  }

  lemma {:induction false} LineAt(lines: seq<string>, i: nat, l: string, rest: seq<string>)
    requires At(lines, i, [l] + rest)
    ensures i < |lines| && lines[i] == l && At(lines, i + 1, rest)
  {
    AtBoth(lines, i, [l], rest);
    assert lines[i] == lines[i..i + 1][0];
  }

  /** A line that begins with text other than a comment mark and ends with text. */
  predicate Solid(l: string) { l != "" && l[0] != '#' && !IsSpace(l[|l| - 1]) }

  lemma {:induction false} SolidLine(l: string)
    requires Solid(l)
    ensures TrimEnd(l) == l && !Skipped(l)
  {
  }

  lemma {:induction false} NextSolid(lines: seq<string>, i: nat)
    requires i < |lines| && Solid(lines[i])
    ensures NextContent(lines, i) == Some((i + 1, lines[i]))
  {
    SolidLine(lines[i]);
  }

  lemma {:induction false} KeyLineRead(key: string, value: string)
    requires key != "" && key[0] != '#'
    ensures Solid(KeyLine(key, value)) && ParseKeyLine(KeyLine(key, value), key) == Some(value)
  {
    hide Esc, Unesc;
    var mid, e := " = \"", Esc(value);
    var l := KeyLine(key, value);
    assert l == key + (mid + e + "\"") && l[0] == key[0] && l[|l| - 1] == '"';
    assert l[|key|..] == mid + e + "\"";
    Around(mid, e, "\"");
    UnescEsc(value);
  }

  lemma {:induction false} ElementRead(text: string)
    ensures Solid(ElementLine(text)) && ElementLine(text) != "]" && ParseElement(ElementLine(text)) == Some(Unesc(text))
  {
    hide Unesc;
    var l := ElementLine(text);
    var t := "\"" + text + "\",";
    assert l == [' ', ' '] + t && l[0] == ' ' && l[|l| - 1] == ',';
    assert l[1..] == [' '] + t && l[1..][1..] == t;
    assert TrimStart(t) == t;
    assert TrimStart(l[1..]) == t;
    Around("\"", text, "\",");
  }

  function UnescAll(texts: seq<string>): (r: seq<string>)
    ensures |r| == |texts|
  {
    seq(|texts|, k requires 0 <= k < |texts| => Unesc(texts[k]))
  }

  lemma {:induction false} ElementsRead(lines: seq<string>, i: nat, key: string, texts: seq<string>)
    requires At(lines, i, ElementLines(texts) + ["]"])
    ensures ParseElements(lines, i, key) == Ok((UnescAll(texts), i + |ElementLines(texts)| + 1))
    decreases |texts|
  {
    hide NextContent, ParseElement, ElementLine, Unesc;
    if texts == [] {
      assert ElementLines(texts) + ["]"] == ["]"];
      assert lines[i] == lines[i..i + 1][0] == "]";
      NextSolid(lines, i);
      assert UnescAll(texts) == [];
    } else {
      var e, rest := ElementLine(texts[0]), ElementLines(texts[1..]);
      assert ElementLines(texts) + ["]"] == [e] + (rest + ["]"]);
      AtBoth(lines, i, [e], rest + ["]"]);
      assert lines[i] == lines[i..i + 1][0] == e;
      ElementRead(texts[0]);
      NextSolid(lines, i);
      ElementsRead(lines, i + 1, key, texts[1..]);
      assert [Unesc(texts[0])] + UnescAll(texts[1..]) == UnescAll(texts);
    }
  }

  lemma {:induction false} ArrayRead(lines: seq<string>, i: nat, key: string, texts: seq<string>)
    requires key != "" && key[0] != '#' && At(lines, i, ArrayLines(key, texts))
    ensures ParseArray(lines, i, key) == Ok((UnescAll(texts), i + |ArrayLines(key, texts)|))
  {
    if texts == [] { NoneRead(lines, i, key); } else { SomeRead(lines, i, key, texts); }
  }

  lemma NoneRead(lines: seq<string>, i: nat, key: string)
    requires key != "" && key[0] != '#' && At(lines, i, ArrayLines(key, []))
    ensures ParseArray(lines, i, key) == Ok((UnescAll([]), i + |ArrayLines(key, [])|))
  {
    hide NextContent, ParseElements, ElementLines, Solid, At;
    OpeningLines(key);
    var none := key + " = []";
    assert ArrayLines(key, []) == [none] + [];
    LineAt(lines, i, none, []);
    NextSolid(lines, i);
  }

  lemma {:induction false} SomeRead(lines: seq<string>, i: nat, key: string, texts: seq<string>)
    requires key != "" && key[0] != '#' && texts != [] && At(lines, i, ArrayLines(key, texts))
    ensures ParseArray(lines, i, key) == Ok((UnescAll(texts), i + |ArrayLines(key, texts)|))
  {
    hide NextContent, ParseArray, ParseElements, ElementLines, ArrayLines, UnescAll, Solid, At;
    var some, rest := key + " = [", ElementLines(texts) + ["]"];
    OpeningLines(key);
    SomeLines(key, texts);
    LineAt(lines, i, some, rest);
    NextSolid(lines, i);
    OpensArray(lines, i, key);
    ElementsRead(lines, i + 1, key, texts);
  }

  lemma SomeLines(key: string, texts: seq<string>)
    requires texts != []
    ensures ArrayLines(key, texts) == [key + " = ["] + (ElementLines(texts) + ["]"])
  {
    hide ElementLines;
  }

  lemma OpensArray(lines: seq<string>, i: nat, key: string)
    requires key + " = []" != key + " = [" && NextContent(lines, i) == Some((i + 1, key + " = ["))
    ensures ParseArray(lines, i, key) == ParseElements(lines, i + 1, key)
  {
    hide NextContent, ParseElements;
  }

  lemma {:induction false} OpeningLines(key: string)
    requires key != "" && key[0] != '#'
    ensures Solid(key + " = []") && Solid(key + " = [") && key + " = []" != key + " = ["
  {
    var none, some := key + " = []", key + " = [";
    assert |none| == |some| + 1;
    assert none[0] == key[0] == some[0] && none[|none| - 1] == ']' && some[|some| - 1] == '[';
  }

  // ---- the entries ----

  lemma {:induction false} StringsBack(xs: seq<string>)
    ensures UnescAll(EscAll(xs)) == xs
  {
    hide Esc, Unesc;
    forall k | 0 <= k < |xs| ensures UnescAll(EscAll(xs))[k] == xs[k] { UnescEsc(xs[k]); }
  }

  lemma {:induction false} DigestText(e: (string, Digest))
    ensures Unesc(Hex(e.1) + "  " + Esc(e.0)) == Hex(e.1) + "  " + e.0
    ensures ToDigest(Hex(e.1) + "  " + e.0) == Ok(e)
  {
    hide Esc, Unesc, Hex, Unhex32, SplitOnce;
    HexDigits(e.1);
    var front := Hex(e.1) + "  ";
    EscPlain(front);
    EscAppend(front, e.0);
    assert front + Esc(e.0) == Hex(e.1) + "  " + Esc(e.0);
    UnescEsc(front + e.0);
    SplitAt(Hex(e.1), e.0, "  ");
    UnhexHex(e.1);
  }

  lemma {:induction false} DigestsBack(es: seq<(string, Digest)>)
    ensures ToDigests(UnescAll(DigestTexts(es))) == Ok(es)
    decreases |es|
  {
    hide Esc, Unesc, Hex, ToDigest;
    if es == [] {
      assert UnescAll(DigestTexts(es)) == [];
    } else {
      DigestText(es[0]);
      DigestsBack(es[1..]);
      var raw := UnescAll(DigestTexts(es));
      assert raw[1..] == UnescAll(DigestTexts(es[1..]));
      assert [es[0]] + es[1..] == es;
    }
  }

  lemma {:induction false} UnitText(u: (string, string))
    requires ' ' !in u.0
    ensures SplitOnce(Unesc(Esc(u.0) + " " + Esc(u.1)), " ") == Some(u)
  {
    hide Esc, Unesc, SplitOnce;
    EscPlain(" ");
    EscAppend(u.0, " ");
    EscAppend(u.0 + " ", u.1);
    UnescEsc(u.0 + " " + u.1);
    SplitAt(u.0, u.1, " ");
  }

  lemma {:induction false} UnitsBack(us: seq<(string, string)>)
    requires CleanUnits(us)
    ensures ToUnits(UnescAll(UnitTexts(us))) == Ok(us)
    decreases |us|
  {
    hide Esc, Unesc, SplitOnce;
    if us == [] {
      assert UnescAll(UnitTexts(us)) == [];
    } else {
      UnitText(us[0]);
      UnitsBack(us[1..]);
      var raw := UnescAll(UnitTexts(us));
      assert raw[1..] == UnescAll(UnitTexts(us[1..]));
      assert [us[0]] + us[1..] == us;
    }
  }

  // ---- a compilation unit, then the library ----

  lemma {:induction false} CuRead(lines: seq<string>, i: nat, cu: Cu)
    requires At(lines, i, CuLines(cu)) && CleanUnits(cu.units)
    ensures NextContent(lines, i) == Some((i + 2, "[[cu]]"))
    ensures ParseCu(lines, i + 2) == Ok((cu, i + |CuLines(cu)|))
  {
    hide NextContent, ParseArray, ToDigests, ToUnits, ArrayLines, Esc, Hex, EscAll, DigestTexts, UnitTexts, UnescAll,
         ParseKeyLine, KeyLine, Solid;
    var a, b, c := ArrayLines("defines", EscAll(cu.defines)), ArrayLines("incdirs", EscAll(cu.incdirs)),
                   ArrayLines("sources", DigestTexts(cu.sources));
    var d, e := ArrayLines("includes", DigestTexts(cu.includes)), ArrayLines("units", UnitTexts(cu.units));
    var h := CuHead(cu);
    AtBoth(lines, i, h + a + b + c + d, e);
    AtBoth(lines, i, h + a + b + c, d);
    AtBoth(lines, i, h + a + b, c);
    AtBoth(lines, i, h + a, b);
    AtBoth(lines, i, h, a);
    HeadRead(lines, i, cu);
    ArrayRead(lines, i + 3, "defines", EscAll(cu.defines));
    ArrayRead(lines, i + 3 + |a|, "incdirs", EscAll(cu.incdirs));
    ArrayRead(lines, i + 3 + |a + b|, "sources", DigestTexts(cu.sources));
    ArrayRead(lines, i + 3 + |a + b + c|, "includes", DigestTexts(cu.includes));
    ArrayRead(lines, i + 3 + |a + b + c + d|, "units", UnitTexts(cu.units));
    StringsBack(cu.defines);
    StringsBack(cu.incdirs);
    DigestsBack(cu.sources);
    DigestsBack(cu.includes);
    UnitsBack(cu.units);
  }

  lemma {:induction false} HeadRead(lines: seq<string>, i: nat, cu: Cu)
    requires At(lines, i, CuHead(cu))
    ensures NextContent(lines, i) == Some((i + 2, "[[cu]]"))
    ensures NextContent(lines, i + 2) == Some((i + 3, KeyLine("blob", cu.blob)))
    ensures ParseKeyLine(KeyLine("blob", cu.blob), "blob") == Some(cu.blob)
  {
    hide KeyLine, ParseKeyLine;
    var block := lines[i..i + 3];
    assert lines[i] == block[0] && lines[i + 1] == block[1] && lines[i + 2] == block[2];
    KeyLineRead("blob", cu.blob);
    NextSolid(lines, i + 2);
    NextSolid(lines, i + 1);
    BlankSkipped(lines, i);
  }

  lemma BlankSkipped(lines: seq<string>, i: nat)
    requires i < |lines| && (lines[i] == "" || lines[i][0] == '#')
    ensures NextContent(lines, i) == NextContent(lines, i + 1)
  {
    HashSkipped(lines[i]);
  }

  lemma HashSkipped(l: string)
    requires l == "" || l[0] == '#'
    ensures Skipped(l)
  {
    if TrimEnd(l) != "" { assert TrimEnd(l)[..1] == [l[0]]; }
  }

  lemma {:induction false} CusPrepend(c: Cu, rest: seq<Cu>)
    ensures CusLines([c] + rest) == CuLines(c) + CusLines(rest)
  {
    hide CuLines;
    if rest == [] {
      assert [c] + rest == [c] && [c][..0] == [];
    } else {
      var front, last := rest[..|rest| - 1], rest[|rest| - 1];
      CusPrepend(c, front);
      assert ([c] + rest)[..|rest|] == [c] + front;
    }
  }

  lemma {:induction false} CusRead(lines: seq<string>, i: nat, cus: seq<Cu>)
    requires i <= |lines| && lines[i..] == CusLines(cus) && CleanCus(cus)
    ensures ParseCus(lines, i) == Ok(cus)
    decreases |cus|
  {
    hide NextContent, ParseCu, CuLines, CusLines, CleanCu, At;
    if cus == [] {
      NoCus();
      NothingLeft(lines, i);
    } else {
      var block := CuLines(cus[0]);
      CusSplit(lines, i, cus);
      CleanCuUnits(cus[0]);
      CuRead(lines, i, cus[0]);
      CuAdvances(lines, i + 2);
      CusRead(lines, i + |block|, cus[1..]);
      assert cus == [cus[0]] + cus[1..];
    }
  }

  lemma {:induction false} CusSplit(lines: seq<string>, i: nat, cus: seq<Cu>)
    requires i <= |lines| && lines[i..] == CusLines(cus) && cus != []
    ensures At(lines, i, CuLines(cus[0])) && lines[i + |CuLines(cus[0])|..] == CusLines(cus[1..])
  {
    hide CuLines, CusLines;
    var block := CuLines(cus[0]);
    assert cus == [cus[0]] + cus[1..];
    CusPrepend(cus[0], cus[1..]);
    assert lines[i..][..|block|] == block;
    assert lines[i..][|block|..] == CusLines(cus[1..]);
  }

  lemma CleanCuUnits(cu: Cu)
    requires CleanCu(cu)
    ensures CleanUnits(cu.units)
  {
  }

  lemma NoCus()
    ensures CusLines([]) == []
  {
  }

  lemma NothingLeft(lines: seq<string>, i: nat)
    requires i <= |lines| && lines[i..] == []
    ensures NextContent(lines, i).None?
  {
  }

  lemma {:induction false} LibraryRead(m: Library)
    requires CleanCus(m.cus)
    ensures ParseLines(Head(m.name) + CusLines(m.cus)) == Ok(m)
  {
    hide NextContent, ParseKeyLine, KeyLine, CusLines, ParseCus, CleanCu;
    var lines := Head(m.name) + CusLines(m.cus);
    assert lines[0] == BANNER && lines[1] == VERSION && lines[2] == KeyLine("name", m.name);
    BannerIsComment();
    BlankSkipped(lines, 0);
    VersionSolid();
    NextSolid(lines, 1);
    KeyLineRead("name", m.name);
    NextSolid(lines, 2);
    assert lines[3..] == CusLines(m.cus);
    CusRead(lines, 3, m.cus);
  }

  lemma VersionSolid()
    ensures Solid(VERSION)
  {
  }

  // ---- every written line is one line ----

  predicate AllOneLine(lines: seq<string>) { forall k :: 0 <= k < |lines| ==> OneLine(lines[k]) }

  lemma {:induction false} ElementsOneLine(texts: seq<string>)
    requires AllOneLine(texts)
    ensures AllOneLine(ElementLines(texts))
    decreases |texts|
  {
    if texts != [] {
      ElementsOneLine(texts[1..]);
      assert OneLine(ElementLine(texts[0]));
    }
  }

  lemma {:induction false} ArrayOneLine(key: string, texts: seq<string>)
    requires OneLine(key) && AllOneLine(texts)
    ensures AllOneLine(ArrayLines(key, texts))
  {
    hide ElementLines;
    ElementsOneLine(texts);
  }

  lemma {:induction false} TextsOneLine(cu: Cu)
    requires CleanCu(cu)
    ensures AllOneLine(EscAll(cu.defines)) && AllOneLine(EscAll(cu.incdirs))
    ensures AllOneLine(DigestTexts(cu.sources)) && AllOneLine(DigestTexts(cu.includes))
    ensures AllOneLine(UnitTexts(cu.units)) && OneLine(Esc(cu.blob))
  {
    hide Esc, Hex;
    forall s: string ensures OneLine(Esc(s)) == OneLine(s) { EscOneLine(s); }
    forall d: Digest ensures OneLine(Hex(d)) { HexDigits(d); }
    assert forall k :: 0 <= k < |cu.units| ==> CleanUnit(cu.units[k]);
  }

  lemma {:induction false} CuOneLine(cu: Cu)
    requires CleanCu(cu)
    ensures AllOneLine(CuLines(cu))
  {
    hide ArrayLines, EscAll, DigestTexts, UnitTexts, Esc, CleanCu;
    TextsOneLine(cu);
    ArrayOneLine("defines", EscAll(cu.defines));
    ArrayOneLine("incdirs", EscAll(cu.incdirs));
    ArrayOneLine("sources", DigestTexts(cu.sources));
    ArrayOneLine("includes", DigestTexts(cu.includes));
    ArrayOneLine("units", UnitTexts(cu.units));
    assert AllOneLine(CuHead(cu));
  }

  lemma {:induction false} CusOneLine(cus: seq<Cu>)
    requires CleanCus(cus)
    ensures AllOneLine(CusLines(cus))
  {
    hide CuLines, CleanCu;
    if cus != [] {
      CusOneLine(cus[..|cus| - 1]);
      CuOneLine(cus[|cus| - 1]);
    }
  }

  lemma BannerIsComment()
    ensures BANNER != "" && BANNER[0] == '#' && OneLine(BANNER)
  {
    assert OneLine("# vitamin ") && OneLine("work library ") && OneLine("manifest ");
    assert OneLine("(canonical v1; ") && OneLine("machine-written ") && OneLine("by `vcmp --work`)");
    assert "# vitamin "[0] == '#';
  }

  lemma {:induction false} HeadOneLine(name: string)
    requires OneLine(name)
    ensures AllOneLine(Head(name))
  {
    hide Esc;
    BannerIsComment();
    EscOneLine(name);
    assert OneLine(KeyLine("name", name)) && OneLine(VERSION);
  }

  lemma {:induction false} CleanRoundTrip(m: Library)
    requires Clean(m)
    ensures Parsed(Text(m)) == Ok(m)
  {
    hide CusLines, ParseLines, SplitLines, JoinLines, CleanCus, Esc;
    HeadOneLine(m.name);
    CusOneLine(m.cus);
    var lines := Head(m.name) + CusLines(m.cus);
    assert AllOneLine(lines);
    SplitJoin(lines);
    LibraryRead(m);
  }

  // ---- nothing else can be read ----

  lemma {:induction false} NextOneLine(lines: seq<string>, i: nat)
    requires AllOneLine(lines) && NextContent(lines, i).Some?
    ensures OneLine(NextContent(lines, i).value.1)
  {
  }

  lemma {:induction false} KeyLineClean(line: string, key: string)
    requires OneLine(line) && ParseKeyLine(line, key).Some?
    ensures OneLine(ParseKeyLine(line, key).value)
  {
    hide Unesc;
    var inner := StripPrefix(StripPrefix(line, key).value, " = \"").value;
    UnescOneLine(StripSuffix(inner, "\"").value);
  }

  lemma {:induction false} TrimStartOneLine(s: string)
    requires OneLine(s)
    ensures OneLine(TrimStart(s))
  {
    if s != "" && IsSpace(s[0]) { TrimStartOneLine(s[1..]); }
  }

  lemma {:induction false} ElementClean(line: string)
    requires OneLine(line) && ParseElement(line).Some?
    ensures OneLine(ParseElement(line).value)
  {
    hide Unesc, TrimStart;
    TrimStartOneLine(line);
    UnescOneLine(StripSuffix(StripPrefix(TrimStart(line), "\"").value, "\",").value);
  }

  lemma {:induction false} ElementsClean(lines: seq<string>, i: nat, key: string)
    requires AllOneLine(lines) && ParseElements(lines, i, key).Ok?
    ensures CleanStrings(ParseElements(lines, i, key).value.0)
    decreases |lines| - i
  {
    hide NextContent, ParseElement, OneLine;
    NextOneLine(lines, i);
    var p := NextContent(lines, i).value;
    if p.1 != "]" {
      ElementClean(p.1);
      ElementsClean(lines, p.0, key);
    }
  }

  lemma {:induction false} ArrayClean(lines: seq<string>, i: nat, key: string)
    requires AllOneLine(lines) && ParseArray(lines, i, key).Ok?
    ensures CleanStrings(ParseArray(lines, i, key).value.0)
  {
    hide NextContent, ParseElements, OneLine;
    var p := NextContent(lines, i).value;
    if p.1 != key + " = []" { ElementsClean(lines, p.0, key); }
  }

  lemma {:induction false} DigestsClean(entries: seq<string>)
    requires CleanStrings(entries) && ToDigests(entries).Ok?
    ensures CleanEntries(ToDigests(entries).value)
    decreases |entries|
  {
    hide Unhex32, SplitOnce;
    if entries != [] {
      SplitParts(entries[0], "  ");
      DigestsClean(entries[1..]);
    }
  }

  lemma {:induction false} UnitsClean(entries: seq<string>)
    requires CleanStrings(entries) && ToUnits(entries).Ok?
    ensures CleanUnits(ToUnits(entries).value)
    decreases |entries|
  {
    hide SplitOnce;
    if entries != [] {
      SplitParts(entries[0], " ");
      assert CleanUnit(SplitOnce(entries[0], " ").value);
      UnitsClean(entries[1..]);
    }
  }

  lemma {:induction false} CuClean(lines: seq<string>, i: nat)
    requires AllOneLine(lines) && ParseCu(lines, i).Ok?
    ensures CleanCu(ParseCu(lines, i).value.0)
  {
    hide NextContent, ParseKeyLine, ParseArray, ToDigests, ToUnits, OneLine, CleanStrings, CleanEntries, CleanUnits;
    NextOneLine(lines, i);
    var p := NextContent(lines, i).value;
    KeyLineClean(p.1, "blob");
    ArrayClean(lines, p.0, "defines");
    var i1 := ParseArray(lines, p.0, "defines").value.1;
    ArrayClean(lines, i1, "incdirs");
    var i2 := ParseArray(lines, i1, "incdirs").value.1;
    ArrayClean(lines, i2, "sources");
    DigestsClean(ParseArray(lines, i2, "sources").value.0);
    var i3 := ParseArray(lines, i2, "sources").value.1;
    ArrayClean(lines, i3, "includes");
    DigestsClean(ParseArray(lines, i3, "includes").value.0);
    var i4 := ParseArray(lines, i3, "includes").value.1;
    ArrayClean(lines, i4, "units");
    UnitsClean(ParseArray(lines, i4, "units").value.0);
  }

  lemma {:induction false} CusClean(lines: seq<string>, i: nat)
    requires AllOneLine(lines) && ParseCus(lines, i).Ok?
    ensures CleanCus(ParseCus(lines, i).value)
    decreases |lines| - i
  {
    hide NextContent, ParseCu, CleanCu, OneLine;
    var p := NextContent(lines, i);
    if p.Some? {
      CuClean(lines, p.value.0);
      CuAdvances(lines, p.value.0);
      CusClean(lines, ParseCu(lines, p.value.0).value.1);
    }
  }

  /** Whatever text is read, the library read from it fits the line form. */
  lemma {:induction false} ParsedIsClean(text: string)
    requires Parsed(text).Ok?
    ensures Clean(Parsed(text).value)
  {
    hide NextContent, ParseKeyLine, ParseCus, SplitLines, OneLine, CleanCus;
    var lines := SplitLines(text);
    SplitLinesClean(text);
    var v := NextContent(lines, 0).value;
    NextOneLine(lines, v.0);
    var n := NextContent(lines, v.0).value;
    KeyLineClean(n.1, "name");
    CusClean(lines, n.0);
  }

  /** Reading takes writing back exactly on the clean libraries. */
  lemma RoundTrip(m: Library)
    ensures Parsed(Text(m)) == Ok(m) <==> Clean(m)
  {
    hide Parsed, Text, Clean;
    if Clean(m) { CleanRoundTrip(m); }
    if Parsed(Text(m)) == Ok(m) { ParsedIsClean(Text(m)); }
  }

  /** So a text stands for one clean library: its digest keys it. */
  lemma EmitInjective(m: Library, n: Library)
    requires Clean(m) && Clean(n) && Text(m) == Text(n)
    ensures m == n
  {
    hide Parsed, Text, Clean;
    RoundTrip(m);
    RoundTrip(n);
  }

  /** The reader takes more than the canonical text: without its comment line the text still reads. */
  lemma {:induction false} NotOnlyCanonical(name: string)
    requires OneLine(name)
    ensures var text := JoinLines([VERSION, KeyLine("name", name)]);
      Parsed(text) == Ok(Library(name, [])) && text != Text(Library(name, []))
  {
    hide NextContent, ParseKeyLine, KeyLine, SplitLines, JoinLines, Esc;
    var lines := [VERSION, KeyLine("name", name)];
    HeadOneLine(name);
    assert Head(name)[1] == lines[0] && Head(name)[2] == lines[1];
    SplitJoin(lines);
    VersionSolid();
    NextSolid(lines, 0);
    KeyLineRead("name", name);
    NextSolid(lines, 1);
    NothingLeft(lines, 2);
    var all := Head(name) + CusLines([]);
    assert all == Head(name);
    SplitJoin(all);
    assert SplitLines(JoinLines(all)) != SplitLines(JoinLines(lines));
  }
}
