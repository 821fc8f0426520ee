/** The work library's manifest: its canonical text and the line reader that takes it back. */
module Manifest {
  import opened Strings
  import opened Escapes

  /** A compilation unit: its blob, the preprocessing inputs, and the design units it defines. */
  datatype Cu = Cu(
    blob: string,
    defines: seq<string>,
    incdirs: seq<string>,
    sources: seq<(string, Digest)>,
    includes: seq<(string, Digest)>,
    units: seq<(string, string)>)

  datatype Library = Library(name: string, cus: seq<Cu>)

  datatype ParseError =
    | Empty
    | NotCanonical(line: nat)
    | MissingName
    | ExpectedName(line: nat)
    | ExpectedCu(line: nat)
    | TruncatedCu
    | ExpectedBlob(line: nat)
    | TruncatedBefore(key: string)
    | ExpectedArray(key: string, line: nat)
    | UnterminatedArray(key: string)
    | BadElement(line: nat)
    | BadDigest(entry: string)
    | BadUnit(entry: string)

  // ---- the canonical text ----

  const BANNER: string :=
    "# vitamin " + "work library " + "manifest " + "(canonical v1; " + "machine-written " + "by `vcmp --work`)"

  const VERSION: string := "format_version = 1"

  function KeyLine(key: string, value: string): string { key + " = \"" + Esc(value) + "\"" }

  function ElementLine(text: string): string { "  \"" + text + "\"," }

  function ElementLines(texts: seq<string>): seq<string> {
    if texts == [] then [] else [ElementLine(texts[0])] + ElementLines(texts[1..])
  }

  /** An array of escaped texts. */
  function ArrayLines(key: string, texts: seq<string>): seq<string> {
    if texts == [] then [key + " = []"] else [key + " = ["] + ElementLines(texts) + ["]"]
  }

  function EscAll(xs: seq<string>): (r: seq<string>)
    ensures |r| == |xs|
  {
    seq(|xs|, k requires 0 <= k < |xs| => Esc(xs[k]))
  }

  function DigestTexts(es: seq<(string, Digest)>): (r: seq<string>)
    ensures |r| == |es|
  {
    seq(|es|, k requires 0 <= k < |es| => Hex(es[k].1) + "  " + Esc(es[k].0))
  }

  function UnitTexts(us: seq<(string, string)>): (r: seq<string>)
    ensures |r| == |us|
  {
    seq(|us|, k requires 0 <= k < |us| => Esc(us[k].0) + " " + Esc(us[k].1))
  }

  function CuHead(cu: Cu): seq<string> { ["", "[[cu]]", KeyLine("blob", cu.blob)] }

  function CuLines(cu: Cu): seq<string> {
    CuHead(cu) + ArrayLines("defines", EscAll(cu.defines)) + ArrayLines("incdirs", EscAll(cu.incdirs))
    + ArrayLines("sources", DigestTexts(cu.sources)) + ArrayLines("includes", DigestTexts(cu.includes))
    + ArrayLines("units", UnitTexts(cu.units))
  }

  function CusLines(cus: seq<Cu>): seq<string> {
    if cus == [] then [] else CusLines(cus[..|cus| - 1]) + CuLines(cus[|cus| - 1])
  }

  function Head(name: string): seq<string> { [BANNER, VERSION, KeyLine("name", name)] }

  /** The canonical text of a library. */
  function Text(m: Library): string { JoinLines(Head(m.name) + CusLines(m.cus)) }

  method EmitElements(s: string, texts: seq<string>) returns (r: string)
    ensures r == s + JoinLines(ElementLines(texts))
  {
    r := s;
    var k := 0;
    while k < |texts|
      invariant 0 <= k <= |texts| && r + JoinLines(ElementLines(texts[k..])) == s + JoinLines(ElementLines(texts))
    {
      assert texts[k..][1..] == texts[k + 1..];
      ElementStep(texts, k);
      r := r + "  \"" + texts[k] + "\",\n";
      k := k + 1;
    }
    assert r + "" == r;
  }

  lemma {:induction false} ElementStep(texts: seq<string>, k: nat)
    requires k < |texts|
    ensures JoinLines(ElementLines(texts[k..]))
         == "  \"" + texts[k] + "\",\n" + JoinLines(ElementLines(texts[k + 1..]))
  {
    assert texts[k..][1..] == texts[k + 1..];
    var rest := ElementLines(texts[k + 1..]);
    assert ElementLines(texts[k..]) == [ElementLine(texts[k])] + rest;
    assert ([ElementLine(texts[k])] + rest)[1..] == rest;
    assert ElementLine(texts[k]) + "\n" == "  \"" + texts[k] + "\",\n";
  }

  method EmitStrArray(s: string, key: string, texts: seq<string>) returns (r: string)
    ensures r == s + JoinLines(ArrayLines(key, texts))
  {
    hide ElementLines;
    OneJoined(key + " = []");
    OneJoined(key + " = [");
    OneJoined("]");
    if texts == [] {
      r := s + key + " = []\n";
      assert r == s + (key + " = []" + "\n");
    } else {
      r := s + key + " = [\n";
      assert r == s + (key + " = [" + "\n");
      r := EmitElements(r, texts);
      r := r + "]\n";
      JoinAppend([key + " = ["], ElementLines(texts));
      JoinAppend([key + " = ["] + ElementLines(texts), ["]"]);
    }
  }

  lemma OneJoined(l: string)
    ensures JoinLines([l]) == l + "\n"
  {
    assert JoinLines([]) == "";
  }

  method EmitCu(s: string, cu: Cu) returns (r: string)
    ensures r == s + JoinLines(CuLines(cu))
  {
    hide ArrayLines, JoinLines, Esc;
    HeadJoined(cu);
    r := s + "\n[[cu]]\n" + "blob = \"" + Esc(cu.blob) + "\"\n";
    ghost var done := CuHead(cu);
    assert r == s + JoinLines(done);
    r := EmitStrArray(r, "defines", EscAll(cu.defines));
    JoinAppend(done, ArrayLines("defines", EscAll(cu.defines)));
    done := done + ArrayLines("defines", EscAll(cu.defines));
    r := EmitStrArray(r, "incdirs", EscAll(cu.incdirs));
    JoinAppend(done, ArrayLines("incdirs", EscAll(cu.incdirs)));
    done := done + ArrayLines("incdirs", EscAll(cu.incdirs));
    r := EmitStrArray(r, "sources", DigestTexts(cu.sources));
    JoinAppend(done, ArrayLines("sources", DigestTexts(cu.sources)));
    done := done + ArrayLines("sources", DigestTexts(cu.sources));
    r := EmitStrArray(r, "includes", DigestTexts(cu.includes));
    JoinAppend(done, ArrayLines("includes", DigestTexts(cu.includes)));
    done := done + ArrayLines("includes", DigestTexts(cu.includes));
    r := EmitStrArray(r, "units", UnitTexts(cu.units));
    JoinAppend(done, ArrayLines("units", UnitTexts(cu.units)));
  }

  lemma HeadJoined(cu: Cu)
    ensures JoinLines(CuHead(cu)) == "\n[[cu]]\n" + "blob = \"" + Esc(cu.blob) + "\"\n"
  {
    hide Esc;
    var k := KeyLine("blob", cu.blob);
    OneJoined("");
    OneJoined("[[cu]]");
    OneJoined(k);
    JoinAppend([""], ["[[cu]]"]);
    JoinAppend([""] + ["[[cu]]"], [k]);
    assert CuHead(cu) == [""] + ["[[cu]]"] + [k];
    assert k == "blob = \"" + Esc(cu.blob) + "\"";
  }

  method Emit(m: Library) returns (s: string)
    ensures s == Text(m)
  {
    hide JoinLines, CuLines, KeyLine;
    s := BANNER + "\n" + VERSION + "\n" + KeyLine("name", m.name) + "\n";
    OneJoined(BANNER);
    OneJoined(VERSION);
    OneJoined(KeyLine("name", m.name));
    JoinAppend([BANNER], [VERSION]);
    JoinAppend([BANNER] + [VERSION], [KeyLine("name", m.name)]);
    assert Head(m.name) == [BANNER] + [VERSION] + [KeyLine("name", m.name)];
    assert Head(m.name) + [] == Head(m.name);
    var k := 0;
    while k < |m.cus|
      invariant 0 <= k <= |m.cus| && s == JoinLines(Head(m.name) + CusLines(m.cus[..k]))
    {
      assert m.cus[..k + 1][..k] == m.cus[..k];
      ghost var done, next := Head(m.name) + CusLines(m.cus[..k]), CuLines(m.cus[k]);
      JoinAppend(done, next);
      assert Head(m.name) + CusLines(m.cus[..k + 1]) == done + next;
      s := EmitCu(s, m.cus[k]);
      k := k + 1;
    }
    assert m.cus[..|m.cus|] == m.cus;
  }
}
