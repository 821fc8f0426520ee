/** The work library told from outside: where a unit is recorded, what a call decides, and how a library is spelled. */
module WorkAccount {
  import opened Wrappers
  import opened Escapes
  import opened Manifest
  import opened ManifestParse
  import opened WorkLib

  // ---- where a unit goes ----

  /** The two units record a source under one path. */
  predicate Shares(c: Cu, cu: Cu) { exists e, f :: e in c.sources && f in cu.sources && e.0 == f.0 }

  /** The units that share no source with the new one, in order. */
  function Unshared(cus: seq<Cu>, cu: Cu): seq<Cu> {
    if cus == [] then [] else (if Shares(cus[0], cu) then [] else [cus[0]]) + Unshared(cus[1..], cu)
  }

  lemma SharesIs(c: Cu, cu: Cu)
    ensures Superseded(c, cu) <==> Shares(c, cu)
  {
    if Shares(c, cu) {
      var e, f :| e in c.sources && f in cu.sources && e.0 == f.0;
      assert e.0 in Paths(cu);
    }
  }

  lemma {:induction false} UnsharedAppend(x: seq<Cu>, y: seq<Cu>, cu: Cu)
    ensures Unshared(x + y, cu) == Unshared(x, cu) + Unshared(y, cu)
  {
    hide Shares;
    if x == [] {
      assert x + y == y;
    } else {
      assert (x + y)[1..] == x[1..] + y;
      UnsharedAppend(x[1..], y, cu);
    }
  }

  lemma OneUnshared(c: Cu, cu: Cu)
    ensures Unshared([c], cu) == if Shares(c, cu) then [] else [c]
  {
    hide Shares;
    assert [c][1..] == [];
    assert Unshared([], cu) == [];
  }

  lemma {:induction false} RetainedUnshared(cus: seq<Cu>, cu: Cu)
    ensures Retained(cus, cu) == Unshared(cus, cu)
  {
    hide Shares, Superseded;
    if cus != [] {
      var front, last := cus[..|cus| - 1], cus[|cus| - 1];
      assert cus == front + [last];
      RetainedUnshared(front, cu);
      SharesIs(last, cu);
      OneUnshared(last, cu);
      UnsharedAppend(front, [last], cu);
    }
  }

  lemma {:induction false} AllUnshared(cus: seq<Cu>, cu: Cu)
    requires forall k :: 0 <= k < |cus| ==> !Shares(cus[k], cu)
    ensures Unshared(cus, cu) == cus
  {
    hide Shares;
    if cus != [] {
      AllUnshared(cus[1..], cu);
      assert cus == [cus[0]] + cus[1..];
    }
  }

  lemma {:induction false} SlotAt(cus: seq<Cu>, cu: Cu, p: nat)
    requires p <= |cus| && (forall k :: 0 <= k < p ==> !Shares(cus[k], cu)) && (p < |cus| ==> Shares(cus[p], cu))
    ensures Slot(cus, cu) == if p < |cus| then Some(p) else None
  {
    hide Shares, Superseded, Retained;
    if cus != [] {
      var front, last := cus[..|cus| - 1], cus[|cus| - 1];
      SharesIs(last, cu);
      if p == |cus| {
        SlotAt(front, cu, p - 1);
      } else {
        SlotAt(front, cu, p);
        if p == |front| {
          RetainedUnshared(front, cu);
          AllUnshared(front, cu);
        }
      }
    }
  }

  /** The new unit takes the place of the first unit that shares a source with it, or the last place; of the others,
      those that share a source go and the rest keep their order. */
  lemma {:induction false} RecordedAt(cus: seq<Cu>, cu: Cu, p: nat)
    requires p <= |cus| && (forall k :: 0 <= k < p ==> !Shares(cus[k], cu)) && (p < |cus| ==> Shares(cus[p], cu))
    ensures NewCus(cus, cu) == cus[..p] + [cu] + Unshared(cus[p..], cu)
  {
    hide Shares, Superseded, Retained, Slot;
    SlotAt(cus, cu, p);
    RetainedUnshared(cus, cu);
    assert cus == cus[..p] + cus[p..];
    UnsharedAppend(cus[..p], cus[p..], cu);
    AllUnshared(cus[..p], cu);
    var kept := Retained(cus, cu);
    if p < |cus| {
      assert kept[..p] == cus[..p] && kept[p..] == Unshared(cus[p..], cu);
    } else {
      assert cus[p..] == [] && kept == cus[..p] && kept[..|kept|] == kept && kept[|kept|..] == [];
    }
  }

  // ---- what is decided ----

  /** Unit `j` of entry `i` has a name the new unit defines. */
  predicate DefinedAgain(cus: seq<Cu>, cu: Cu, i: int, j: int) {
    0 <= i < |cus| && 0 <= j < |cus[i].units| && exists u :: u in cu.units && u.1 == cus[i].units[j].1
  }

  predicate EarlierUnit(i: int, j: int, x: int, y: int) { i < x || (i == x && j <= y) }

  lemma NamedIs(cu: Cu, n: string)
    ensures n in UnitNames(cu) <==> exists u :: u in cu.units && u.1 == n
  {
  }

  lemma {:induction false} FirstDupInIs(units: seq<(string, string)>, names: set<string>)
    ensures match FirstDupIn(units, names)
      case None => forall j :: 0 <= j < |units| ==> units[j].1 !in names
      case Some(n) => exists j :: 0 <= j < |units| && units[j].1 == n && n in names && forall k :: 0 <= k < j ==> units[k].1 !in names
  {
    if units != [] && units[0].1 !in names {
      FirstDupInIs(units[1..], names);
      assert forall j :: 0 < j < |units| ==> units[j] == units[1..][j - 1];
      if FirstDupIn(units, names).Some? {
        var n := FirstDupIn(units, names).value;
        var j :| 0 <= j < |units[1..]| && units[1..][j].1 == n && n in names && forall k :: 0 <= k < j ==> units[1..][k].1 !in names;
        assert units[j + 1].1 == n && forall k :: 0 <= k < j + 1 ==> units[k].1 !in names;
      }
    }
  }

  ghost predicate FirstAgain(cus: seq<Cu>, cu: Cu, n: string) {
    exists i, j :: DefinedAgain(cus, cu, i, j) && cus[i].units[j].1 == n
      && forall x, y :: DefinedAgain(cus, cu, x, y) ==> EarlierUnit(i, j, x, y)
  }

  lemma {:induction false} FirstDupIs(cus: seq<Cu>, cu: Cu)
    ensures match FirstDup(cus, UnitNames(cu))
      case None => forall i, j :: !DefinedAgain(cus, cu, i, j)
      case Some(n) => FirstAgain(cus, cu, n)
  {
    hide UnitNames;
    forall n ensures n in UnitNames(cu) <==> exists u :: u in cu.units && u.1 == n { NamedIs(cu, n); }
    if cus != [] {
      var names, rest := UnitNames(cu), cus[1..];
      FirstDupInIs(cus[0].units, names);
      FirstDupIs(rest, cu);
      forall i, j | i > 0 ensures DefinedAgain(cus, cu, i, j) <==> DefinedAgain(rest, cu, i - 1, j) {
        if i < |cus| { assert cus[i] == rest[i - 1]; }
      }
      if FirstDupIn(cus[0].units, names).Some? {
        var n := FirstDupIn(cus[0].units, names).value;
        var j :| 0 <= j < |cus[0].units| && cus[0].units[j].1 == n && n in names && forall k :: 0 <= k < j ==> cus[0].units[k].1 !in names;
        assert DefinedAgain(cus, cu, 0, j);
      } else if FirstDup(rest, names).Some? {
        var n := FirstDup(rest, names).value;
        var i, j :| DefinedAgain(rest, cu, i, j) && rest[i].units[j].1 == n
          && forall x, y :: DefinedAgain(rest, cu, x, y) ==> EarlierUnit(i, j, x, y);
        assert DefinedAgain(cus, cu, i + 1, j) && cus[i + 1].units[j].1 == n;
        forall x, y | DefinedAgain(cus, cu, x, y) ensures EarlierUnit(i + 1, j, x, y) {
          if x > 0 { assert DefinedAgain(rest, cu, x - 1, y); }
        }
      }
    }
  }

  predicate Broken(s: string) { exists k :: 0 <= k < |s| && (s[k] == '\n' || s[k] == '\r') }

  predicate AnyBroken(name: string, cu: Cu) {
    Broken(name) || (exists k :: 0 <= k < |cu.defines| && Broken(cu.defines[k]))
    || (exists k :: 0 <= k < |cu.incdirs| && Broken(cu.incdirs[k]))
    || (exists k :: 0 <= k < |cu.sources| && Broken(cu.sources[k].0))
    || (exists k :: 0 <= k < |cu.includes| && Broken(cu.includes[k].0))
  }

  lemma BrokenIs(s: string)
    ensures HasNewline(s) <==> Broken(s)
  {
  }

  lemma AnyBrokenIs(name: string, cu: Cu)
    ensures RecordsNewline(name, cu) <==> AnyBroken(name, cu)
  {
    hide HasNewline, Broken;
    forall s: string ensures HasNewline(s) <==> Broken(s) { BrokenIs(s); }
  }

  /** The units already recorded, if the manifest on disk can be read and is this library's. */
  predicate Holds(d: Disk, name: string, cus: seq<Cu>) {
    if d.manifest.None? then cus == []
    else Parsed(d.manifest.value) == Ok(Library(name, cus))
  }

  /** What becomes of a library that can be read: a recorded string that holds a line break is refused first, then the
      first unit, in manifest order, of an entry that stays, whose name the new one defines as well. Otherwise the new
      entry takes its place. */
  ghost predicate Decided(r: Result<Library, Refusal>, name: string, cus: seq<Cu>, cu: Cu) {
    if AnyBroken(name, cu) then r == Err(Newline)
    else if forall i, j :: !DefinedAgain(Unshared(cus, cu), cu, i, j) then r == Ok(Library(name, NewCus(cus, cu)))
    else exists n :: r == Err(Duplicate(n)) && FirstAgain(Unshared(cus, cu), cu, n)
  }

  /** A call refuses, before all else, a manifest it cannot read and one of another library. */
  lemma {:induction false} DecidesExactly(d: Disk, name: string, cu: Cu)
    ensures d.manifest.Some? && Parsed(d.manifest.value).Err? ==>
      Decide(d, name, cu) == Err(Unreadable(Parsed(d.manifest.value).error))
    ensures d.manifest.Some? && Parsed(d.manifest.value).Ok? && Parsed(d.manifest.value).value.name != name ==>
      Decide(d, name, cu) == Err(OtherLibrary(Parsed(d.manifest.value).value.name))
    ensures forall cus :: Holds(d, name, cus) ==> Decided(Decide(d, name, cu), name, cus, cu)
  {
    hide Parsed, Decided, FirstDup, UnitNames, NewCus, RecordsNewline, Retained;
    forall cus | Holds(d, name, cus) ensures Decided(Decide(d, name, cu), name, cus, cu) {
      assert Held(d, name) == Ok(Library(name, cus));
      DecidedIs(name, cus, cu);
    }
  }

  lemma {:induction false} DecidedIs(name: string, cus: seq<Cu>, cu: Cu)
    ensures var dup := FirstDup(Retained(cus, cu), UnitNames(cu));
      Decided(if RecordsNewline(name, cu) then Err(Newline)
              else if dup.Some? then Err(Duplicate(dup.value)) else Ok(Library(name, NewCus(cus, cu))), name, cus, cu)
  {
    hide DefinedAgain, FirstDup, UnitNames, NewCus, RecordsNewline, AnyBroken, Retained, Unshared;
    AnyBrokenIs(name, cu);
    RetainedUnshared(cus, cu);
    FirstDupIs(Retained(cus, cu), cu);
  }

  /** The blobs that count are those the units name. */
  lemma LiveIs(m: Library, b: string)
    ensures b in Live(m) <==> exists k :: 0 <= k < |m.cus| && m.cus[k].blob == b
  {
  }

  // ---- how a library is spelled ----

  /** The lines of a library, each array one line when it is empty. */
  lemma {:induction false} EmptyUnitLines(name: string, blob: string)
    requires '\\' !in name && '"' !in name && '\\' !in blob && '"' !in blob
    ensures Head(name) + CusLines([Cu(blob, [], [], [], [], [])]) ==
      ["# vitamin " + "work library " + "manifest " + "(canonical v1; " + "machine-written " + "by `vcmp --work`)",
       "format_version = 1",
       "name = \"" + name + "\"",
       "",
       "[[cu]]",
       "blob = \"" + blob + "\"",
       "defines = []",
       "incdirs = []",
       "sources = []",
       "includes = []",
       "units = []"]
  {
    hide Esc;
    EscPlain(name);
    EscPlain(blob);
    var cu := Cu(blob, [], [], [], [], []);
    OneCu(cu);
    NoTexts();
    assert "defines" + " = []" == "defines = []" && "incdirs" + " = []" == "incdirs = []";
    assert "sources" + " = []" == "sources = []" && "includes" + " = []" == "includes = []";
    assert "units" + " = []" == "units = []";
    assert KeyLine("name", name) == "name = \"" + name + "\"" by { KeyText("name", name); }
    assert KeyLine("blob", blob) == "blob = \"" + blob + "\"" by { KeyText("blob", blob); }
  }

  lemma KeyText(key: string, value: string)
    requires Esc(value) == value
    ensures KeyLine(key, value) == key + " = \"" + value + "\""
    ensures key == "name" ==> KeyLine(key, value) == "name = \"" + value + "\""
    ensures key == "blob" ==> KeyLine(key, value) == "blob = \"" + value + "\""
  {
  }

  lemma OneCu(cu: Cu)
    ensures CusLines([cu]) == CuLines(cu)
  {
    assert [cu][..0] == [];
    assert CusLines([]) == [];
    assert [] + CuLines(cu) == CuLines(cu);
  }

  lemma NoTexts()
    ensures EscAll([]) == [] && DigestTexts([]) == [] && UnitTexts([]) == []
  {
  }

  /** An array with one text. */
  lemma {:induction false} OneTextLines(key: string, text: string)
    ensures ArrayLines(key, [text]) == [key + " = [", "  \"" + text + "\",", "]"]
  {
    assert [text][1..] == [];
    assert ElementLines([]) == [];
    assert ElementLines([text]) == [ElementLine(text)];
  }

  /** How each kind of text is spelled in its array. */
  lemma {:induction false} TextsAre(plain: string, path: string, d: Digest, kind: string, unit: string)
    requires '\\' !in plain && '"' !in plain && '\\' !in path && '"' !in path
    requires '\\' !in kind && '"' !in kind && '\\' !in unit && '"' !in unit
    ensures EscAll([plain]) == [plain]
    ensures DigestTexts([(path, d)]) == [Hex(d) + "  " + path]
    ensures UnitTexts([(kind, unit)]) == [kind + " " + unit]
  {
    hide Esc, Hex;
    EscPlain(plain);
    EscPlain(path);
    EscPlain(kind);
    EscPlain(unit);
  }

  /** A backslash and a quote are escaped by a backslash before them, and a digest has two lower-case digits a byte. */
  lemma {:induction false} SpelledAs()
    ensures Esc("a\\b\"c") == "a\\\\b\\\"c"
    ensures Hex([0, 26, 255]) == "001aff"
  {
    hide Esc;
    EscStep("a\\b\"c");
    assert "a\\b\"c"[1..] == "\\b\"c";
    EscStep("\\b\"c");
    assert "\\b\"c"[1..] == "b\"c";
    EscStep("b\"c");
    assert "b\"c"[1..] == "\"c";
    EscStep("\"c");
    assert "\"c"[1..] == "c";
    EscStep("c");
    assert "c"[1..] == "";
    EscNothing();
    assert [0, 26, 255][..2] == [0, 26] && [0, 26][..1] == [0] && [0][..0] == [];
    assert HexByte(0) == "00" && HexByte(26) == "1a" && HexByte(255) == "ff";
  }
}
