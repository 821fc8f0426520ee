/** The manifest reader, line by line, and the round trip: reading is the inverse of writing on exactly
    the libraries whose strings fit the line form. */
module ManifestParse {
  import opened Wrappers
  import opened Strings
  import opened Escapes
  import opened Manifest

  // ---- the reader as functions of the lines and a position ----

  predicate Skipped(line: string) { TrimEnd(line) == "" || StartsWith(TrimEnd(line), "#") }

  /** The next line that says something: the position after it, and its text without trailing space. */
  function NextContent(lines: seq<string>, i: nat): (r: Option<(nat, string)>)
    ensures r.Some? ==> i < r.value.0 <= |lines| && r.value.1 == TrimEnd(lines[r.value.0 - 1])
    decreases |lines| - i
  {
    if i >= |lines| then None
    else if Skipped(lines[i]) then NextContent(lines, i + 1)
    else Some((i + 1, TrimEnd(lines[i])))
  }

  function ParseKeyLine(line: string, key: string): Option<string> {
    match StripPrefix(line, key)
    case None => None
    case Some(rest) =>
      match StripPrefix(rest, " = \"")
      case None => None
      case Some(inner) =>
        match StripSuffix(inner, "\"")
        case None => None
        case Some(text) => Some(Unesc(text))
  }

  function ParseElement(line: string): Option<string> {
    match StripPrefix(TrimStart(line), "\"")
    case None => None
    case Some(rest) =>
      match StripSuffix(rest, "\",")
      case None => None
      case Some(text) => Some(Unesc(text))
  }

  function ParseElements(lines: seq<string>, i: nat, key: string): Result<(seq<string>, nat), ParseError>
    decreases |lines| - i
  {
    match NextContent(lines, i)
    case None => Err(UnterminatedArray(key))
    case Some(p) =>
      if p.1 == "]" then Ok(([], p.0))
      else match ParseElement(p.1)
        case None => Err(BadElement(p.0))
        case Some(e) =>
          var rest :- ParseElements(lines, p.0, key);
          Ok(([e] + rest.0, rest.1))
  }

  function ParseArray(lines: seq<string>, i: nat, key: string): Result<(seq<string>, nat), ParseError> {
    match NextContent(lines, i)
    case None => Err(TruncatedBefore(key))
    case Some(p) =>
      if p.1 == key + " = []" then Ok(([], p.0))
      else if p.1 != key + " = [" then Err(ExpectedArray(key, p.0))
      else ParseElements(lines, p.0, key)
  }

  function ToDigest(entry: string): Result<(string, Digest), ParseError> {
    match SplitOnce(entry, "  ")
    case None => Err(BadDigest(entry))
    case Some(p) =>
      match Unhex32(p.0)
      case None => Err(BadDigest(entry))
      case Some(d) => Ok((p.1, d))
  }

  function ToDigests(entries: seq<string>): Result<seq<(string, Digest)>, ParseError> {
    if entries == [] then Ok([])
    else
      var first :- ToDigest(entries[0]);
      var rest :- ToDigests(entries[1..]);
      Ok([first] + rest)
  }

  function ToUnits(entries: seq<string>): Result<seq<(string, string)>, ParseError> {
    if entries == [] then Ok([])
    else
      match SplitOnce(entries[0], " ")
      case None => Err(BadUnit(entries[0]))
      case Some(p) =>
        var rest :- ToUnits(entries[1..]);
        Ok([p] + rest)
  }

  function ParseDigests(lines: seq<string>, i: nat, key: string): Result<(seq<(string, Digest)>, nat), ParseError> {
    var raw :- ParseArray(lines, i, key);
    var ds :- ToDigests(raw.0);
    Ok((ds, raw.1))
  }

  /** A compilation unit, after its `[[cu]]` line. */
  function ParseCu(lines: seq<string>, i: nat): Result<(Cu, nat), ParseError> {
    match NextContent(lines, i)
    case None => Err(TruncatedCu)
    case Some(p) =>
      match ParseKeyLine(p.1, "blob")
      case None => Err(ExpectedBlob(p.0))
      case Some(blob) =>
        var defines :- ParseArray(lines, p.0, "defines");
        var incdirs :- ParseArray(lines, defines.1, "incdirs");
        var sources :- ParseDigests(lines, incdirs.1, "sources");
        var includes :- ParseDigests(lines, sources.1, "includes");
        var raw :- ParseArray(lines, includes.1, "units");
        var units :- ToUnits(raw.0);
        Ok((Cu(blob, defines.0, incdirs.0, sources.0, includes.0, units), raw.1))
  }

  lemma {:induction false} ElementsAdvance(lines: seq<string>, i: nat, key: string)
    ensures var r := ParseElements(lines, i, key); r.Ok? ==> i < r.value.1 <= |lines|
    decreases |lines| - i
  {
    hide ParseElement, Skipped;
    var p := NextContent(lines, i);
    if p.Some? && p.value.1 != "]" { ElementsAdvance(lines, p.value.0, key); }
  }

  lemma {:induction false} ArrayAdvances(lines: seq<string>, i: nat, key: string)
    ensures var r := ParseArray(lines, i, key); r.Ok? ==> i < r.value.1 <= |lines|
  {
    hide ParseElements;
    var p := NextContent(lines, i);
    if p.Some? { ElementsAdvance(lines, p.value.0, key); }
  }

  lemma {:induction false} CuAdvances(lines: seq<string>, i: nat)
    ensures var r := ParseCu(lines, i); r.Ok? ==> i < r.value.1 <= |lines|
  {
    hide ParseArray, ToDigests, ToUnits;
    forall k: nat, key: string ensures var r := ParseArray(lines, k, key); r.Ok? ==> k < r.value.1 <= |lines| {
      ArrayAdvances(lines, k, key);
    }
  }

  function ParseCus(lines: seq<string>, i: nat): Result<seq<Cu>, ParseError>
    decreases |lines| - i
  {
    match NextContent(lines, i)
    case None => Ok([])
    case Some(p) =>
      if p.1 != "[[cu]]" then Err(ExpectedCu(p.0))
      else
        CuAdvances(lines, p.0);
        var cu :- ParseCu(lines, p.0);
        var rest :- ParseCus(lines, cu.1);
        Ok([cu.0] + rest)
  }

  function ParseLines(lines: seq<string>): Result<Library, ParseError> {
    match NextContent(lines, 0)
    case None => Err(Empty)
    case Some(v) =>
      if v.1 != VERSION then Err(NotCanonical(v.0))
      else match NextContent(lines, v.0)
        case None => Err(MissingName)
        case Some(n) =>
          match ParseKeyLine(n.1, "name")
          case None => Err(ExpectedName(n.0))
          case Some(name) =>
            var cus :- ParseCus(lines, n.0);
            Ok(Library(name, cus))
  }

  function Parsed(text: string): Result<Library, ParseError> { ParseLines(SplitLines(text)) }

  // ---- the reader as it runs ----

  /** The value a step yields is the specification's, and the reader stands where it says. */
  ghost predicate Reads<T>(r: Result<T, ParseError>, pos: nat, spec: Result<(T, nat), ParseError>) {
    match spec
    case Err(e) => r == Err(e)
    case Ok(v) => r == Ok(v.0) && pos == v.1
  }

  class LineReader {
    const lines: seq<string>
    var pos: nat

    constructor (text: string)
      ensures lines == SplitLines(text) && pos == 0
    {
      lines, pos := SplitLines(text), 0;
    }

    method Next() returns (r: Option<(nat, string)>)
      modifies this
      ensures r == NextContent(lines, old(pos)) && (r.Some? ==> pos == r.value.0)
    {
      while pos < |lines|
        invariant NextContent(lines, pos) == NextContent(lines, old(pos))
        decreases |lines| - pos
      {
        var t := TrimEnd(lines[pos]);
        pos := pos + 1;
        if t == "" || StartsWith(t, "#") {
          continue;
        }
        return Some((pos, t));
      }
      r := None;
    }

    method StrArray(key: string) returns (r: Result<seq<string>, ParseError>)
      modifies this
      ensures Reads(r, pos, ParseArray(lines, old(pos), key))
    {
      hide NextContent, ParseElement;
      var p := Next();
      if p.None? {
        return Err(TruncatedBefore(key));
      }
      if p.value.1 == key + " = []" {
        return Ok([]);
      }
      if p.value.1 != key + " = [" {
        return Err(ExpectedArray(key, p.value.0));
      }
      r := Elements(key);
    }

    method Elements(key: string) returns (r: Result<seq<string>, ParseError>)
      modifies this
      ensures Reads(r, pos, ParseElements(lines, old(pos), key))
    {
      hide NextContent, ParseElement;
      ghost var whole := ParseElements(lines, pos, key);
      var out: seq<string> := [];
      assert whole.Ok? ==> out + whole.value.0 == whole.value.0;
      while true
        invariant var rest := ParseElements(lines, pos, key);
          if rest.Err? then whole == rest else whole == Ok((out + rest.value.0, rest.value.1))
        decreases |lines| - pos
      {
        ghost var was := pos;
        var p := Next();
        if p.None? {
          return Err(UnterminatedArray(key));
        }
        if p.value.1 == "]" {
          assert out + [] == out;
          return Ok(out);
        }
        var e := Element(p.value.1);
        if e.None? {
          return Err(BadElement(p.value.0));
        }
        ElementsStep(lines, was, key, out, e.value);
        out := out + [e.value];
      }
    }

    method DigestArray(key: string) returns (r: Result<seq<(string, Digest)>, ParseError>)
      modifies this
      ensures Reads(r, pos, ParseDigests(lines, old(pos), key))
    {
      hide ParseArray, ToDigest;
      var raw :- StrArray(key);
      var out: seq<(string, Digest)> := [];
      var k := 0;
      ghost var whole, at := ToDigests(raw), pos;
      assert raw[0..] == raw && (whole.Ok? ==> out + whole.value == whole.value);
      while k < |raw|
        invariant 0 <= k <= |raw| && pos == at
        invariant var rest := ToDigests(raw[k..]); if rest.Err? then whole == rest else whole == Ok(out + rest.value)
      {
        var split := SplitOnce(raw[k], "  ");
        DigestsStep(raw, k, out);
        if split.None? {
          return Err(BadDigest(raw[k]));
        }
        var d := Unhex(split.value.0);
        if d.None? {
          return Err(BadDigest(raw[k]));
        }
        out := out + [(split.value.1, d.value)];
        k := k + 1;
      }
      assert out + [] == out;
      r := Ok(out);
    }

    method Units() returns (r: Result<seq<(string, string)>, ParseError>)
      modifies this
      ensures match ParseArray(lines, old(pos), "units")
        case Err(e) => r == Err(e)
        case Ok(v) => r == ToUnits(v.0) && (r.Ok? ==> pos == v.1)
    {
      hide ParseArray, SplitOnce;
      var raw :- StrArray("units");
      var out: seq<(string, string)> := [];
      var k := 0;
      ghost var whole, at := ToUnits(raw), pos;
      assert raw[0..] == raw && (whole.Ok? ==> out + whole.value == whole.value);
      while k < |raw|
        invariant 0 <= k <= |raw| && pos == at
        invariant var rest := ToUnits(raw[k..]); if rest.Err? then whole == rest else whole == Ok(out + rest.value)
      {
        var split := SplitOnce(raw[k], " ");
        UnitsStep(raw, k, out);
        if split.None? {
          return Err(BadUnit(raw[k]));
        }
        out := out + [split.value];
        k := k + 1;
      }
      assert out + [] == out;
      r := Ok(out);
    }

    method CuEntry() returns (r: Result<Cu, ParseError>)
      modifies this
      ensures Reads(r, pos, ParseCu(lines, old(pos)))
    {
      hide NextContent, ParseKeyLine, ParseArray, ParseDigests, ToUnits;
      var p := Next();
      if p.None? {
        return Err(TruncatedCu);
      }
      var blob := ParseKeyLine(p.value.1, "blob");
      if blob.None? {
        return Err(ExpectedBlob(p.value.0));
      }
      var defines :- StrArray("defines");
      var incdirs :- StrArray("incdirs");
      var sources :- DigestArray("sources");
      var includes :- DigestArray("includes");
      var units :- Units();
      r := Ok(Cu(blob.value, defines, incdirs, sources, includes, units));
    }
  }

  method Parse(text: string) returns (r: Result<Library, ParseError>)
    ensures r == Parsed(text)
  {
    hide NextContent, ParseKeyLine, ParseCu, SplitLines;
    var rd := new LineReader(text);
    var v := rd.Next();
    if v.None? {
      return Err(Empty);
    }
    if v.value.1 != VERSION {
      return Err(NotCanonical(v.value.0));
    }
    var n := rd.Next();
    if n.None? {
      return Err(MissingName);
    }
    var name := ParseKeyLine(n.value.1, "name");
    if name.None? {
      return Err(ExpectedName(n.value.0));
    }
    var cus: seq<Cu> := [];
    ghost var whole := ParseCus(rd.lines, rd.pos);
    assert whole.Ok? ==> cus + whole.value == whole.value;
    while true
      invariant var rest := ParseCus(rd.lines, rd.pos); if rest.Err? then whole == rest else whole == Ok(cus + rest.value)
      invariant rd.lines == SplitLines(text)
      decreases |rd.lines| - rd.pos
    {
      ghost var was := rd.pos;
      var l := rd.Next();
      if l.None? {
        assert cus + [] == cus;
        return Ok(Library(name.value, cus));
      }
      if l.value.1 != "[[cu]]" {
        return Err(ExpectedCu(l.value.0));
      }
      CuAdvances(rd.lines, rd.pos);
      var cu :- rd.CuEntry();
      CusStep(rd.lines, was, cus);
      cus := cus + [cu];
    }
  }

  lemma {:induction false} DigestsStep(raw: seq<string>, k: nat, out: seq<(string, Digest)>)
    requires k < |raw|
    ensures var d, rest := ToDigest(raw[k]), ToDigests(raw[k + 1..]);
      if d.Err? then ToDigests(raw[k..]) == Err(d.error)
      else if rest.Err? then ToDigests(raw[k..]) == rest
      else ToDigests(raw[k..]).Ok? && out + ToDigests(raw[k..]).value == out + [d.value] + rest.value
    ensures ToDigest(raw[k]) == match SplitOnce(raw[k], "  ")
      case None => Err(BadDigest(raw[k]))
      case Some(p) => match Unhex32(p.0) case None => Err(BadDigest(raw[k])) case Some(v) => Ok((p.1, v))
  {
    hide SplitOnce, Unhex32;
    assert raw[k..][1..] == raw[k + 1..];
  }

  lemma {:induction false} UnitsStep(raw: seq<string>, k: nat, out: seq<(string, string)>)
    requires k < |raw|
    ensures var u, rest := SplitOnce(raw[k], " "), ToUnits(raw[k + 1..]);
      if u.None? then ToUnits(raw[k..]) == Err(BadUnit(raw[k]))
      else if rest.Err? then ToUnits(raw[k..]) == rest
      else ToUnits(raw[k..]).Ok? && out + ToUnits(raw[k..]).value == out + [u.value] + rest.value
  {
    hide SplitOnce;
    assert raw[k..][1..] == raw[k + 1..];
  }

  lemma {:induction false} CusStep(lines: seq<string>, i: nat, cus: seq<Cu>)
    requires NextContent(lines, i).Some? && NextContent(lines, i).value.1 == "[[cu]]"
    requires ParseCu(lines, NextContent(lines, i).value.0).Ok?
    ensures var cu := ParseCu(lines, NextContent(lines, i).value.0).value;
      var rest := ParseCus(lines, cu.1);
      if rest.Err? then ParseCus(lines, i) == rest
      else ParseCus(lines, i).Ok? && cus + ParseCus(lines, i).value == cus + [cu.0] + rest.value
  {
    hide NextContent, ParseCu;
    CuAdvances(lines, NextContent(lines, i).value.0);
  }

  method Element(line: string) returns (r: Option<string>)
    ensures r == ParseElement(line)
  {
    hide TrimStart, Unesc;
    var rest := StripPrefix(TrimStart(line), "\"");
    if rest.None? {
      return None;
    }
    var text := StripSuffix(rest.value, "\",");
    if text.None? {
      return None;
    }
    var e := Unescape(text.value);
    r := Some(e);
  }

  lemma {:induction false} ElementsStep(lines: seq<string>, i: nat, key: string, out: seq<string>, e: string)
    requires var p := NextContent(lines, i); p.Some? && p.value.1 != "]" && ParseElement(p.value.1) == Some(e)
    ensures var rest := ParseElements(lines, NextContent(lines, i).value.0, key);
      if rest.Err? then ParseElements(lines, i, key) == rest
      else ParseElements(lines, i, key).Ok?
           && ParseElements(lines, i, key).value.1 == rest.value.1
           && out + ParseElements(lines, i, key).value.0 == out + [e] + rest.value.0
  {
    hide NextContent, ParseElement;
  }
}
