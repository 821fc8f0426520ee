/** Recording a compilation unit in a work library: supersession, the redefinition check, and the
    blob-manifest-collect write order, with every state the disk goes through. */
module WorkLib {
  import opened Wrappers
  import opened Strings
  import opened Escapes
  import opened Manifest
  import opened ManifestParse
  import opened ManifestRoundTrip

  /** The library directory: its manifest text, and the files under `units/`. */
  datatype Disk = Disk(manifest: Option<string>, blobs: map<string, seq<Byte>>)

  datatype Refusal = Unreadable(error: ParseError) | OtherLibrary(name: string) | Newline | Duplicate(unit: string)

  datatype AddResult = Added | Refused(why: Refusal) | WriteFailed

  // ---- the decision ----

  function Paths(cu: Cu): set<string> { set e | e in cu.sources :: e.0 }

  function UnitNames(cu: Cu): set<string> { set u | u in cu.units :: u.1 }

  /** `was` shares a source path with `cu`. */
  predicate Superseded(was: Cu, cu: Cu) { exists e :: e in was.sources && e.0 in Paths(cu) }

  function Retained(cus: seq<Cu>, cu: Cu): seq<Cu> {
    if cus == [] then []
    else Retained(cus[..|cus| - 1], cu) + if Superseded(cus[|cus| - 1], cu) then [] else [cus[|cus| - 1]]
  }

  /** How many retained units stand before the first superseded one. */
  function Slot(cus: seq<Cu>, cu: Cu): Option<nat> {
    if cus == [] then None
    else
      var front := Slot(cus[..|cus| - 1], cu);
      if front.Some? then front
      else if Superseded(cus[|cus| - 1], cu) then Some(|Retained(cus[..|cus| - 1], cu)|)
      else None
  }

  function OrElse(slot: Option<nat>, default: nat): nat { if slot.Some? then slot.value else default }

  function NewCus(cus: seq<Cu>, cu: Cu): seq<Cu> {
    SlotBound(cus, cu);
    var kept := Retained(cus, cu);
    var at := OrElse(Slot(cus, cu), |kept|);
    kept[..at] + [cu] + kept[at..]
  }

  lemma {:induction false} SlotBound(cus: seq<Cu>, cu: Cu)
    ensures Slot(cus, cu).Some? ==> Slot(cus, cu).value <= |Retained(cus, cu)|
  {
    hide Superseded;
    if cus != [] { SlotBound(cus[..|cus| - 1], cu); }
  }

  function FirstDupIn(units: seq<(string, string)>, names: set<string>): Option<string> {
    if units == [] then None
    else if units[0].1 in names then Some(units[0].1)
    else FirstDupIn(units[1..], names)
  }

  /** The first unit name, in manifest order, that the new unit defines again. */
  function FirstDup(cus: seq<Cu>, names: set<string>): Option<string> {
    if cus == [] then None
    else
      var d := FirstDupIn(cus[0].units, names);
      if d.Some? then d else FirstDup(cus[1..], names)
  }

  predicate HasNewline(s: string) { '\n' in s || '\r' in s }

  predicate RecordsNewline(name: string, cu: Cu) {
    HasNewline(name)
    || (exists d :: d in cu.defines && HasNewline(d)) || (exists d :: d in cu.incdirs && HasNewline(d))
    || (exists e :: e in cu.sources && HasNewline(e.0)) || (exists e :: e in cu.includes && HasNewline(e.0))
  }

  /** The library on disk, or an empty one. */
  function Held(d: Disk, name: string): Result<Library, Refusal> {
    match d.manifest
    case None => Ok(Library(name, []))
    case Some(text) =>
      match Parsed(text)
      case Err(e) => Err(Unreadable(e))
      case Ok(m) => if m.name != name then Err(OtherLibrary(m.name)) else Ok(m)
  }

  /** The library to be written, or the refusal. */
  function Decide(d: Disk, name: string, cu: Cu): Result<Library, Refusal> {
    var m :- Held(d, name);
    if RecordsNewline(name, cu) then Err(Newline)
    else
      var dup := FirstDup(Retained(m.cus, cu), UnitNames(cu));
      if dup.Some? then Err(Duplicate(dup.value)) else Ok(Library(name, NewCus(m.cus, cu)))
  }

  function BlobName(hash: seq<Byte> -> Digest, bytes: seq<Byte>): string {
    "units/cu_" + Hex(hash(bytes))[..32] + ".vu"
  }

  function Live(m: Library): set<string> { set cu | cu in m.cus :: cu.blob }

  // ---- the invariant ----

  predicate SourcesApart(cus: seq<Cu>) {
    forall i, j :: 0 <= i < j < |cus| ==> Paths(cus[i]) !! Paths(cus[j])
  }

  predicate UnitsApart(cus: seq<Cu>) {
    forall i, j :: 0 <= i < j < |cus| ==> UnitNames(cus[i]) !! UnitNames(cus[j])
  }

  predicate Sound(m: Library) { Clean(m) && SourcesApart(m.cus) && UnitsApart(m.cus) }

  /** The manifest reads, is canonical, names only blobs that exist, and no two of its units share a
      source path or define one name. */
  predicate Good(d: Disk) {
    d.manifest.Some? ==>
      Parsed(d.manifest.value).Ok?
      && Text(Parsed(d.manifest.value).value) == d.manifest.value
      && Sound(Parsed(d.manifest.value).value)
      && Live(Parsed(d.manifest.value).value) <= d.blobs.Keys
  }

  lemma {:induction false} WrittenIsGood(d: Disk, m: Library)
    requires Sound(m) && d.manifest == Some(Text(m)) && Live(m) <= d.blobs.Keys
    ensures Good(d)
  {
    hide Parsed, Text, Sound, Clean;
    SoundIsClean(m);
    RoundTrip(m);
  }

  lemma SoundIsClean(m: Library)
    requires Sound(m)
    ensures Clean(m)
  {
  }

  // ---- what the decision keeps ----

  lemma {:induction false} RetainedIs(cus: seq<Cu>, cu: Cu)
    ensures forall c :: c in Retained(cus, cu) <==> c in cus && !Superseded(c, cu)
  {
    hide Superseded;
    if cus != [] {
      RetainedIs(cus[..|cus| - 1], cu);
      assert cus == cus[..|cus| - 1] + [cus[|cus| - 1]];
    }
  }

  /** One unit set between others stays apart from them when each of them is. */
  lemma {:induction false} InsertApart(kept: seq<Cu>, at: nat, cu: Cu)
    requires at <= |kept|
    ensures var r := kept[..at] + [cu] + kept[at..];
      (SourcesApart(kept) && (forall c :: c in kept ==> Paths(c) !! Paths(cu)) ==> SourcesApart(r))
      && (UnitsApart(kept) && (forall c :: c in kept ==> UnitNames(c) !! UnitNames(cu)) ==> UnitsApart(r))
  {
    hide Paths, UnitNames;
    var r := kept[..at] + [cu] + kept[at..];
    assert forall i :: 0 <= i < |r| ==> r[i] == if i < at then kept[i] else if i == at then cu else kept[i - 1];
  }

  lemma {:induction false} FrontApart(cus: seq<Cu>)
    requires cus != []
    ensures var front, last := cus[..|cus| - 1], cus[|cus| - 1];
      (SourcesApart(cus) ==> SourcesApart(front) && forall c :: c in front ==> Paths(c) !! Paths(last))
      && (UnitsApart(cus) ==> UnitsApart(front) && forall c :: c in front ==> UnitNames(c) !! UnitNames(last))
  {
    hide Paths, UnitNames;
    var front := cus[..|cus| - 1];
    forall c | c in front ensures exists i :: 0 <= i < |front| && cus[i] == c {
      var i :| 0 <= i < |front| && front[i] == c;
      assert cus[i] == c;
    }
  }

  lemma {:induction false} RetainedApart(cus: seq<Cu>, cu: Cu)
    ensures SourcesApart(cus) ==> SourcesApart(Retained(cus, cu))
    ensures UnitsApart(cus) ==> UnitsApart(Retained(cus, cu))
  {
    hide Superseded, Paths, UnitNames, SourcesApart, UnitsApart;
    if cus == [] {
      NoneApart();
    } else {
      var front, last := cus[..|cus| - 1], cus[|cus| - 1];
      FrontApart(cus);
      RetainedApart(front, cu);
      RetainedIs(front, cu);
      var kept := Retained(front, cu);
      InsertApart(kept, |kept|, last);
      assert kept[..|kept|] + [last] + kept[|kept|..] == kept + [last];
      assert kept + [] == kept;
    }
  }

  lemma NoneApart()
    ensures SourcesApart([]) && UnitsApart([])
  {
  }

  lemma {:induction false} NoDupIn(units: seq<(string, string)>, names: set<string>)
    ensures FirstDupIn(units, names).None? <==> forall u :: u in units ==> u.1 !in names
    ensures FirstDupIn(units, names).Some? ==> FirstDupIn(units, names).value in names
  {
    if units != [] {
      NoDupIn(units[1..], names);
      assert units == [units[0]] + units[1..];
    }
  }

  lemma DisjointNames(c: Cu, cu: Cu)
    ensures UnitNames(c) !! UnitNames(cu) <==> forall u :: u in c.units ==> u.1 !in UnitNames(cu)
  {
    assert forall u :: u in c.units ==> u.1 in UnitNames(c);
  }

  lemma {:induction false} NoDup(cus: seq<Cu>, cu: Cu)
    ensures FirstDup(cus, UnitNames(cu)).None? <==> forall c :: c in cus ==> UnitNames(c) !! UnitNames(cu)
  {
    if cus != [] {
      NoDupIn(cus[0].units, UnitNames(cu));
      NoDup(cus[1..], cu);
      DisjointNames(cus[0], cu);
      assert cus == [cus[0]] + cus[1..];
    }
  }

  /** Supersession and the redefinition check are what keep the units apart. */
  lemma {:induction false} NewCusApart(cus: seq<Cu>, cu: Cu)
    requires SourcesApart(cus) && UnitsApart(cus) && FirstDup(Retained(cus, cu), UnitNames(cu)).None?
    ensures SourcesApart(NewCus(cus, cu)) && UnitsApart(NewCus(cus, cu))
  {
    hide Retained, Slot, FirstDup;
    var kept := Retained(cus, cu);
    SlotBound(cus, cu);
    RetainedApart(cus, cu);
    RetainedIs(cus, cu);
    NoDup(kept, cu);
    InsertApart(kept, OrElse(Slot(cus, cu), |kept|), cu);
  }

  lemma {:induction false} NewCusHold(cus: seq<Cu>, cu: Cu)
    ensures forall c :: c in NewCus(cus, cu) <==> c == cu || (c in cus && !Superseded(c, cu))
  {
    hide Retained, Slot, Superseded;
    var kept := Retained(cus, cu);
    SlotBound(cus, cu);
    RetainedIs(cus, cu);
    var at := OrElse(Slot(cus, cu), |kept|);
    assert kept == kept[..at] + kept[at..];
  }

  // ---- adding the same unit again ----

  predicate NoneSuperseded(cus: seq<Cu>, cu: Cu) {
    forall c :: c in cus ==> !Superseded(c, cu)
  }

  lemma {:induction false} NothingSuperseded(cus: seq<Cu>, cu: Cu)
    requires NoneSuperseded(cus, cu)
    ensures Retained(cus, cu) == cus && Slot(cus, cu).None?
  {
    hide Superseded;
    if cus != [] {
      assert cus == cus[..|cus| - 1] + [cus[|cus| - 1]];
      NothingSuperseded(cus[..|cus| - 1], cu);
    }
  }

  lemma {:induction false} OneSuperseded(x: seq<Cu>, c: Cu, y: seq<Cu>, cu: Cu)
    requires NoneSuperseded(x, cu) && Superseded(c, cu) && NoneSuperseded(y, cu)
    ensures Retained(x + [c] + y, cu) == x + y && Slot(x + [c] + y, cu) == Some(|x|)
  {
    hide Superseded;
    var all := x + [c] + y;
    if y == [] {
      assert all[..|all| - 1] == x;
      NothingSuperseded(x, cu);
    } else {
      var front, last := y[..|y| - 1], y[|y| - 1];
      assert y == front + [last];
      assert all[..|all| - 1] == x + [c] + front;
      OneSuperseded(x, c, front, cu);
    }
  }

  /** A unit with sources, added again, takes its own place: the manifest is unchanged. */
  lemma {:induction false} AddAgain(cus: seq<Cu>, cu: Cu)
    requires cu.sources != [] && FirstDup(Retained(cus, cu), UnitNames(cu)).None?
    ensures NewCus(NewCus(cus, cu), cu) == NewCus(cus, cu)
    ensures FirstDup(Retained(NewCus(cus, cu), cu), UnitNames(cu)).None?
  {
    hide FirstDup, UnitNames;
    var kept := Retained(cus, cu);
    SlotBound(cus, cu);
    RetainedIs(cus, cu);
    var at := OrElse(Slot(cus, cu), |kept|);
    assert cu.sources[0] in cu.sources && cu.sources[0].0 in Paths(cu);
    OneSuperseded(kept[..at], cu, kept[at..], cu);
    assert kept[..at] + kept[at..] == kept;
  }

  // ---- every step keeps the library good ----

  lemma {:induction false} BlobNameOneLine(hash: seq<Byte> -> Digest, bytes: seq<Byte>)
    ensures OneLine(BlobName(hash, bytes)) && EndsWith(BlobName(hash, bytes), ".vu")
  {
    hide Hex;
    HexDigits(hash(bytes));
    var h := Hex(hash(bytes))[..32];
    assert forall c :: c in h ==> c in Hex(hash(bytes));
    assert OneLine("units/cu_") && OneLine(".vu");
    assert ("units/cu_" + h + ".vu")[|"units/cu_" + h|..] == ".vu";
  }

  /** Half a digest names a blob: two names agree exactly when the first 16 bytes of the digests do. */
  lemma {:induction false} BlobNamesAgree(hash: seq<Byte> -> Digest, x: seq<Byte>, y: seq<Byte>)
    ensures BlobName(hash, x) == BlobName(hash, y) <==> hash(x)[..16] == hash(y)[..16]
  {
    hide Hex, PairValue;
    HexPrefix(hash(x), 16);
    HexPrefix(hash(y), 16);
    NameDigits(Hex(hash(x))[..32]);
    NameDigits(Hex(hash(y))[..32]);
    if Hex(hash(x)[..16]) == Hex(hash(y)[..16]) { HexInjective(hash(x)[..16], hash(y)[..16]); }
  }

  lemma NameDigits(h: string)
    requires |h| == 32
    ensures ("units/cu_" + h + ".vu")[9..41] == h
  {
  }

  lemma {:induction false} HexPrefix(bytes: seq<Byte>, n: nat)
    requires n <= |bytes|
    ensures Hex(bytes)[..2 * n] == Hex(bytes[..n])
  {
    hide HexByte;
    if n == |bytes| {
      assert bytes[..n] == bytes;
    } else {
      HexPrefix(bytes[..|bytes| - 1], n);
      assert bytes[..|bytes| - 1][..n] == bytes[..n];
    }
  }

  lemma {:induction false} HexInjective(x: seq<Byte>, y: seq<Byte>)
    requires |x| == |y| && Hex(x) == Hex(y)
    ensures x == y
  {
    hide Hex, PairValue;
    HexDigits(x);
    HexDigits(y);
    forall k | 0 <= k < |x| ensures x[k] == y[k] { assert PairValue(Hex(x), k) == x[k]; }
  }

  lemma {:induction false} HeldIsSound(d: Disk, name: string)
    requires Good(d) && Held(d, name).Ok? && OneLine(name)
    ensures Sound(Held(d, name).value) && Live(Held(d, name).value) <= d.blobs.Keys
  {
    hide Parsed, Text, CleanCu, Paths, UnitNames;
  }

  lemma RecordsClean(name: string, cu: Cu)
    requires !RecordsNewline(name, cu) && OneLine(cu.blob) && CleanUnits(cu.units)
    ensures OneLine(name) && CleanCu(cu)
  {
    hide CleanUnits;
    forall k | 0 <= k < |cu.defines| ensures OneLine(cu.defines[k]) { assert cu.defines[k] in cu.defines; }
    forall k | 0 <= k < |cu.incdirs| ensures OneLine(cu.incdirs[k]) { assert cu.incdirs[k] in cu.incdirs; }
    forall k | 0 <= k < |cu.sources| ensures OneLine(cu.sources[k].0) { assert cu.sources[k] in cu.sources; }
    forall k | 0 <= k < |cu.includes| ensures OneLine(cu.includes[k].0) { assert cu.includes[k] in cu.includes; }
  }

  /** What is written is a sound library whose blobs were there, but for the one given. */
  lemma {:induction false} PlanIsSound(d: Disk, name: string, cu: Cu)
    requires Good(d) && Decide(d, name, cu).Ok? && OneLine(cu.blob) && CleanUnits(cu.units)
    ensures Sound(Decide(d, name, cu).value)
    ensures Live(Decide(d, name, cu).value) <= d.blobs.Keys + {cu.blob}
    ensures cu in Decide(d, name, cu).value.cus
  {
    hide Good, Held, FirstDup, Retained, NewCus, CleanUnits, CleanCu, RecordsNewline, UnitNames, Paths, Superseded;
    var m, n := Held(d, name).value, Decide(d, name, cu).value;
    RecordsClean(name, cu);
    HeldIsSound(d, name);
    NewCusApart(m.cus, cu);
    NewCusHold(m.cus, cu);
    forall k | 0 <= k < |n.cus| ensures CleanCu(n.cus[k]) {
      assert n.cus[k] in n.cus;
    }
  }

  /** The one gap in the newline check: a unit whose name or kind does not fit the line form is accepted,
      and then the manifest no longer reads back as what was written. */
  lemma {:induction false} UncleanUnitIsWritten(d: Disk, name: string, cu: Cu)
    requires Decide(d, name, cu).Ok? && !CleanUnits(cu.units)
    ensures Parsed(Text(Decide(d, name, cu).value)) != Ok(Decide(d, name, cu).value)
  {
    hide Held, FirstDup, NewCus, CleanUnits, RecordsNewline, Parsed, Text;
    var n := Decide(d, name, cu).value;
    NewCusHold(Held(d, name).value.cus, cu);
    assert cu in n.cus && !CleanCu(cu);
    RoundTrip(n);
  }

  /** Adding a unit with sources once more decides on the manifest that is already there. */
  lemma {:induction false} DecideAgain(d: Disk, e: Disk, name: string, cu: Cu)
    requires Good(d) && Decide(d, name, cu).Ok? && OneLine(cu.blob) && CleanUnits(cu.units) && cu.sources != []
    requires e.manifest == Some(Text(Decide(d, name, cu).value))
    ensures Decide(e, name, cu) == Decide(d, name, cu)
  {
    hide Good, FirstDup, NewCus, CleanUnits, RecordsNewline, Parsed, Text, Retained, UnitNames, SourcesApart, UnitsApart,
         Clean;
    var n := Decide(d, name, cu).value;
    PlanIsSound(d, name, cu);
    RoundTrip(n);
    AddAgain(Held(d, name).value.cus, cu);
  }
}
