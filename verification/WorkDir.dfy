/** The work library on disk: one call of the recording protocol, step by step. */
module WorkDir {
  import opened Wrappers
  import opened Strings
  import opened Escapes
  import opened Manifest
  import opened ManifestParse
  import opened ManifestRoundTrip
  import opened WorkLib

  /** Which file operations succeed during a call. */
  datatype Luck = Luck(makesDir: bool, writesBlob: bool, writesManifest: bool, removes: string -> bool)

  /** Before the manifest is replaced: it is the old one, and no blob is gone. */
  predicate BlobStage(was: Disk, d: Disk, blob: string, bytes: seq<Byte>) {
    d.manifest == was.manifest && (d == was || (blob !in was.blobs && d.blobs == was.blobs[blob := bytes]))
  }

  /** From then on: it is the new one, and every blob it names is as it was, or as given. */
  predicate ManifestStage(was: Disk, d: Disk, m: Library, blob: string, bytes: seq<Byte>) {
    d.manifest == Some(Text(m))
    && blob in d.blobs && d.blobs[blob] == (if blob in was.blobs then was.blobs[blob] else bytes)
    && (forall b :: b in was.blobs && b in Live(m) ==> b in d.blobs)
    && (forall b :: b in d.blobs && b != blob ==> b in was.blobs && d.blobs[b] == was.blobs[b])
  }

  predicate AnyStage(was: Disk, d: Disk, m: Library, blob: string, bytes: seq<Byte>) {
    BlobStage(was, d, blob, bytes) || ManifestStage(was, d, m, blob, bytes)
  }

  /** The unit as recorded: its blob is named after its content. */
  function Named(hash: seq<Byte> -> Digest, bytes: seq<Byte>, given: Cu): Cu {
    given.(blob := BlobName(hash, bytes))
  }

  /** Whatever the disk holds during a call, it is good. */
  lemma {:induction false} StagesAreGood(was: Disk, hash: seq<Byte> -> Digest, name: string, bytes: seq<Byte>, given: Cu)
    requires Good(was) && CleanUnits(given.units) && Decide(was, name, Named(hash, bytes, given)).Ok?
    ensures var cu := Named(hash, bytes, given);
      forall d :: AnyStage(was, d, Decide(was, name, cu).value, cu.blob, bytes) ==> Good(d)
  {
    hide Parsed, Text, Decide, CleanUnits, Sound, BlobName;
    var cu := Named(hash, bytes, given);
    BlobNameOneLine(hash, bytes);
    PlanIsSound(was, name, cu);
    var m := Decide(was, name, cu).value;
    forall d | AnyStage(was, d, m, cu.blob, bytes) ensures Good(d) {
      if d.manifest == Some(Text(m)) && ManifestStage(was, d, m, cu.blob, bytes) {
        WrittenIsGood(d, m);
      }
    }
  }

  /** Every blob under the units directory is named after its content. */
  ghost predicate Addressed(hash: seq<Byte> -> Digest, d: Disk) {
    forall b :: b in d.blobs ==> b == BlobName(hash, d.blobs[b])
  }

  lemma AddressedAt(hash: seq<Byte> -> Digest, d: Disk, b: string)
    requires Addressed(hash, d) && b in d.blobs
    ensures b == BlobName(hash, d.blobs[b])
  {
  }

  /** No blob already there has other bytes and the same half digest. */
  ghost predicate TellsApart(hash: seq<Byte> -> Digest, d: Disk, bytes: seq<Byte>) {
    forall b :: b in d.blobs && hash(d.blobs[b])[..16] == hash(bytes)[..16] ==> d.blobs[b] == bytes
  }

  /** An existing file needs no write: content addressing goes on whatever the bytes, and the unit's blob is the
      bytes given exactly when no blob of other bytes shares their half digest. */
  lemma {:induction false} BlobIsGiven(was: Disk, d: Disk, hash: seq<Byte> -> Digest, m: Library, cu: Cu, bytes: seq<Byte>)
    requires Addressed(hash, was) && cu.blob == BlobName(hash, bytes)
    requires AnyStage(was, d, m, cu.blob, bytes)
    ensures Addressed(hash, d)
    ensures cu.blob in d.blobs ==> (d.blobs[cu.blob] == bytes <==> TellsApart(hash, was, bytes))
  {
    hide BlobName, Text;
    forall b | b in was.blobs ensures b == cu.blob <==> hash(was.blobs[b])[..16] == hash(bytes)[..16] {
      BlobNamesAgree(hash, was.blobs[b], bytes);
    }
  }

  method Supersede(cus: seq<Cu>, cu: Cu) returns (retained: seq<Cu>, slot: Option<nat>)
    ensures retained == Retained(cus, cu) && slot == Slot(cus, cu)
  {
    hide Superseded;
    retained, slot := [], None;
    for i := 0 to |cus|
      invariant retained == Retained(cus[..i], cu) && slot == Slot(cus[..i], cu)
    {
      assert cus[..i + 1][..i] == cus[..i];
      if Superseded(cus[i], cu) {
        if slot.None? { slot := Some(|retained|); }
      } else {
        retained := retained + [cus[i]];
      }
    }
    assert cus[..|cus|] == cus;
  }

  method Redefinition(cus: seq<Cu>, names: set<string>) returns (r: Option<string>)
    ensures r == FirstDup(cus, names)
  {
    var i := 0;
    assert cus[0..] == cus;
    while i < |cus|
      invariant 0 <= i <= |cus| && FirstDup(cus[i..], names) == FirstDup(cus, names)
    {
      var units := cus[i].units;
      assert cus[i..][1..] == cus[i + 1..];
      var k := 0;
      assert units[0..] == units;
      while k < |units|
        invariant 0 <= k <= |units| && FirstDupIn(units[k..], names) == FirstDupIn(units, names)
      {
        assert units[k..][1..] == units[k + 1..];
        if units[k].1 in names {
          return Some(units[k].1);
        }
        k := k + 1;
      }
      i := i + 1;
    }
    r := None;
  }

  /** A blob no unit names can go. */
  lemma StageLosesDead(was: Disk, d: Disk, m: Library, blob: string, bytes: seq<Byte>, b: string)
    requires ManifestStage(was, d, m, blob, bytes) && blob in Live(m) && b !in Live(m)
    ensures ManifestStage(was, Disk(d.manifest, d.blobs - {b}), m, blob, bytes)
  {
    hide Text, Live;
  }

  /** Read back, the library has the unit given, and the blob of that unit holds the bytes. */
  predicate Recorded(d: Disk, given: Cu, bytes: seq<Byte>) {
    d.manifest.Some? && Parsed(d.manifest.value).Ok?
    && exists c :: c in Parsed(d.manifest.value).value.cus && c == given.(blob := c.blob)
                   && c.blob in d.blobs && d.blobs[c.blob] == bytes
  }

  lemma {:induction false} AddedIsRecorded(was: Disk, d: Disk, hash: seq<Byte> -> Digest, name: string, bytes: seq<Byte>, given: Cu)
    requires Good(was) && CleanUnits(given.units) && Decide(was, name, Named(hash, bytes, given)).Ok?
    requires Addressed(hash, was)
    requires ManifestStage(was, d, Decide(was, name, Named(hash, bytes, given)).value, Named(hash, bytes, given).blob, bytes)
    ensures Recorded(d, given, bytes) <==> TellsApart(hash, was, bytes)
  {
    hide Parsed, Text, Decide, CleanUnits, Sound, BlobName, TellsApart, Addressed;
    var cu := Named(hash, bytes, given);
    BlobNameOneLine(hash, bytes);
    PlanIsSound(was, name, cu);
    var m := Decide(was, name, cu).value;
    SoundIsClean(m);
    RoundTrip(m);
    BlobIsGiven(was, d, hash, m, cu, bytes);
    if TellsApart(hash, was, bytes) {
      assert cu in m.cus && cu == given.(blob := cu.blob);
    } else if Recorded(d, given, bytes) {
      var c :| c in Parsed(d.manifest.value).value.cus && c == given.(blob := c.blob) && c.blob in d.blobs && d.blobs[c.blob] == bytes;
      AddressedAt(hash, d, c.blob);
    }
  }

  /** Content addressing goes on, and once the manifest is replaced the unit can be read back exactly when no blob of
      other bytes stood in its place. */
  lemma {:induction false} AddedIsAddressed(was: Disk, d: Disk, hash: seq<Byte> -> Digest, name: string, bytes: seq<Byte>, given: Cu)
    requires Decide(was, name, Named(hash, bytes, given)).Ok? && Addressed(hash, was)
    requires AnyStage(was, d, Decide(was, name, Named(hash, bytes, given)).value, Named(hash, bytes, given).blob, bytes)
    ensures Addressed(hash, d)
    ensures Good(was) && CleanUnits(given.units)
            && ManifestStage(was, d, Decide(was, name, Named(hash, bytes, given)).value, Named(hash, bytes, given).blob, bytes) ==>
              (Recorded(d, given, bytes) <==> TellsApart(hash, was, bytes))
  {
    hide Good, ManifestStage, BlobStage, Decide, BlobName, TellsApart, Addressed, Recorded;
    var cu, m := Named(hash, bytes, given), Decide(was, name, Named(hash, bytes, given)).value;
    BlobIsGiven(was, d, hash, m, cu, bytes);
    if Good(was) && CleanUnits(given.units) && ManifestStage(was, d, m, cu.blob, bytes) {
      AddedIsRecorded(was, d, hash, name, bytes, given);
    }
  }

  class Store {
    var manifest: Option<string>
    var blobs: map<string, seq<Byte>>
    /** Every state the disk has been in since the store was opened. */
    ghost var states: seq<Disk>

    constructor ()
      ensures Now() == Disk(None, map[]) && states == [] && Valid()
    {
      manifest, blobs, states := None, map[], [];
    }

    function Now(): Disk
      reads this
    {
      Disk(manifest, blobs)
    }

    /** Good now, and good at every step so far. */
    ghost predicate Valid()
      reads this
    {
      Good(Now()) && forall k :: 0 <= k < |states| ==> Good(states[k])
    }

    method WriteBlob(name: string, bytes: seq<Byte>)
      modifies this
      ensures Now() == Disk(old(manifest), old(blobs)[name := bytes]) && states == old(states) + [Now()]
    {
      blobs := blobs[name := bytes];
      states := states + [Now()];
    }

    method WriteManifest(text: string)
      modifies this
      ensures Now() == Disk(Some(text), old(blobs)) && states == old(states) + [Now()]
    {
      manifest := Some(text);
      states := states + [Now()];
    }

    /** Remove the blobs no unit names, as far as that succeeds. */
    method Collect(ghost was: Disk, m: Library, ghost blob: string, ghost bytes: seq<Byte>, luck: Luck)
      requires blob in Live(m) && ManifestStage(was, Now(), m, blob, bytes)
      modifies this
      ensures |old(states)| <= |states| && states[..|old(states)|] == old(states)
      ensures forall k :: |old(states)| <= k < |states| ==> ManifestStage(was, states[k], m, blob, bytes)
      ensures ManifestStage(was, Now(), m, blob, bytes)
      ensures forall b :: b in blobs && EndsWith(b, ".vu") && luck.removes(b) ==> b in Live(m)
    {
      hide Text, EndsWith, ManifestStage, Live;
      var live := Live(m);
      var todo := blobs.Keys;
      while todo != {}
        invariant |old(states)| <= |states| && states[..|old(states)|] == old(states)
        invariant forall k :: |old(states)| <= k < |states| ==> ManifestStage(was, states[k], m, blob, bytes)
        invariant ManifestStage(was, Now(), m, blob, bytes)
        invariant forall b :: b in blobs && EndsWith(b, ".vu") && luck.removes(b) ==> b in live || b in todo
        decreases |todo|
      {
        var b :| b in todo;
        todo := todo - {b};
        if EndsWith(b, ".vu") && b !in live && luck.removes(b) {
          StageLosesDead(was, Now(), m, blob, bytes, b);
          Remove(b);
        }
      }
    }

    method Remove(name: string)
      modifies this
      ensures Now() == Disk(old(manifest), old(blobs) - {name}) && states == old(states) + [Now()]
    {
      blobs := blobs - {name};
      states := states + [Now()];
    }

    /** Record a freshly compiled unit. */
    method AddCu(hash: seq<Byte> -> Digest, name: string, bytes: seq<Byte>, given: Cu, luck: Luck) returns (r: AddResult)
      modifies this
      ensures |old(states)| <= |states| && states[..|old(states)|] == old(states)
      ensures var plan := Decide(old(Now()), name, Named(hash, bytes, given));
        plan.Err? ==> r == Refused(plan.error) && Now() == old(Now()) && states == old(states)
      ensures var cu, plan := Named(hash, bytes, given), Decide(old(Now()), name, Named(hash, bytes, given));
        plan.Ok? ==>
          && !r.Refused?
          && (forall k :: |old(states)| <= k < |states| ==> AnyStage(old(Now()), states[k], plan.value, cu.blob, bytes))
          && (r.Added? ==> ManifestStage(old(Now()), Now(), plan.value, cu.blob, bytes))
          && (r.WriteFailed? ==> BlobStage(old(Now()), Now(), cu.blob, bytes))
      ensures old(Valid()) && CleanUnits(given.units) ==> Valid()
      ensures old(Addressed(hash, Now())) ==> Addressed(hash, Now())
      ensures old(Addressed(hash, Now()) && Valid()) && CleanUnits(given.units) && r.Added? ==>
        (Recorded(Now(), given, bytes) <==> TellsApart(hash, old(Now()), bytes))
    {
      hide Parsed, Text, Superseded, Retained, Slot, FirstDup, RecordsNewline, BlobName, UnitNames, Good, ManifestStage,
           BlobStage, Recorded, TellsApart, Addressed, CleanUnits;
      var cus: seq<Cu> := [];
      if manifest.Some? {
        var m := Parse(manifest.value);
        if m.Err? {
          return Refused(Unreadable(m.error));
        }
        if m.value.name != name {
          return Refused(OtherLibrary(m.value.name));
        }
        cus := m.value.cus;
      }
      var cu := Named(hash, bytes, given);
      if RecordsNewline(name, cu) {
        return Refused(Newline);
      }
      var retained, slot := Supersede(cus, cu);
      var dup := Redefinition(retained, UnitNames(cu));
      if dup.Some? {
        return Refused(Duplicate(dup.value));
      }
      SlotBound(cus, cu);
      var at := OrElse(slot, |retained|);
      var m := Library(name, retained[..at] + [cu] + retained[at..]);
      assert Decide(Now(), name, cu) == Ok(m);
      ghost var was := Now();
      r := Write(m, cu, bytes, luck);
      if Good(was) && CleanUnits(given.units) { StagesAreGood(was, hash, name, bytes, given); }
      if Addressed(hash, was) { AddedIsAddressed(was, Now(), hash, name, bytes, given); }
    }

    method Write(m: Library, cu: Cu, bytes: seq<Byte>, luck: Luck) returns (r: AddResult)
      requires cu in m.cus
      modifies this
      ensures |old(states)| <= |states| && states[..|old(states)|] == old(states) && !r.Refused?
      ensures forall k :: |old(states)| <= k < |states| ==> AnyStage(old(Now()), states[k], m, cu.blob, bytes)
      ensures r.Added? ==> ManifestStage(old(Now()), Now(), m, cu.blob, bytes)
      ensures r.WriteFailed? ==> BlobStage(old(Now()), Now(), cu.blob, bytes)
    {
      hide Text;
      if !luck.makesDir {
        return WriteFailed;
      }
      if cu.blob !in blobs {
        if !luck.writesBlob {
          return WriteFailed;
        }
        WriteBlob(cu.blob, bytes);
      }
      if !luck.writesManifest {
        return WriteFailed;
      }
      var text := Emit(m);
      WriteManifest(text);
      Collect(old(Now()), m, cu.blob, bytes, luck);
      r := Added;
    }
  }
}
