/** The stamp fast path of the staleness gate, against the full rehash, over the history of a file. */
module Freshness {
  import opened Wrappers
  import opened Escapes

  /** A file at an instant. The modification time is missing where it cannot be read or lies before the epoch. */
  datatype File = Missing | Present(bytes: seq<Byte>, mtime: Option<(nat, nat)>, readable: bool)

  datatype Stamp = Stamp(secs: nat, nanos: nat, size: nat)

  datatype Freshness = Fresh | Changed | Unreadable

  /** The states of one file, instant by instant. */
  type History = seq<File>

  predicate CanRead(f: File) { f.Present? && f.readable }

  /** The live fingerprint of a file that can be examined. */
  function Fingerprint(f: File): Option<Stamp> {
    if f.Present? && f.mtime.Some? then Some(Stamp(f.mtime.value.0, f.mtime.value.1, |f.bytes|)) else None
  }

  /** Hash the bytes read at one instant and stamp them with the fingerprint taken at a later one. */
  method StampVerified(hash: seq<Byte> -> Digest, want: Digest, atRead: File, atStat: File) returns (s: Option<Stamp>)
    ensures s == StampOf(hash, want, atRead, atStat)
  {
    if !CanRead(atRead) {
      return None;
    }
    var data := atRead.bytes;
    if hash(data) != want {
      return None;
    }
    if !atStat.Present? {
      return None;
    }
    if |atStat.bytes| != |data| {
      return None;
    }
    if atStat.mtime.None? {
      return None;
    }
    s := Some(Stamp(atStat.mtime.value.0, atStat.mtime.value.1, |atStat.bytes|));
  }

  function StampOf(hash: seq<Byte> -> Digest, want: Digest, atRead: File, atStat: File): Option<Stamp> {
    if CanRead(atRead) && hash(atRead.bytes) == want && atStat.Present? && |atStat.bytes| == |atRead.bytes|
    then Fingerprint(atStat)
    else None
  }

  /** The authoritative answer. */
  function Rehash(hash: seq<Byte> -> Digest, want: Digest, f: File): Freshness {
    if !CanRead(f) then Unreadable else if hash(f.bytes) == want then Fresh else Changed
  }

  predicate Matches(stamp: Option<Stamp>, f: File) { stamp.Some? && Fingerprint(f) == stamp }

  function Checked(hash: seq<Byte> -> Digest, want: Digest, stamp: Option<Stamp>, f: File): Freshness {
    if Matches(stamp, f) then Fresh else Rehash(hash, want, f)
  }

  /** Trust a matching fingerprint; otherwise hash the live bytes. */
  method CheckFresh(hash: seq<Byte> -> Digest, want: Digest, stamp: Option<Stamp>, f: File) returns (r: Freshness)
    ensures r == Checked(hash, want, stamp, f)
  {
    if stamp.Some? {
      if f.Present? {
        var live := f.mtime;
        if live.Some? {
          if |f.bytes| == stamp.value.size && live.value.0 == stamp.value.secs && live.value.1 == stamp.value.nanos {
            return Fresh;
          }
        }
      }
    }
    if !CanRead(f) {
      return Unreadable;
    }
    r := if hash(f.bytes) == want then Fresh else Changed;
  }

  // ---- over a history ----

  /** Two states of a file that its second, its nanosecond and its length do not tell apart. */
  predicate SameLook(f: File, g: File) {
    f.Present? && g.Present? && f.mtime.Some? && g.mtime.Some?
    && f.mtime.value.0 == g.mtime.value.0 && f.mtime.value.1 == g.mtime.value.1 && |f.bytes| == |g.bytes|
  }

  /** Different contents never look the same. */
  ghost predicate FreshWrites(h: History) {
    forall i, j :: 0 <= i < j < |h| && SameLook(h[i], h[j]) ==> h[i].bytes == h[j].bytes
  }

  /** A live fingerprint is the recorded one exactly when second, nanosecond and length all are. */
  lemma FingerprintsEqual(f: File, g: File)
    ensures Fingerprint(f).Some? <==> f.Present? && f.mtime.Some?
    ensures Fingerprint(f).Some? && Fingerprint(f) == Fingerprint(g) <==> SameLook(f, g)
  {
  }

  /** Nothing is written between the read and the stat. */
  predicate Undisturbed(h: History, read: nat, stat: nat) {
    read <= stat < |h| && h[read].Present? && h[stat].Present? && h[read].bytes == h[stat].bytes
  }

  /** For a readable file whose every change shows in its fingerprint, and a stamp taken undisturbed, the fast
      path says at every later instant what hashing the live bytes would say. */
  lemma {:induction false} FastPathAgrees(hash: seq<Byte> -> Digest, want: Digest, h: History, read: nat, stat: nat, now: nat)
    requires FreshWrites(h) && Undisturbed(h, read, stat) && stat <= now < |h| && (h[now].Present? ==> h[now].readable)
    ensures Checked(hash, want, StampOf(hash, want, h[read], h[stat]), h[now]) == Rehash(hash, want, h[now])
    ensures CanRead(h[now]) ==>
      (Checked(hash, want, StampOf(hash, want, h[read], h[stat]), h[now]).Fresh? <==> hash(h[now].bytes) == want)
  {
  }

  // ---- the gate over everything a snapshot consumed ----

  /** A recorded input: its digest, its stamp, and the file as it is now. */
  datatype Entry = Entry(want: Digest, stamp: Option<Stamp>, live: File)

  function EntryFresh(hash: seq<Byte> -> Digest, e: Entry): Freshness { Checked(hash, e.want, e.stamp, e.live) }

  /** The first input that is not fresh, and how; or none. */
  method Gate(hash: seq<Byte> -> Digest, entries: seq<Entry>) returns (r: Option<(nat, Freshness)>)
    ensures r.None? <==> forall k :: 0 <= k < |entries| ==> EntryFresh(hash, entries[k]).Fresh?
    ensures r.Some? ==> r.value.0 < |entries| && r.value.1 == EntryFresh(hash, entries[r.value.0]) != Fresh
    ensures r.Some? ==> forall k :: 0 <= k < r.value.0 ==> EntryFresh(hash, entries[k]).Fresh?
  {
    for i := 0 to |entries|
      invariant forall k :: 0 <= k < i ==> EntryFresh(hash, entries[k]).Fresh?
    {
      var e := entries[i];
      var f := CheckFresh(hash, e.want, e.stamp, e.live);
      if f != Fresh {
        return Some((i, f));
      }
    }
    r := None;
  }

  /** An input whose file, at instant `now` of its history, is the entry's, stamped when the snapshot was made. */
  ghost predicate Tracked(hash: seq<Byte> -> Digest, e: Entry, h: History, read: nat, stat: nat, now: nat) {
    FreshWrites(h) && Undisturbed(h, read, stat) && stat <= now < |h| && h[now] == e.live
    && (e.live.Present? ==> e.live.readable) && e.stamp == StampOf(hash, e.want, h[read], h[stat])
  }

  ghost predicate HasHistory(hash: seq<Byte> -> Digest, e: Entry) {
    exists h, read, stat, now :: Tracked(hash, e, h, read, stat, now)
  }

  predicate Unchanged(hash: seq<Byte> -> Digest, e: Entry) { CanRead(e.live) && hash(e.live.bytes) == e.want }

  /** The gate with stamps lets a snapshot run exactly when every input it consumed still has the recorded
      content: the stamps are a shortcut, never a relaxation. */
  lemma {:induction false} GateIsExact(hash: seq<Byte> -> Digest, entries: seq<Entry>)
    requires forall k :: 0 <= k < |entries| ==> HasHistory(hash, entries[k])
    ensures (forall k :: 0 <= k < |entries| ==> EntryFresh(hash, entries[k]).Fresh?)
       <==> (forall k :: 0 <= k < |entries| ==> Unchanged(hash, entries[k]))
  {
    forall k | 0 <= k < |entries| ensures EntryFresh(hash, entries[k]).Fresh? <==> Unchanged(hash, entries[k]) {
      var e := entries[k];
      var h, read, stat, now :| Tracked(hash, e, h, read, stat, now);
      FastPathAgrees(hash, e.want, h, read, stat, now);
    }
  }

  /** In general the two agree at an instant exactly when the fingerprint does not match, or the live file can
      be read and hashes to the recorded digest. */
  lemma AgreesExactly(hash: seq<Byte> -> Digest, want: Digest, stamp: Option<Stamp>, f: File)
    ensures Checked(hash, want, stamp, f) == Rehash(hash, want, f)
        <==> (Matches(stamp, f) ==> CanRead(f) && hash(f.bytes) == want)
  {
  }

  /** The content read was the recorded one, and a write before the stat, which keeps the length, left another. */
  predicate Raced(hash: seq<Byte> -> Digest, want: Digest, atRead: File, atStat: File) {
    CanRead(atRead) && hash(atRead.bytes) == want
    && atStat.Present? && atStat.mtime.Some? && |atStat.bytes| == |atRead.bytes| && hash(atStat.bytes) != want
  }

  /** For a file that stays readable and whose every change shows in its fingerprint, a stamp is safe at every
      later instant exactly when no such write came between the read and the stat: nothing later can spoil it,
      and every such write does. */
  lemma {:induction false} SafeExactly(hash: seq<Byte> -> Digest, want: Digest, h: History, read: nat, stat: nat)
    requires FreshWrites(h) && read <= stat < |h|
    requires forall now: nat :: stat <= now < |h| && h[now].Present? ==> h[now].readable
    ensures var stamp := StampOf(hash, want, h[read], h[stat]);
      (forall now: nat :: stat <= now < |h| ==> Checked(hash, want, stamp, h[now]) == Rehash(hash, want, h[now]))
      <==> !Raced(hash, want, h[read], h[stat])
  {
    var stamp := StampOf(hash, want, h[read], h[stat]);
    if Raced(hash, want, h[read], h[stat]) {
      assert Checked(hash, want, stamp, h[stat]) != Rehash(hash, want, h[stat]);
    } else {
      forall now: nat | stat <= now < |h| && Matches(stamp, h[now])
        ensures CanRead(h[now]) && hash(h[now].bytes) == want
      {
        assert h[now].bytes == h[stat].bytes;
      }
    }
  }

  /** The length comparison does not see every write between the read and the stat: one that keeps the length
      is stamped, and then trusted for good. */
  lemma SameLengthRace(hash: seq<Byte> -> Digest, x: seq<Byte>, y: seq<Byte>, m: (nat, nat))
    requires |x| == |y| && hash(x) != hash(y)
    ensures var read, stat := Present(x, None, true), Present(y, Some(m), true);
      var stamp := StampOf(hash, hash(x), read, stat);
      Checked(hash, hash(x), stamp, stat) == Fresh && Rehash(hash, hash(x), stat) == Changed
  {
  }

  /** Nor does a write that puts the modification time back. */
  lemma FrozenTime(hash: seq<Byte> -> Digest, x: seq<Byte>, y: seq<Byte>, m: (nat, nat))
    requires |x| == |y| && hash(x) != hash(y)
    ensures var f, later := Present(x, Some(m), true), Present(y, Some(m), true);
      var stamp := StampOf(hash, hash(x), f, f);
      Checked(hash, hash(x), stamp, later) == Fresh && Rehash(hash, hash(x), later) == Changed
  {
  }

  /** An unreadable file with the stamped fingerprint passes. */
  lemma UnreadablePasses(hash: seq<Byte> -> Digest, x: seq<Byte>, m: (nat, nat))
    ensures var stamp := StampOf(hash, hash(x), Present(x, Some(m), true), Present(x, Some(m), true));
      Checked(hash, hash(x), stamp, Present(x, Some(m), false)) == Fresh
      && Rehash(hash, hash(x), Present(x, Some(m), false)) == Unreadable
  {
  }
}
