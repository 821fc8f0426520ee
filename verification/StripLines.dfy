/** Which characters of a filelist reach the expander: an account by position, independent of how the lines are put
    together. A character of code is dropped only with a `#` line, with its newline, or behind the backslash that
    continues its line. */
module StripLines {
  import opened Wrappers
  import opened Strings
  import opened CommentStrip

  // ---- one line of tagged characters ----

  predicate NoNewline(t: seq<Ch>) { forall k :: 0 <= k < |t| ==> t[k].c != '\n' }

  /** The first character that is no space is `#`. */
  predicate Hashed(u: seq<Ch>) {
    exists h :: 0 <= h < |u| && u[h].c == '#' && forall j :: 0 <= j < h ==> IsSpace(u[j].c)
  }

  /** `p` is a backslash with nothing but space behind it. */
  predicate EndsLine(u: seq<Ch>, p: int) {
    0 <= p < |u| && u[p].c == '\\' && forall j :: p < j < |u| ==> IsSpace(u[j].c)
  }

  predicate LineKeeps(u: seq<Ch>, k: int) {
    0 <= k < |u| && !Hashed(u) && !exists p :: 0 <= p <= k && EndsLine(u, p)
  }

  lemma {:induction false} HashMeans(s: string)
    ensures StartsWithHash(s) <==> exists h :: 0 <= h < |s| && s[h] == '#' && forall j :: 0 <= j < h ==> IsSpace(s[j])
  {
    if s != [] && s[0] != '#' && IsSpace(s[0]) {
      HashMeans(s[1..]);
      if h :| 0 <= h < |s[1..]| && s[1..][h] == '#' && forall j :: 0 <= j < h ==> IsSpace(s[1..][j]) {
        assert s[h + 1] == '#' && forall j :: 0 <= j < h + 1 ==> IsSpace(s[j]) by {
          forall j | 0 <= j < h + 1 ensures IsSpace(s[j]) { if j > 0 { assert s[1..][j - 1] == s[j]; } }
        }
      }
      if h :| 0 <= h < |s| && s[h] == '#' && forall j :: 0 <= j < h ==> IsSpace(s[j]) {
        assert h > 0 && s[1..][h - 1] == '#';
        assert forall j :: 0 <= j < h - 1 ==> s[1..][j] == s[j + 1];
      }
    }
  }

  lemma HashedIs(u: seq<Ch>)
    ensures Hashed(u) <==> StartsWithHash(Text(u))
  {
    var s := Text(u);
    HashMeans(s);
    assert forall j :: 0 <= j < |u| ==> s[j] == u[j].c;
    if h :| 0 <= h < |s| && s[h] == '#' && forall j :: 0 <= j < h ==> IsSpace(s[j]) {
      forall j | 0 <= j < h ensures IsSpace(u[j].c) { assert IsSpace(s[j]); }
      assert u[h].c == '#';
    }
    if h :| 0 <= h < |u| && u[h].c == '#' && forall j :: 0 <= j < h ==> IsSpace(u[j].c) {
      assert s[h] == '#' && forall j :: 0 <= j < h ==> IsSpace(s[j]);
    }
  }

  lemma {:induction false} BackslashIs(u: seq<Ch>, k: nat)
    requires k < |u|
    ensures var n := TrimmedLength(Text(u));
      (exists p :: 0 <= p <= k && EndsLine(u, p)) <==> n > 0 && u[n - 1].c == '\\' && k >= n - 1
  {
    var s := Text(u);
    var n := TrimmedLength(s);
    assert IsSpace('\\') == false;
    assert forall j :: 0 <= j < |u| ==> s[j] == u[j].c;
    if n > 0 && u[n - 1].c == '\\' { assert EndsLine(u, n - 1); }
    forall p | EndsLine(u, p) ensures p == n - 1 {
      assert s[p] == '\\' && p < n;
      assert n - 1 <= p;
    }
  }

  /** Index `k` of the text carries position `i` of the body. */
  predicate Tagged(t: seq<Ch>, k: int, i: nat) { 0 <= k < |t| && t[k].src == Some(i) }

  lemma {:induction false} SourceIs(t: seq<Ch>, i: nat)
    ensures i in Sources(t) <==> exists k :: Tagged(t, k, i)
  {
    if t != [] {
      SourceIs(t[1..], i);
      if k :| Tagged(t[1..], k, i) { assert Tagged(t, k + 1, i); }
      if k :| Tagged(t, k, i) {
        if k > 0 { assert Tagged(t[1..], k - 1, i); } else { assert t[0].src == Some(i); }
      }
      if t[0].src == Some(i) { assert Tagged(t, 0, i); }
    }
  }

  /** What is copied out of one line. */
  lemma {:induction false} FlushCopies(u: seq<Ch>, i: nat)
    ensures i in Sources(Flush(u)) <==> exists k :: Tagged(u, k, i) && LineKeeps(u, k)
  {
    hide Hashed, EndsLine, StartsWithHash, Text, TrimmedLength;
    SourceIs(Flush(u), i);
    var n := TrimmedLength(Text(u));
    HashedIs(u);
    forall k: nat | k < |u|
      ensures LineKeeps(u, k) <==> !StartsWithHash(Text(u)) && !(n > 0 && u[n - 1].c == '\\' && k >= n - 1)
    {
      BackslashIs(u, k);
    }
    if k :| Tagged(Flush(u), k, i) { assert Tagged(u, k, i) && LineKeeps(u, k); }
    if k :| Tagged(u, k, i) && LineKeeps(u, k) { assert Tagged(Flush(u), k, i); }
  }

  // ---- a text of several lines ----

  predicate IsLine(t: seq<Ch>, lo: int, hi: int) {
    0 <= lo <= hi <= |t| && (lo == 0 || t[lo - 1].c == '\n') && (hi == |t| || t[hi].c == '\n')
    && forall m :: lo <= m < hi ==> t[m].c != '\n'
  }

  predicate KeptOn(t: seq<Ch>, lo: int, hi: int, k: int) { IsLine(t, lo, hi) && lo <= k < hi && LineKeeps(t[lo..hi], k - lo) }

  predicate Survives(t: seq<Ch>, k: int) { exists lo, hi :: 0 <= lo <= hi <= |t| && KeptOn(t, lo, hi, k) }

  function FirstNewline(t: seq<Ch>): (e: nat)
    ensures e <= |t| && (e < |t| ==> t[e].c == '\n') && forall k :: 0 <= k < e ==> t[k].c != '\n'
  {
    if t == [] || t[0].c == '\n' then 0
    else
      var e := 1 + FirstNewline(t[1..]);
      assert forall k :: 0 < k < e ==> t[k] == t[1..][k - 1];
      e
  }

  /** Reading goes on line by line. */
  lemma {:induction false} LinesStep(t: seq<Ch>, line: seq<Ch>, e: nat)
    requires e == FirstNewline(t)
    ensures Lines(t, line) ==
      if e < |t| then Flush(line + t[..e]) + Lines(t[e + 1..], [])
      else if line + t == [] then [] else Flush(line + t)
  {
    hide Flush;
    if t == [] {
      assert line + t == line;
    } else if t[0].c == '\n' {
      assert line + t[..0] == line;
    } else {
      LinesStep(t[1..], line + [t[0]], e - 1);
      assert line + [t[0]] + t[1..] == line + t;
      assert line + [t[0]] + t[1..][..e - 1] == line + t[..e];
      if e < |t| { assert t[1..][e..] == t[e + 1..]; }
    }
  }

  /** The first line ends at the first newline, and every other line lies behind it. */
  lemma FirstLine(t: seq<Ch>, lo: int, hi: int)
    requires IsLine(t, lo, hi)
    ensures lo == 0 ==> hi == FirstNewline(t)
    ensures lo > 0 ==> lo > FirstNewline(t)
  {
  }

  lemma {:induction false} LaterLine(t: seq<Ch>, e: nat, lo: int, hi: int, k: int)
    requires e < |t| && t[e].c == '\n' && e < lo
    ensures KeptOn(t, lo, hi, k) <==> KeptOn(t[e + 1..], lo - e - 1, hi - e - 1, k - e - 1)
  {
    hide LineKeeps;
    var r, d := t[e + 1..], e + 1;
    if lo <= hi <= |t| {
      assert t[lo..hi] == r[lo - d..hi - d];
      assert forall m :: d <= m < |t| ==> t[m] == r[m - d];
      assert (forall m :: lo <= m < hi ==> t[m].c != '\n') <==> (forall m :: lo - d <= m < hi - d ==> r[m].c != '\n') by {
        if forall m :: lo - d <= m < hi - d ==> r[m].c != '\n' {
          forall m | lo <= m < hi ensures t[m].c != '\n' { assert r[m - d].c != '\n'; }
        }
      }
    }
  }

  /** What a text copies, by index. */
  lemma {:induction false} LinesCopy(t: seq<Ch>, i: nat)
    ensures i in Sources(Lines(t, [])) <==> exists k :: Tagged(t, k, i) && Survives(t, k)
    decreases |t|
  {
    hide Flush, LineKeeps, IsLine;
    var e := FirstNewline(t);
    LinesStep(t, [], e);
    assert [] + t == t && [] + t[..e] == t[..e];
    var u := t[..e];
    FlushCopies(u, i);
    FirstIsLine(t);
    if e < |t| {
      LinesCopy(t[e + 1..], i);
      SourcesAppend(Flush(u), Lines(t[e + 1..], []));
    } else {
      assert u == t;
      NothingFlushed(i);
    }
    if i in Sources(Lines(t, [])) { CopiedSurvives(t, e, i); }
    if k :| Tagged(t, k, i) && Survives(t, k) { SurvivorCopied(t, e, i, k); }
  }

  lemma FirstIsLine(t: seq<Ch>)
    ensures IsLine(t, 0, FirstNewline(t))
  {
  }

  lemma NothingFlushed(i: nat)
    ensures i !in Sources([])
  {
  }

  lemma {:induction false} SourcesAppend(x: seq<Ch>, y: seq<Ch>)
    ensures Sources(x + y) == Sources(x) + Sources(y)
  {
    hide Sources;
    if x == [] {
      assert x + y == y;
      NoSources();
    } else {
      assert x + y == [x[0]] + (x[1..] + y) && x == [x[0]] + x[1..];
      SourcesAppend(x[1..], y);
      SourcesStep(x[0], x[1..] + y);
      SourcesStep(x[0], x[1..]);
    }
  }

  lemma LineOf(t: seq<Ch>, k: int) returns (lo: int, hi: int)
    requires Survives(t, k)
    ensures 0 <= lo <= hi <= |t| && KeptOn(t, lo, hi, k)
  {
    lo, hi :| 0 <= lo <= hi <= |t| && KeptOn(t, lo, hi, k);
  }

  predicate Surviving(t: seq<Ch>, i: nat) { exists k :: 0 <= k < |t| && Tagged(t, k, i) && Survives(t, k) }

  lemma {:induction false} CopiedSurvives(t: seq<Ch>, e: nat, i: nat)
    requires e == FirstNewline(t) && IsLine(t, 0, e)
    requires (exists k :: Tagged(t[..e], k, i) && LineKeeps(t[..e], k))
          || (e < |t| && Surviving(t[e + 1..], i))
    ensures exists k :: Tagged(t, k, i) && Survives(t, k)
  {
    hide LineKeeps, IsLine;
    if k :| Tagged(t[..e], k, i) && LineKeeps(t[..e], k) {
      assert t[0..e] == t[..e];
      assert KeptOn(t, 0, e, k) && Tagged(t, k, i);
    } else {
      var r := t[e + 1..];
      var k :| 0 <= k < |r| && Tagged(r, k, i) && Survives(r, k);
      var lo, hi := LineOf(r, k);
      LaterLine(t, e, lo + e + 1, hi + e + 1, k + e + 1);
      assert KeptOn(t, lo + e + 1, hi + e + 1, k + e + 1) && Tagged(t, k + e + 1, i);
    }
  }

  lemma {:induction false} SurvivorCopied(t: seq<Ch>, e: nat, i: nat, k: int)
    requires e == FirstNewline(t) && Tagged(t, k, i) && Survives(t, k)
    ensures (Tagged(t[..e], k, i) && LineKeeps(t[..e], k))
         || (e < |t| && Tagged(t[e + 1..], k - e - 1, i) && Survives(t[e + 1..], k - e - 1))
  {
    hide LineKeeps;
    var lo, hi :| 0 <= lo <= hi <= |t| && KeptOn(t, lo, hi, k);
    FirstLine(t, lo, hi);
    if lo == 0 {
      assert t[0..hi] == t[..e];
    } else {
      LaterLine(t, e, lo, hi, k);
    }
  }

  // ---- the body itself, by position ----

  predicate IsCode(b: string, i: int) { 0 <= i < |b| && ModeAt(b, i).Code? }

  /** A logical line of the body: between newlines that belong to no comment. */
  predicate LogicalLine(b: string, lo: int, hi: int) {
    0 <= lo <= hi <= |b| && (lo == 0 || (IsCode(b, lo - 1) && b[lo - 1] == '\n'))
    && (hi == |b| || (IsCode(b, hi) && b[hi] == '\n'))
    && forall m :: lo <= m < hi && IsCode(b, m) ==> b[m] != '\n'
  }

  /** The first character of the line that is neither comment nor space is `#`. */
  predicate HashAt(b: string, lo: int, hi: int, h: int) {
    0 <= lo <= h < hi <= |b| && IsCode(b, h) && b[h] == '#' && forall j :: lo <= j < h && IsCode(b, j) ==> IsSpace(b[j])
  }

  /** A backslash behind which the line holds comment and space only. */
  predicate BackslashAt(b: string, lo: int, hi: int, p: int) {
    0 <= lo <= p < hi <= |b| && IsCode(b, p) && b[p] == '\\' && forall j :: p < j < hi && IsCode(b, j) ==> IsSpace(b[j])
  }

  predicate StaysOn(b: string, lo: int, hi: int, i: int) {
    LogicalLine(b, lo, hi) && lo <= i < hi && IsCode(b, i)
    && !(exists h :: lo <= h < hi && HashAt(b, lo, hi, h)) && !(exists p :: lo <= p <= i && BackslashAt(b, lo, hi, p))
  }

  /** The character reaches the output. */
  predicate Stays(b: string, i: int) { exists lo, hi :: 0 <= lo <= hi <= |b| && StaysOn(b, lo, hi, i) }

  /** The text read from the body: its tags increase, inserted characters are spaces, and every character of code
      is there. */
  ghost predicate Carries(b: string, t: seq<Ch>) {
    (forall k :: 0 <= k < |t| ==> if t[k].src.Some? then IsCode(b, t[k].src.value) && t[k].c == b[t[k].src.value] else t[k].c == ' ')
    && (forall j, k :: 0 <= j < k < |t| && t[j].src.Some? && t[k].src.Some? ==> t[j].src.value < t[k].src.value)
    && (forall i: nat :: i in Sources(t) <==> IsCode(b, i))
  }

  /** Where the line of the text begins and ends in the body. */
  function BodyStart(t: seq<Ch>, lo: int): int
    requires 0 <= lo <= |t|
  {
    if lo == 0 then 0 else if t[lo - 1].src.Some? then t[lo - 1].src.value + 1 else 0
  }

  function BodyStop(b: string, t: seq<Ch>, hi: int): int
    requires 0 <= hi <= |t|
  {
    if hi == |t| then |b| else if t[hi].src.Some? then t[hi].src.value else 0
  }

  lemma IndexOfCode(b: string, t: seq<Ch>, i: nat) returns (k: int)
    requires Carries(b, t) && IsCode(b, i)
    ensures Tagged(t, k, i)
  {
    SourceIs(t, i);
    k :| Tagged(t, k, i);
  }

  /** Index and position lie on a line together. */
  lemma {:induction false} InLine(b: string, t: seq<Ch>, lo: int, hi: int, k: int, i: nat)
    requires Carries(b, t) && IsLine(t, lo, hi) && Tagged(t, k, i)
    ensures lo <= k < hi <==> BodyStart(t, lo) <= i < BodyStop(b, t, hi)
  {
    assert lo > 0 ==> t[lo - 1].src.Some?;
    assert hi < |t| ==> t[hi].src.Some?;
  }

  lemma {:induction false} BodyLine(b: string, t: seq<Ch>, lo: int, hi: int)
    requires Carries(b, t) && IsLine(t, lo, hi)
    ensures LogicalLine(b, BodyStart(t, lo), BodyStop(b, t, hi))
  {
    var x, y := BodyStart(t, lo), BodyStop(b, t, hi);
    assert lo > 0 ==> t[lo - 1].src.Some?;
    assert hi < |t| ==> t[hi].src.Some?;
    forall m | x <= m < y && IsCode(b, m) ensures b[m] != '\n' {
      var k := IndexOfCode(b, t, m);
      InLine(b, t, lo, hi, k, m);
    }
  }

  lemma {:induction false} HashMoves(b: string, t: seq<Ch>, lo: int, hi: int)
    requires Carries(b, t) && IsLine(t, lo, hi)
    ensures var x, y := BodyStart(t, lo), BodyStop(b, t, hi);
      Hashed(t[lo..hi]) <==> exists h :: x <= h < y && HashAt(b, x, y, h)
  {
    hide BodyStart, BodyStop, IsCode, Carries, Hashed, HashAt, IsLine;
    BodyLine(b, t, lo, hi);
    var x, y := LineBounds(b, t, lo, hi);
    if Hashed(t[lo..hi]) { var q := HashDown(b, t, lo, hi); }
    if q :| x <= q < y && HashAt(b, x, y, q) { HashUp(b, t, lo, hi, q); }
  }

  lemma LineBounds(b: string, t: seq<Ch>, lo: int, hi: int) returns (x: int, y: int)
    requires IsLine(t, lo, hi)
    ensures 0 <= lo <= hi <= |t| && x == BodyStart(t, lo) && y == BodyStop(b, t, hi)
  {
    x, y := BodyStart(t, lo), BodyStop(b, t, hi);
  }

  lemma {:induction false} HashDown(b: string, t: seq<Ch>, lo: int, hi: int) returns (q: int)
    requires Carries(b, t) && IsLine(t, lo, hi) && Hashed(t[lo..hi])
    ensures BodyStart(t, lo) <= q < BodyStop(b, t, hi) && HashAt(b, BodyStart(t, lo), BodyStop(b, t, hi), q)
  {
    hide BodyStart, BodyStop, IsCode, Hashed;
    var u := LineText(t, lo, hi);
    var h := HashPlace(u);
    var x, y := LineBounds(b, t, lo, hi);
    BodyLine(b, t, lo, hi);
    q := t[lo + h].src.value;
    InLine(b, t, lo, hi, lo + h, q);
    forall j: int | x <= j < q && IsCode(b, j) ensures IsSpace(b[j]) {
      var k := IndexAt(b, t, lo, hi, j);
      assert u[k - lo] == t[k];
    }
  }

  lemma HashPlace(u: seq<Ch>) returns (h: int)
    requires Hashed(u)
    ensures 0 <= h < |u| && u[h].c == '#' && forall j :: 0 <= j < h ==> IsSpace(u[j].c)
  {
    h :| 0 <= h < |u| && u[h].c == '#' && forall j :: 0 <= j < h ==> IsSpace(u[j].c);
  }

  lemma {:induction false} HashUp(b: string, t: seq<Ch>, lo: int, hi: int, q: int)
    requires Carries(b, t) && IsLine(t, lo, hi) && HashAt(b, BodyStart(t, lo), BodyStop(b, t, hi), q)
    ensures Hashed(t[lo..hi])
  {
    hide BodyStart, BodyStop, IsCode;
    var u := LineText(t, lo, hi);
    var h := IndexAt(b, t, lo, hi, q);
    forall j | 0 <= j < h - lo ensures IsSpace(u[j].c) { SpaceAt(b, t, lo, hi, lo + j, BodyStart(t, lo), q); }
    assert u[h - lo].c == '#';
  }

  function LineText(t: seq<Ch>, lo: int, hi: int): (u: seq<Ch>)
    requires IsLine(t, lo, hi)
    ensures u == t[lo..hi] && 0 <= lo <= hi <= |t| && |u| == hi - lo && forall j :: 0 <= j < |u| ==> u[j] == t[lo + j]
  {
    t[lo..hi]
  }

  lemma IndexAt(b: string, t: seq<Ch>, lo: int, hi: int, i: int) returns (k: int)
    requires Carries(b, t) && IsLine(t, lo, hi) && IsCode(b, i) && BodyStart(t, lo) <= i < BodyStop(b, t, hi)
    ensures 0 <= i && lo <= k < hi && Tagged(t, k, i)
  {
    k := IndexOfCode(b, t, i);
    InLine(b, t, lo, hi, k, i);
  }

  /** What stands before position `q` in the line is space, as it is in the body. */
  lemma SpaceAt(b: string, t: seq<Ch>, lo: int, hi: int, k: int, x: int, q: int)
    requires Carries(b, t) && IsLine(t, lo, hi) && lo <= k < hi && x == BodyStart(t, lo)
    requires t[k].src.Some? ==> t[k].src.value < q
    requires forall j :: x <= j < q && IsCode(b, j) ==> IsSpace(b[j])
    ensures IsSpace(t[k].c)
  {
    if t[k].src.Some? { InLine(b, t, lo, hi, k, t[k].src.value); }
  }

  lemma {:induction false} BackslashMoves(b: string, t: seq<Ch>, lo: int, hi: int, k: int, i: nat)
    requires Carries(b, t) && IsLine(t, lo, hi) && lo <= k < hi && Tagged(t, k, i)
    ensures var x, y := BodyStart(t, lo), BodyStop(b, t, hi);
      (exists p :: 0 <= p <= k - lo && EndsLine(t[lo..hi], p)) <==> exists p :: x <= p <= i && BackslashAt(b, x, y, p)
  {
    hide BodyStart, BodyStop, IsCode, EndsLine, BackslashAt, IsLine;
    var x, y := LineBounds(b, t, lo, hi);
    if p :| 0 <= p <= k - lo && EndsLine(t[lo..hi], p) {
      var q := BackslashDown(b, t, lo, hi, p);
    }
    if q :| x <= q <= i && BackslashAt(b, x, y, q) {
      var p := BackslashUp(b, t, lo, hi, q);
    }
  }

  lemma {:induction false} BackslashDown(b: string, t: seq<Ch>, lo: int, hi: int, p: int) returns (q: int)
    requires Carries(b, t) && IsLine(t, lo, hi) && EndsLine(t[lo..hi], p)
    ensures BackslashAt(b, BodyStart(t, lo), BodyStop(b, t, hi), q) && BodyStart(t, lo) <= q
    ensures forall k: int, i: nat :: lo + p <= k && Tagged(t, k, i) ==> q <= i
  {
    hide BodyStart, BodyStop, IsCode;
    var u := LineText(t, lo, hi);
    var x, y := LineBounds(b, t, lo, hi);
    BodyLine(b, t, lo, hi);
    q := t[lo + p].src.value;
    InLine(b, t, lo, hi, lo + p, q);
    forall j: int | q < j < y && IsCode(b, j) ensures IsSpace(b[j]) {
      var m := IndexAt(b, t, lo, hi, j);
      assert u[m - lo] == t[m];
    }
  }

  lemma {:induction false} BackslashUp(b: string, t: seq<Ch>, lo: int, hi: int, q: int) returns (p: int)
    requires Carries(b, t) && IsLine(t, lo, hi) && BackslashAt(b, BodyStart(t, lo), BodyStop(b, t, hi), q)
    ensures 0 <= p && EndsLine(t[lo..hi], p)
    ensures forall k: int, i: nat :: q <= i && Tagged(t, k, i) ==> p <= k - lo
  {
    hide BodyStart, BodyStop, IsCode;
    var u := LineText(t, lo, hi);
    var h := IndexAt(b, t, lo, hi, q);
    forall j | h - lo < j < |u| ensures IsSpace(u[j].c) { SpaceBehind(b, t, lo, hi, lo + j, BodyStop(b, t, hi), q); }
    p := h - lo;
    assert EndsLine(u, p);
  }

  lemma SpaceBehind(b: string, t: seq<Ch>, lo: int, hi: int, k: int, y: int, q: int)
    requires Carries(b, t) && IsLine(t, lo, hi) && lo <= k < hi && y == BodyStop(b, t, hi)
    requires t[k].src.Some? ==> q < t[k].src.value
    requires forall j :: q < j < y && IsCode(b, j) ==> IsSpace(b[j])
    ensures IsSpace(t[k].c)
  {
    if t[k].src.Some? { InLine(b, t, lo, hi, k, t[k].src.value); }
  }

  lemma {:induction false} KeepsMoves(b: string, t: seq<Ch>, lo: int, hi: int, k: int, i: nat)
    requires Carries(b, t) && IsLine(t, lo, hi) && lo <= k < hi && Tagged(t, k, i)
    ensures LineKeeps(t[lo..hi], k - lo) <==> StaysOn(b, BodyStart(t, lo), BodyStop(b, t, hi), i)
  {
    hide Hashed, EndsLine, HashAt, BackslashAt, BodyStart, BodyStop;
    HashMoves(b, t, lo, hi);
    BackslashMoves(b, t, lo, hi, k, i);
    BodyLine(b, t, lo, hi);
    InLine(b, t, lo, hi, k, i);
  }

  /** A character lies on one line only. */
  lemma OneLogicalLine(b: string, lo: int, hi: int, x: int, y: int, i: int)
    requires LogicalLine(b, lo, hi) && LogicalLine(b, x, y) && lo <= i < hi && x <= i < y
    ensures lo == x && hi == y
  {
    assert lo < x ==> IsCode(b, x - 1);
    assert x < lo ==> IsCode(b, lo - 1);
  }

  lemma {:induction false} LineAround(t: seq<Ch>, k: nat) returns (lo: int, hi: int)
    requires k < |t| && t[k].c != '\n'
    ensures IsLine(t, lo, hi) && lo <= k < hi
  {
    lo, hi := k, k + 1;
    while lo > 0 && t[lo - 1].c != '\n'
      invariant 0 <= lo <= k && forall m :: lo <= m <= k ==> t[m].c != '\n'
    {
      lo := lo - 1;
    }
    while hi < |t| && t[hi].c != '\n'
      invariant k < hi <= |t| && forall m :: lo <= m < hi ==> t[m].c != '\n'
    {
      hi := hi + 1;
    }
  }

  lemma {:induction false} SurvivesStays(b: string, t: seq<Ch>, k: int, i: nat)
    requires Carries(b, t) && Tagged(t, k, i)
    ensures Survives(t, k) <==> Stays(b, i)
  {
    hide LineKeeps, StaysOn, BodyStart, BodyStop;
    if Survives(t, k) {
      var lo, hi := LineOf(t, k);
      KeepsMoves(b, t, lo, hi, k, i);
      BodyLine(b, t, lo, hi);
      assert StaysOn(b, BodyStart(t, lo), BodyStop(b, t, hi), i);
    }
    if Stays(b, i) {
      var x, y :| 0 <= x <= y <= |b| && StaysOn(b, x, y, i);
      NoNewlineStays(b, x, y, i);
      var lo, hi := LineAround(t, k);
      BodyLine(b, t, lo, hi);
      InLine(b, t, lo, hi, k, i);
      OneLogicalLine(b, x, y, BodyStart(t, lo), BodyStop(b, t, hi), i);
      KeepsMoves(b, t, lo, hi, k, i);
      assert KeptOn(t, lo, hi, k);
    }
  }

  lemma NoNewlineStays(b: string, x: int, y: int, i: int)
    requires StaysOn(b, x, y, i)
    ensures LogicalLine(b, x, y) && x <= i < y && b[i] != '\n'
  {
  }

  // ---- the text that is read ----

  lemma {:induction false} CodeFromIs(b: string, i: nat, k: nat)
    requires i <= |b|
    ensures k in CodeFrom(b, i) <==> i <= k && IsCode(b, k)
    decreases |b| - i
  {
    if i < |b| { CodeFromIs(b, i + 1, k); }
  }

  /** Characters of code from `i` on, in order, and inserted spaces. */
  predicate ReadFrom(b: string, t: seq<Ch>, i: nat) {
    (forall k :: 0 <= k < |t| ==>
      if t[k].src.Some? then i <= t[k].src.value && IsCode(b, t[k].src.value) && t[k].c == b[t[k].src.value] else t[k].c == ' ')
    && forall j, k :: 0 <= j < k < |t| && t[j].src.Some? && t[k].src.Some? ==> t[j].src.value < t[k].src.value
  }

  lemma {:induction false} Reads(b: string, i: nat)
    requires i <= |b| && Fresh(b, i) && Uncommented(b, i).Ok?
    ensures ReadFrom(b, Uncommented(b, i).value, i)
    decreases |b| - i
  {
    hide ModeAt, ReadFrom, Fresh, BlockEnd, LineEnd;
    if i == |b| {
      ReadNothing(b, i);
    } else if Pair(b, i, '/', '/') {
      LineSkipped(b, i, LineEnd(b, i));
      Reads(b, LineEnd(b, i));
      ReadEarlier(b, Uncommented(b, i).value, LineEnd(b, i), i);
    } else if Pair(b, i, '/', '*') {
      var end := BlockEnd(b, i + 2).value;
      ClosedBlock(b, i, end);
      Reads(b, end);
      ReadSpace(b, Uncommented(b, end).value, end, i);
    } else {
      CodeAt(b, i);
      Reads(b, i + 1);
      ReadCode(b, Uncommented(b, i + 1).value, i);
    }
  }

  lemma ReadNothing(b: string, i: nat)
    ensures ReadFrom(b, [], i)
  {
  }

  lemma ReadEarlier(b: string, t: seq<Ch>, j: nat, i: nat)
    requires ReadFrom(b, t, j) && i <= j
    ensures ReadFrom(b, t, i)
  {
  }

  lemma ReadSpace(b: string, t: seq<Ch>, j: nat, i: nat)
    requires ReadFrom(b, t, j) && i <= j
    ensures ReadFrom(b, [Ch(' ', None)] + t, i)
  {
  }

  lemma ReadCode(b: string, t: seq<Ch>, i: nat)
    requires ReadFrom(b, t, i + 1) && IsCode(b, i)
    ensures ReadFrom(b, [Ch(b[i], Some(i))] + t, i)
  {
  }

  lemma {:induction false} UncommentedCarries(b: string)
    requires Uncommented(b, 0).Ok?
    ensures Carries(b, Uncommented(b, 0).value)
  {
    hide ModeAt, Sources, Uncommented;
    FreshStart(b);
    Reads(b, 0);
    UncommentedModes(b, 0);
    forall i: nat ensures i in CodeFrom(b, 0) <==> IsCode(b, i) { CodeFromIs(b, 0, i); }
  }

  predicate Increasing(s: seq<nat>) { forall j, k :: 0 <= j < k < |s| ==> s[j] < s[k] }

  /** Position `i` of the body reaches the output exactly when it is code, on a line that does not begin with `#`,
      and neither the line's newline nor behind a backslash that ends the line. */
  lemma {:induction false} SurvivesExactly(b: string, i: nat)
    requires Stripped(b).Ok?
    ensures i in Sources(Stripped(b).value) <==> Stays(b, i)
  {
    hide ModeAt, Lines, Sources, Survives, Stays, Carries, Uncommented;
    var t := Uncommented(b, 0).value;
    UncommentedCarries(b);
    LinesCopy(t, i);
    if k :| Tagged(t, k, i) && Survives(t, k) { SurvivesStays(b, t, k, i); }
    if Stays(b, i) {
      StaysIsCode(b, i);
      var k := IndexOfCode(b, t, i);
      SurvivesStays(b, t, k, i);
    }
  }

  lemma StaysIsCode(b: string, i: nat)
    requires Stays(b, i)
    ensures IsCode(b, i)
  {
  }

  // ---- order, and the reported line ----

  /** The positions copied from rise. */
  predicate Rising(t: seq<Ch>) {
    forall j, k :: 0 <= j < k < |t| && t[j].src.Some? && t[k].src.Some? ==> t[j].src.value < t[k].src.value
  }

  predicate From(x: seq<Ch>, t: seq<Ch>) {
    forall j :: 0 <= j < |x| && x[j].src.Some? ==> x[j] in t
  }

  lemma {:induction false} FlushRises(line: seq<Ch>)
    requires Rising(line)
    ensures Rising(Flush(line)) && From(Flush(line), line)
  {
    hide StartsWithHash, Text, TrimmedLength;
  }

  lemma {:induction false} LinesRise(t: seq<Ch>)
    requires Rising(t)
    ensures Rising(Lines(t, [])) && From(Lines(t, []), t)
    decreases |t|
  {
    hide Flush, Lines, Rising, From, FirstNewline;
    var e := FirstNewline(t);
    LinesStep(t, [], e);
    assert [] + t == t && [] + t[..e] == t[..e];
    PartsRise(t, e);
    FlushRises(t[..e]);
    if e < |t| {
      LinesRise(t[e + 1..]);
      JoinRises(t, e, Flush(t[..e]), Lines(t[e + 1..], []));
    } else {
      assert t[..e] == t;
    }
  }

  lemma PartsRise(t: seq<Ch>, e: nat)
    requires Rising(t) && e <= |t|
    ensures Rising(t[..e]) && Rising([]) && From([], t)
    ensures e < |t| ==> Rising(t[e + 1..])
  {
  }

  lemma JoinRises(t: seq<Ch>, e: nat, x: seq<Ch>, y: seq<Ch>)
    requires e < |t| && Rising(t) && Rising(x) && Rising(y) && From(x, t[..e]) && From(y, t[e + 1..])
    ensures Rising(x + y) && From(x + y, t)
  {
    forall j, k | 0 <= j < |x| && 0 <= k < |y| && x[j].src.Some? && y[k].src.Some?
      ensures x[j].src.value < y[k].src.value
    {
      var m :| 0 <= m < e && t[..e][m] == x[j];
      var n :| 0 <= n < |t[e + 1..]| && t[e + 1..][n] == y[k];
      assert t[m] == x[j] && t[n + e + 1] == y[k];
    }
  }

  /** The output keeps the order of the body, and each character copied is the one that stands there. */
  lemma {:induction false} OrderStays(b: string)
    requires Stripped(b).Ok?
    ensures Rising(Stripped(b).value)
    ensures forall k :: 0 <= k < |Stripped(b).value| && Stripped(b).value[k].src.Some? ==>
      Stripped(b).value[k].src.value < |b| && Stripped(b).value[k].c == b[Stripped(b).value[k].src.value]
  {
    hide ModeAt, Lines, Uncommented;
    UncommentedCarries(b);
    LinesRise(Uncommented(b, 0).value);
    NothingJoins(b);
    forall k | 0 <= k < |Stripped(b).value| ensures Honest(b, Stripped(b).value[k]) {}
  }

  /** The count of newlines is that of the positions that hold one. */
  lemma {:induction false} NewlinesCount(s: string)
    ensures Newlines(s) == |set k: nat | k < |s| && s[k] == '\n'|
  {
    var all := set k: nat | k < |s| && s[k] == '\n';
    if s == [] {
      assert all == {};
    } else {
      var n := |s| - 1;
      NewlinesCount(s[..n]);
      var less := set k: nat | k < |s[..n]| && s[..n][k] == '\n';
      assert all == less + if s[n] == '\n' then {n} else {};
    }
  }
}
