/** Comment removal for filelist bodies: `//` to the end of the line, non-nesting block comments,
    leading-`#` lines, and backslash continuations.
    The specification tags every output character with the position it was copied from, so that what
    is joined, dropped and inserted can be stated. */
module CommentStrip {
  import opened Wrappers
  import opened Strings

  /** An output character: copied from a position of the body, or inserted. */
  datatype Ch = Ch(c: char, src: Option<nat>)

  function Text(t: seq<Ch>): (s: string)
    ensures |s| == |t|
  {
    seq(|t|, i requires 0 <= i < |t| => t[i].c)
  }

  lemma TextAppend(x: seq<Ch>, y: seq<Ch>)
    ensures Text(x + y) == Text(x) + Text(y)
  {
  }

  lemma TextPush(t: seq<Ch>, x: Ch)
    ensures Text(t + [x]) == Text(t) + [x.c]
  {
  }

  predicate Pair(b: string, i: int, p: char, q: char) {
    0 <= i && i + 1 < |b| && b[i] == p && b[i + 1] == q
  }

  // ---- the specification: uncomment, then join lines ----

  function LineEnd(b: string, i: nat): (j: nat)
    requires i <= |b|
    ensures i <= j <= |b| && (j < |b| ==> b[j] == '\n')
    ensures forall k :: i <= k < j ==> b[k] != '\n'
    decreases |b| - i
  {
    if i < |b| && b[i] != '\n' then LineEnd(b, i + 1) else i
  }

  /** The position after the first block-comment close at or after `i`. */
  function BlockEnd(b: string, i: nat): (r: Option<nat>)
    ensures r.Some? ==> i + 2 <= r.value <= |b| && Pair(b, r.value - 2, '*', '/')
    ensures r.Some? ==> forall k :: i <= k < r.value - 2 ==> !Pair(b, k, '*', '/')
    ensures r.None? ==> forall k :: i <= k ==> !Pair(b, k, '*', '/')
    decreases |b| - i
  {
    if i + 1 >= |b| then None
    else if b[i] == '*' && b[i + 1] == '/' then Some(i + 2)
    else BlockEnd(b, i + 1)
  }

  /** The body from `i` on with comments gone, a space for each block comment; or the position of the
      block comment that never closes. */
  function Uncommented(b: string, i: nat): Result<seq<Ch>, nat>
    requires i <= |b|
    decreases |b| - i
  {
    if i == |b| then Ok([])
    else if Pair(b, i, '/', '/') then
      assert LineEnd(b, i) > i;
      Uncommented(b, LineEnd(b, i))
    else if Pair(b, i, '/', '*') then
      var end := BlockEnd(b, i + 2);
      if end.None? then Err(i) else Prepend(Ch(' ', None), Uncommented(b, end.value))
    else Prepend(Ch(b[i], Some(i)), Uncommented(b, i + 1))
  }

  function Prepend(x: Ch, r: Result<seq<Ch>, nat>): Result<seq<Ch>, nat> {
    if r.Err? then r else Ok([x] + r.value)
  }

  predicate StartsWithHash(s: string) {
    s != [] && (s[0] == '#' || (IsSpace(s[0]) && StartsWithHash(s[1..])))
  }

  /** One logical line, finished: dropped, continued, or ended. */
  function Flush(line: seq<Ch>): seq<Ch> {
    var n := TrimmedLength(Text(line));
    if StartsWithHash(Text(line)) then [Ch('\n', None)]
    else if n > 0 && line[n - 1].c == '\\' then line[..n - 1] + [Ch(' ', None)]
    else line + [Ch('\n', None)]
  }

  function Lines(text: seq<Ch>, line: seq<Ch>): seq<Ch> {
    if text == [] then (if line == [] then [] else Flush(line))
    else if text[0].c == '\n' then Flush(line) + Lines(text[1..], [])
    else Lines(text[1..], line + [text[0]])
  }

  function Newlines(s: string): nat {
    if s == [] then 0 else Newlines(s[..|s| - 1]) + if s[|s| - 1] == '\n' then 1 else 0
  }

  /** The stripped body with its tags, or the line of the comment that never closes. */
  function Stripped(b: string): Result<seq<Ch>, nat> {
    var r := Uncommented(b, 0);
    if r.Ok? then Ok(Lines(r.value, []))
    else
      ErrorInside(b, 0);
      Err(1 + Newlines(b[..r.error]))
  }

  lemma {:induction false} ErrorInside(b: string, i: nat)
    requires i <= |b| && Uncommented(b, i).Err?
    ensures i <= Uncommented(b, i).error < |b|
    decreases |b| - i
  {
    if Pair(b, i, '/', '/') {
      ErrorInside(b, LineEnd(b, i));
    } else if Pair(b, i, '/', '*') {
      var end := BlockEnd(b, i + 2);
      if end.Some? { ErrorInside(b, end.value); }
    } else if i < |b| {
      ErrorInside(b, i + 1);
    }
  }

  // ---- the loop ----

  method FlushLine(line: string, ghost tags: seq<Ch>, out: string) returns (r: string)
    requires Text(tags) == line
    ensures r == out + Text(Flush(tags))
  {
    if StartsWithHash(line) {
      r := out + ['\n'];
    } else {
      var n := TrimmedLength(line);
      if n > 0 && line[n - 1] == '\\' {
        TextAppend(tags[..n - 1], [Ch(' ', None)]);
        assert Text(tags[..n - 1]) == line[..n - 1];
        r := out + line[..n - 1] + [' '];
      } else {
        TextAppend(tags, [Ch('\n', None)]);
        r := out + line + ['\n'];
      }
    }
  }

  lemma NewlinesStep(b: string, i: nat)
    requires i < |b|
    ensures Newlines(b[..i + 1]) == Newlines(b[..i]) + if b[i] == '\n' then 1 else 0
  {
    assert b[..i + 1][..i] == b[..i];
  }

  /** The loop has consumed `b[..i]`, written `out` and holds `line`. */
  ghost predicate Midway(b: string, i: nat, out: seq<Ch>, line: seq<Ch>)
    requires i <= |b|
  {
    var whole, rest := Uncommented(b, 0), Uncommented(b, i);
    if rest.Err? then whole == rest
    else whole.Ok? && Lines(whole.value, []) == out + Lines(rest.value, line)
  }

  method SkipLine(b: string, from: nat) returns (i: nat)
    requires from <= |b|
    ensures i == LineEnd(b, from) && Newlines(b[..i]) == Newlines(b[..from])
  {
    i := from;
    while i < |b| && b[i] != '\n'
      invariant from <= i <= |b| && LineEnd(b, i) == LineEnd(b, from) && Newlines(b[..i]) == Newlines(b[..from])
    {
      NewlinesStep(b, i);
      i := i + 1;
    }
  }

  /** From just inside a block comment to just after it, counting lines; or nothing when it never closes. */
  method SkipBlock(b: string, from: nat, line: nat) returns (end: Option<nat>, lineno: nat)
    requires from <= |b| && line == 1 + Newlines(b[..from])
    ensures end == BlockEnd(b, from)
    ensures end.Some? ==> lineno == 1 + Newlines(b[..end.value])
  {
    var i := from;
    lineno := line;
    while true
      invariant from <= i <= |b| && lineno == 1 + Newlines(b[..i])
      invariant BlockEnd(b, i) == BlockEnd(b, from)
      decreases |b| - i
    {
      if i + 1 >= |b| {
        return None, lineno;
      }
      NewlinesStep(b, i);
      if b[i] == '*' && b[i + 1] == '/' {
        NewlinesStep(b, i + 1);
        return Some(i + 2), lineno;
      }
      if b[i] == '\n' { lineno := lineno + 1; }
      i := i + 1;
    }
  }

  method StripComments(b: string) returns (r: Result<string, nat>)
    ensures r.Ok? == Stripped(b).Ok?
    ensures r.Ok? ==> r.value == Text(Stripped(b).value)
    ensures r.Err? ==> r.error == Stripped(b).error
  {
    hide Lines, Flush, Newlines, Text, TrimmedLength;
    var out, line: string := "", "";
    ghost var outTags: seq<Ch>, lineTags: seq<Ch> := [], [];
    var lineno, i := 1, 0;
    StartsMidway(b);
    while i < |b|
      invariant 0 <= i <= |b| && lineno == 1 + Newlines(b[..i])
      invariant Text(outTags) == out && Text(lineTags) == line
      invariant Midway(b, i, outTags, lineTags)
      decreases |b| - i
    {
      if Pair(b, i, '/', '/') {
        i := SkipLine(b, i);
      } else if Pair(b, i, '/', '*') {
        var openLine := lineno;
        NewlinesStep(b, i);
        NewlinesStep(b, i + 1);
        var end;
        end, lineno := SkipBlock(b, i + 2, lineno);
        if end.None? {
          return Err(openLine);
        }
        AfterPrepend(b, i, end.value, Ch(' ', None), outTags, lineTags);
        TextPush(lineTags, Ch(' ', None));
        line, lineTags := line + [' '], lineTags + [Ch(' ', None)];
        i := end.value;
      } else if b[i] == '\n' {
        out := FlushLine(line, lineTags, out);
        AfterNewline(b, i, outTags, lineTags);
        TextAppend(outTags, Flush(lineTags));
        outTags, line, lineTags := outTags + Flush(lineTags), "", [];
        TextOfNothing();
        NewlinesStep(b, i);
        lineno := lineno + 1;
        i := i + 1;
      } else {
        AfterPrepend(b, i, i + 1, Ch(b[i], Some(i)), outTags, lineTags);
        TextPush(lineTags, Ch(b[i], Some(i)));
        line, lineTags := line + [b[i]], lineTags + [Ch(b[i], Some(i))];
        NewlinesStep(b, i);
        i := i + 1;
      }
    }
    EndsMidway(b, outTags, lineTags);
    assert outTags + [] == outTags;
    if line != [] {
      out := FlushLine(line, lineTags, out);
      TextAppend(outTags, Flush(lineTags));
    }
    return Ok(out);
  }

  lemma StartsMidway(b: string)
    ensures Midway(b, 0, [], []) && Newlines(b[..0]) == 0 && Text([]) == ""
  {
    hide Uncommented;
    var whole := Uncommented(b, 0);
    if whole.Ok? { assert [] + Lines(whole.value, []) == Lines(whole.value, []); }
  }

  lemma TextOfNothing()
    ensures Text([]) == ""
  {
  }

  lemma EndsMidway(b: string, out: seq<Ch>, line: seq<Ch>)
    requires Midway(b, |b|, out, line)
    ensures Stripped(b) == Ok(out + if line == [] then [] else Flush(line))
  {
    assert Uncommented(b, |b|) == Ok([]);
  }

  lemma AfterPrepend(b: string, i: nat, j: nat, x: Ch, out: seq<Ch>, line: seq<Ch>)
    requires i <= |b| && j <= |b| && Midway(b, i, out, line) && x.c != '\n'
    requires Uncommented(b, i) == Prepend(x, Uncommented(b, j))
    ensures Midway(b, j, out, line + [x])
  {
    hide Uncommented, Flush;
    var rest := Uncommented(b, j);
    if rest.Ok? {
      assert ([x] + rest.value)[1..] == rest.value;
      assert Lines([x] + rest.value, line) == Lines(rest.value, line + [x]);
    }
  }

  lemma AfterNewline(b: string, i: nat, out: seq<Ch>, line: seq<Ch>)
    requires i < |b| && b[i] == '\n' && Midway(b, i, out, line)
    ensures Midway(b, i + 1, out + Flush(line), [])
  {
    hide Flush;
    var rest := Uncommented(b, i + 1);
    if rest.Ok? {
      var text := [Ch('\n', Some(i))] + rest.value;
      assert Uncommented(b, i) == Ok(text);
      assert text[1..] == rest.value;
      assert Lines(text, line) == Flush(line) + Lines(rest.value, []);
      assert out + (Flush(line) + Lines(rest.value, [])) == out + Flush(line) + Lines(rest.value, []);
    }
  }

  // ---- an independent reading of the body: the class of every character ----

  datatype Mode = Code | LineText | Opener1 | Opener2 | BlockText | Closer1 | Closer2

  function StartMode(b: string, i: nat): Mode
    requires i < |b|
  {
    if Pair(b, i, '/', '/') then LineText else if Pair(b, i, '/', '*') then Opener1 else Code
  }

  /** One left-to-right automaton decides what each character belongs to. */
  function ModeAt(b: string, i: nat): Mode
    requires i < |b|
  {
    if i == 0 then StartMode(b, i)
    else match ModeAt(b, i - 1)
      case Code => StartMode(b, i)
      case LineText => if b[i] == '\n' then StartMode(b, i) else LineText
      case Opener1 => Opener2
      case Opener2 => if Pair(b, i, '*', '/') then Closer1 else BlockText
      case BlockText => if Pair(b, i, '*', '/') then Closer1 else BlockText
      case Closer1 => Closer2
      case Closer2 => StartMode(b, i)
  }

  /** Position `i` is where a fresh character of code would begin. */
  predicate Fresh(b: string, i: nat)
    requires i <= |b|
  {
    i == |b| || ModeAt(b, i) == StartMode(b, i)
  }

  /** A block comment that is really open at `i` and never closes. */
  predicate OpensForever(b: string, i: nat) {
    i < |b| && ModeAt(b, i) == Opener1 && forall k :: i + 2 <= k < |b| ==> !Pair(b, k, '*', '/')
  }

  /** The code characters from `i` on. */
  function CodeFrom(b: string, i: nat): seq<nat>
    requires i <= |b|
    decreases |b| - i
  {
    if i == |b| then [] else (if ModeAt(b, i).Code? then [i] else []) + CodeFrom(b, i + 1)
  }

  function Sources(t: seq<Ch>): seq<nat> {
    if t == [] then [] else (if t[0].src.Some? then [t[0].src.value] else []) + Sources(t[1..])
  }

  lemma {:induction false} LineMode(b: string, i: nat, k: nat)
    requires Pair(b, i, '/', '/') && i <= k < LineEnd(b, i) && Fresh(b, i)
    ensures ModeAt(b, k) == LineText
    decreases k
  {
    if k > i { LineMode(b, i, k - 1); }
  }

  lemma {:induction false} BlockMode(b: string, i: nat, k: nat)
    requires i < k < |b| && Pair(b, i, '/', '*') && Fresh(b, i)
    requires forall m :: i + 2 <= m <= k ==> !Pair(b, m, '*', '/')
    ensures ModeAt(b, k) == if k == i + 1 then Opener2 else BlockText
    decreases k
  {
    if k > i + 1 { BlockMode(b, i, k - 1); }
  }

  /** A stretch without code characters adds none. */
  lemma {:induction false} NoCode(b: string, i: nat, j: nat)
    requires i <= j <= |b| && forall k :: i <= k < j ==> !ModeAt(b, k).Code?
    ensures CodeFrom(b, i) == CodeFrom(b, j)
    decreases j - i
  {
    hide ModeAt;
    if i < j { NoCode(b, i + 1, j); }
  }

  lemma {:induction false} ClosedBlock(b: string, i: nat, end: nat)
    requires Pair(b, i, '/', '*') && Fresh(b, i) && BlockEnd(b, i + 2) == Some(end)
    ensures Fresh(b, end) && CodeFrom(b, i) == CodeFrom(b, end)
    ensures forall k :: i < k < end ==> ModeAt(b, k) != Opener1
  {
    hide BlockEnd;
    var e := end - 2;
    assert i + 2 <= e && Pair(b, e, '*', '/') && forall m :: i + 2 <= m < e ==> !Pair(b, m, '*', '/');
    BlockMode(b, i, e - 1);
    ClosingModes(b, e);
    forall k | i <= k < end ensures !ModeAt(b, k).Code? && (i < k ==> ModeAt(b, k) != Opener1) {
      if k == i { OpenerAt(b, i); } else if k < e { BlockMode(b, i, k); }
    }
    NoCode(b, i, end);
  }

  lemma {:induction false} ClosingModes(b: string, e: nat)
    requires 0 < e && Pair(b, e, '*', '/') && (ModeAt(b, e - 1) == Opener2 || ModeAt(b, e - 1) == BlockText)
    ensures ModeAt(b, e) == Closer1 && ModeAt(b, e + 1) == Closer2 && Fresh(b, e + 2)
  {
  }

  /** The lexing from `i` on agrees with the automaton. */
  ghost predicate Agrees(b: string, i: nat)
    requires i <= |b|
  {
    var u := Uncommented(b, i);
    if u.Err? then i <= u.error && OpensForever(b, u.error)
    else (forall k :: i <= k ==> !OpensForever(b, k)) && Sources(u.value) == CodeFrom(b, i)
  }

  lemma {:induction false} BlockAgrees(b: string, i: nat, end: nat)
    requires i < |b| && Fresh(b, i) && !Pair(b, i, '/', '/') && Pair(b, i, '/', '*') && BlockEnd(b, i + 2) == Some(end)
    requires Agrees(b, end)
    ensures Agrees(b, i)
  {
    hide ModeAt, Sources, CodeFrom;
    OpenerAt(b, i);
    ClosedBlock(b, i, end);
    var r := Uncommented(b, end);
    if r.Ok? {
      SourcesStep(Ch(' ', None), r.value);
      forall k | i <= k ensures !OpensForever(b, k) {
        if k == i { assert Pair(b, end - 2, '*', '/'); }
      }
    }
  }

  lemma {:induction false} CodeAgrees(b: string, i: nat)
    requires i < |b| && Fresh(b, i) && !Pair(b, i, '/', '/') && !Pair(b, i, '/', '*') && Agrees(b, i + 1)
    ensures Agrees(b, i)
  {
    hide ModeAt, Sources;
    CodeAt(b, i);
    var r := Uncommented(b, i + 1);
    if r.Ok? { SourcesStep(Ch(b[i], Some(i)), r.value); }
  }

  /** The lexing agrees with the automaton: it fails at the opener that never closes, and otherwise
      keeps exactly the code characters, in order. */
  lemma {:induction false} UncommentedModes(b: string, i: nat)
    requires i <= |b| && Fresh(b, i)
    ensures Uncommented(b, i).Err? ==> i <= Uncommented(b, i).error && OpensForever(b, Uncommented(b, i).error)
    ensures Uncommented(b, i).Ok? ==> forall k :: i <= k ==> !OpensForever(b, k)
    ensures Uncommented(b, i).Ok? ==> Sources(Uncommented(b, i).value) == CodeFrom(b, i)
    decreases |b| - i
  {
    hide ModeAt, Sources;
    if i == |b| {
      NoSources();
    } else if Pair(b, i, '/', '/') {
      var j := LineEnd(b, i);
      LineSkipped(b, i, j);
      UncommentedModes(b, j);
    } else if Pair(b, i, '/', '*') {
      OpenerAt(b, i);
      var end := BlockEnd(b, i + 2);
      if end.Some? {
        ClosedBlock(b, i, end.value);
        UncommentedModes(b, end.value);
        BlockAgrees(b, i, end.value);
      }
    } else {
      CodeAt(b, i);
      UncommentedModes(b, i + 1);
      CodeAgrees(b, i);
    }
  }

  lemma FreshStart(b: string)
    ensures Fresh(b, 0)
  {
  }

  lemma NoSources()
    ensures Sources([]) == []
  {
  }

  lemma {:induction false} SourcesStep(x: Ch, t: seq<Ch>)
    ensures Sources([x] + t) == (if x.src.Some? then [x.src.value] else []) + Sources(t)
  {
    assert ([x] + t)[1..] == t;
  }

  lemma {:induction false} OpenerAt(b: string, i: nat)
    requires i < |b| && Fresh(b, i) && Pair(b, i, '/', '*')
    ensures ModeAt(b, i) == Opener1
  {
  }

  lemma {:induction false} CodeAt(b: string, i: nat)
    requires i < |b| && Fresh(b, i) && !Pair(b, i, '/', '/') && !Pair(b, i, '/', '*')
    ensures ModeAt(b, i) == Code && Fresh(b, i + 1) && CodeFrom(b, i) == [i] + CodeFrom(b, i + 1)
  {
  }

  lemma {:induction false} LineSkipped(b: string, i: nat, j: nat)
    requires i < |b| && Fresh(b, i) && Pair(b, i, '/', '/') && j == LineEnd(b, i)
    ensures i < j && Fresh(b, j) && CodeFrom(b, i) == CodeFrom(b, j)
    ensures forall k :: i <= k < j ==> ModeAt(b, k) != Opener1
  {
    assert b[i] == '/';
    forall k | i <= k < j ensures ModeAt(b, k) == LineText {
      LineMode(b, i, k);
    }
    NoCode(b, i, j);
    if j < |b| { LineEnds(b, j); }
  }

  lemma {:induction false} LineEnds(b: string, j: nat)
    requires 0 < j < |b| && ModeAt(b, j - 1) == LineText && b[j] == '\n'
    ensures Fresh(b, j)
  {
  }

  /** Stripping fails exactly when a block comment that is really open never closes, and reports that
      comment's line: one more than the newlines before it. */
  lemma {:induction false} FailsExactly(b: string, line: nat)
    ensures Stripped(b) == Err(line)
        <==> exists i: nat :: OpensForever(b, i) && line == 1 + Newlines(b[..i])
  {
    hide Newlines, Lines;
    FreshStart(b);
    UncommentedModes(b, 0);
    if Uncommented(b, 0).Err? {
      ErrorInside(b, 0);
      var i := Uncommented(b, 0).error;
      forall k: nat | OpensForever(b, k) ensures k == i {
        OpensOnce(b, i, k);
      }
    }
  }

  /** After a comment that never closes, nothing opens. */
  lemma {:induction false} NothingOpensAfter(b: string, i: nat, k: nat)
    requires OpensForever(b, i) && i < k < |b|
    ensures ModeAt(b, k) == if k == i + 1 then Opener2 else BlockText
    decreases k
  {
    if k > i + 1 {
      NothingOpensAfter(b, i, k - 1);
      assert !Pair(b, k, '*', '/');
    }
  }

  lemma {:induction false} OpensOnce(b: string, i: nat, k: nat)
    requires OpensForever(b, i) && OpensForever(b, k)
    ensures i == k
  {
    if i < k { NothingOpensAfter(b, i, k); }
    if k < i { NothingOpensAfter(b, k, i); }
  }

  // ---- what the output never holds ----

  /** Every copied character is a code character of the body, every inserted one is a separator. */
  predicate Honest(b: string, x: Ch) {
    if x.src.Some? then x.src.value < |b| && x.c == b[x.src.value] && ModeAt(b, x.src.value).Code?
    else x.c == ' ' || x.c == '\n'
  }

  /** Neighbours are copied from neighbouring positions, unless one of them is a separator. */
  predicate Linked(x: Ch, y: Ch) {
    x.src.Some? && y.src.Some? ==> y.src.value == x.src.value + 1
  }

  predicate Faithful(b: string, t: seq<Ch>) {
    (forall k :: 0 <= k < |t| ==> Honest(b, t[k]))
    && (forall k :: 0 <= k < |t| - 1 ==> Linked(t[k], t[k + 1]))
  }

  /** As `Faithful`, except that a line comment leaves its newline next to what precedes it. */
  predicate LineFaithful(b: string, t: seq<Ch>) {
    (forall k :: 0 <= k < |t| ==> Honest(b, t[k]))
    && (forall k :: 0 <= k < |t| - 1 ==> Linked(t[k], t[k + 1]) || t[k + 1].c == '\n')
  }

  lemma {:induction false} UncommentedFaithful(b: string, i: nat)
    requires i <= |b| && Fresh(b, i) && Uncommented(b, i).Ok?
    ensures LineFaithful(b, Uncommented(b, i).value)
    ensures var t := Uncommented(b, i).value;
      t != [] ==> t[0].src == None || t[0].src == Some(i) || t[0].c == '\n'
    decreases |b| - i
  {
    hide ModeAt;
    if i == |b| {
    } else if Pair(b, i, '/', '/') {
      var j := LineEnd(b, i);
      LineSkipped(b, i, j);
      UncommentedFaithful(b, j);
    } else if Pair(b, i, '/', '*') {
      var end := BlockEnd(b, i + 2).value;
      ClosedBlock(b, i, end);
      UncommentedFaithful(b, end);
    } else {
      CodeAt(b, i);
      UncommentedFaithful(b, i + 1);
    }
  }

  lemma {:induction false} FaithfulJoin(b: string, x: seq<Ch>, y: seq<Ch>)
    requires Faithful(b, x) && Faithful(b, y)
    requires x != [] && y != [] ==> Linked(x[|x| - 1], y[0])
    ensures Faithful(b, x + y)
  {
    hide Honest, Linked;
    var t := x + y;
    forall k | 0 <= k < |t| - 1 ensures Linked(t[k], t[k + 1]) {
      if k + 1 < |x| {
        assert t[k] == x[k] && t[k + 1] == x[k + 1];
      } else if k >= |x| {
        assert t[k] == y[k - |x|] && t[k + 1] == y[k + 1 - |x|];
      }
    }
  }

  lemma SeparatorHonest(b: string, x: Ch)
    requires x == Ch('\n', None) || x == Ch(' ', None)
    ensures Honest(b, x)
  {
  }

  lemma {:induction false} FlushFaithful(b: string, line: seq<Ch>)
    requires Faithful(b, line)
    ensures Faithful(b, Flush(line)) && Flush(line) != [] && Flush(line)[|Flush(line)| - 1].src == None
  {
    hide Honest;
    var n := TrimmedLength(Text(line));
    var nl, sp := Ch('\n', None), Ch(' ', None);
    SeparatorHonest(b, nl);
    SeparatorHonest(b, sp);
    assert n > 0 ==> Faithful(b, line[..n - 1]);
    FaithfulJoin(b, line, [nl]);
    if n > 0 { FaithfulJoin(b, line[..n - 1], [sp]); }
  }

  lemma {:induction false} LinesFaithful(b: string, text: seq<Ch>, line: seq<Ch>)
    requires LineFaithful(b, text) && Faithful(b, line)
    requires line != [] && text != [] ==> Linked(line[|line| - 1], text[0]) || text[0].c == '\n'
    ensures Faithful(b, Lines(text, line))
  {
    hide Honest, Linked, Flush;
    if text == [] {
      if line != [] { FlushFaithful(b, line); }
    } else if text[0].c == '\n' {
      FlushFaithful(b, line);
      LinesFaithful(b, text[1..], []);
      NoneLinks(Flush(line), Lines(text[1..], []));
      FaithfulJoin(b, Flush(line), Lines(text[1..], []));
    } else {
      FaithfulJoin(b, line, [text[0]]);
      LinesFaithful(b, text[1..], line + [text[0]]);
    }
  }

  lemma NoneLinks(x: seq<Ch>, y: seq<Ch>)
    requires x != [] && x[|x| - 1].src == None
    ensures y != [] ==> Linked(x[|x| - 1], y[0])
  {
  }

  /** Nothing is joined: two neighbouring characters of the output are neighbours in the body, both
      outside every comment, or one of them is an inserted separator. */
  lemma {:induction false} NothingJoins(b: string)
    requires Stripped(b).Ok?
    ensures Faithful(b, Stripped(b).value)
  {
    hide ModeAt;
    FreshStart(b);
    UncommentedFaithful(b, 0);
    LinesFaithful(b, Uncommented(b, 0).value, []);
  }

  /** No comment opener survives. */
  lemma {:induction false} NoOpenerSurvives(b: string, k: int)
    requires Stripped(b).Ok?
    ensures !Pair(Text(Stripped(b).value), k, '/', '/') && !Pair(Text(Stripped(b).value), k, '/', '*')
  {
    hide Stripped;
    NothingJoins(b);
    var t := Stripped(b).value;
    if 0 <= k < |t| - 1 && t[k].c == '/' && (t[k + 1].c == '/' || t[k + 1].c == '*') {
      assert Honest(b, t[k]) && Honest(b, t[k + 1]) && Linked(t[k], t[k + 1]);
      CodeIsNoOpener(b, t[k].src.value);
    }
  }

  lemma {:induction false} CodeIsNoOpener(b: string, i: nat)
    requires i < |b| && ModeAt(b, i).Code?
    ensures !Pair(b, i, '/', '/') && !Pair(b, i, '/', '*')
  {
  }
}
