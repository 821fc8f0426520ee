/** Path strings, and the purely lexical `.`/`..` normalisation. */
module Paths {
  datatype Comp = Root | Cur | Up | Name(text: string)

  type Path = seq<Comp>

  // ---- strings ----

  predicate IsAbsolute(s: string) { s != "" && s[0] == '/' }

  /** The end of the segment that starts at `i`. */
  function SegmentEnd(s: string, i: nat): (j: nat)
    requires i <= |s|
    ensures i <= j <= |s| && (j < |s| ==> s[j] == '/')
    decreases |s| - i
  {
    if i < |s| && s[i] != '/' then SegmentEnd(s, i + 1) else i
  }

  function Segment(s: string): Path {
    if s == "" then [] else if s == "." then [Cur] else if s == ".." then [Up] else [Name(s)]
  }

  function SegmentsFrom(s: string, i: nat): (p: Path)
    requires i <= |s|
    ensures Root !in p
    decreases |s| - i
  {
    var j := SegmentEnd(s, i);
    Segment(s[i..j]) + if j < |s| then SegmentsFrom(s, j + 1) else []
  }

  function Components(s: string): (p: Path)
    ensures Rooted(p)
  {
    (if IsAbsolute(s) then [Root] else []) + SegmentsFrom(s, 0)
  }

  function CompText(c: Comp): string {
    match c
    case Root => "/"
    case Cur => "."
    case Up => ".."
    case Name(t) => t
  }

  function Render(p: Path): string {
    if p == [] then ""
    else
      var front := Render(p[..|p| - 1]);
      front + (if front == "" || front == "/" then "" else "/") + CompText(p[|p| - 1])
  }

  // ---- normalisation ----

  /** A root component stands only at the head. */
  predicate Rooted(p: Path) {
    forall k :: 1 <= k < |p| ==> p[k] != Root
  }

  /** Where a path leads: from the root or from the start, how often it climbs at the very top, and the
      names it then descends through. */
  datatype Place = Place(abs: bool, climbs: nat, names: seq<string>)

  function Step(at: Place, c: Comp): Place {
    match c
    case Root => Place(true, 0, [])
    case Cur => at
    case Up => if at.names == [] then at.(climbs := at.climbs + 1) else at.(names := at.names[..|at.names| - 1])
    case Name(t) => at.(names := at.names + [t])
  }

  function Follow(p: Path): Place {
    if p == [] then Place(false, 0, []) else Step(Follow(p[..|p| - 1]), p[|p| - 1])
  }

  /** Whether two paths lead to the same place. The root is its own parent; a start directory is not. */
  predicate SamePlace(p: Path, q: Path) {
    var x, y := Follow(p), Follow(q);
    x.abs == y.abs && x.names == y.names && (!x.abs ==> x.climbs == y.climbs)
  }

  function Names(names: seq<string>): (p: Path)
    ensures |p| == |names|
    ensures forall k :: 0 <= k < |p| ==> p[k] == Name(names[k])
  {
    seq(|names|, k requires 0 <= k < |names| => Name(names[k]))
  }

  function Head(at: Place): Path {
    (if at.abs then [Root] else []) + (if at.climbs % 2 == 1 then [Up] else [])
  }

  function Form(at: Place): Path {
    Head(at) + Names(at.names)
  }

  function Normal(p: Path): Path {
    Form(Follow(p))
  }

  lemma {:induction false} StepForm(at: Place, c: Comp)
    ensures c.Up? ==>
      Form(Step(at, c)) == if Form(at) == [] || Form(at) == [Root] then Form(at) + [Up] else Form(at)[..|Form(at)| - 1]
    ensures c.Name? ==> Form(Step(at, c)) == Form(at) + [c]
    ensures c.Root? ==> Form(Step(at, c)) == [Root]
  {
    hide Form, Step;
    if c.Up? {
      if at.names == [] { ClimbForm(at); } else { LeaveForm(at); }
    }
    if c.Name? { EnterForm(at, c.text); }
    if c.Root? { RootForm(at); }
  }

  lemma ClimbForm(at: Place)
    requires at.names == []
    ensures Form(Step(at, Up)) == if Form(at) == [] || Form(at) == [Root] then Form(at) + [Up] else Form(at)[..|Form(at)| - 1]
  {
    var root := if at.abs then [Root] else [];
    assert Form(at) == Head(at) && Form(Step(at, Up)) == Head(Step(at, Up));
    if at.climbs % 2 == 1 {
      assert (at.climbs + 1) % 2 == 0;
      assert Form(at) == root + [Up] && (root + [Up])[..|root|] == root;
    } else {
      assert Form(at) == root && Form(Step(at, Up)) == root + [Up];
    }
  }

  lemma LeaveForm(at: Place)
    requires at.names != []
    ensures Form(at) != [] && Form(at) != [Root]
    ensures Form(Step(at, Up)) == Form(at)[..|Form(at)| - 1]
  {
    var less := at.names[..|at.names| - 1];
    assert Form(at)[|Form(at)| - 1] == Name(at.names[|at.names| - 1]);
    assert Names(at.names)[..|less|] == Names(less);
    assert Form(at)[..|Form(at)| - 1] == Head(at) + Names(less);
  }

  lemma EnterForm(at: Place, t: string)
    ensures Form(Step(at, Name(t))) == Form(at) + [Name(t)]
  {
    assert Names(at.names + [t]) == Names(at.names) + [Name(t)];
  }

  lemma RootForm(at: Place)
    ensures Form(Step(at, Root)) == [Root]
  {
  }

  lemma ParityForm(at: Place)
    ensures Form(at.(climbs := at.climbs % 2)) == Form(at)
  {
  }

  /** Drop `.`, and let each `..` take the last component away, whatever that is, unless only the root
      or nothing is left. */
  method LexicalNormalize(p: Path) returns (out: Path)
    requires Rooted(p)
    ensures out == Normal(p)
  {
    hide Form, Step;
    out := [];
    var k := 0;
    StartForm();
    while k < |p|
      invariant 0 <= k <= |p| && out == Form(Follow(p[..k]))
    {
      assert p[..k + 1][..k] == p[..k];
      StepForm(Follow(p[..k]), p[k]);
      CurStays(Follow(p[..k]));
      match p[k] {
        case Cur =>
        case Up =>
          if out == [] || out == [Root] {
            out := out + [Up];
          } else {
            out := out[..|out| - 1];
          }
        case Root => out := [Root];
        case Name(_) => out := out + [p[k]];
      }
      k := k + 1;
    }
    assert p[..|p|] == p;
  }

  lemma StartForm()
    ensures Form(Follow([])) == []
  {
  }

  lemma CurStays(at: Place)
    ensures Step(at, Cur) == at
  {
  }

  lemma {:induction false} FollowOne(p: Path, c: Comp)
    ensures Follow(p + [c]) == Step(Follow(p), c)
  {
    assert (p + [c])[..|p|] == p;
  }

  lemma {:induction false} FollowNames(head: Path, names: seq<string>)
    requires Follow(head).names == []
    ensures Follow(head + Names(names)) == Follow(head).(names := names)
  {
    if names == [] {
      assert head + Names(names) == head;
    } else {
      var less, last := names[..|names| - 1], names[|names| - 1];
      FollowNames(head, less);
      assert less + [last] == names;
      FollowOne(head + Names(less), Name(last));
      assert Names(names) == Names(less) + [Name(last)];
      assert head + Names(names) == head + Names(less) + [Name(last)];
    }
  }

  lemma FollowHead(at: Place)
    ensures Follow(Head(at)) == Place(at.abs, at.climbs % 2, [])
  {
    assert [Root, Up][..1] == [Root];
    assert Follow([Root]) == Place(true, 0, []);
  }

  lemma {:induction false} FollowNormal(p: Path)
    ensures Follow(Normal(p)) == Follow(p).(climbs := Follow(p).climbs % 2)
  {
    FollowHead(Follow(p));
    FollowNames(Head(Follow(p)), Follow(p).names);
  }

  /** The normal form leads where the path leads exactly when the path is absolute or climbs at most one
      level above its start: a second `..` takes the first one away. */
  lemma {:induction false} NormalLeadsThere(p: Path)
    ensures SamePlace(Normal(p), p) <==> Follow(p).abs || Follow(p).climbs <= 1
  {
    FollowNormal(p);
  }

  lemma {:induction false} NormalTwice(p: Path)
    ensures Normal(Normal(p)) == Normal(p)
  {
    hide Form, Follow;
    FollowNormal(p);
    ParityForm(Follow(p));
  }

  /** Two absolute paths have one normal form exactly when they lead to the same place and climb above
      the root equally often, up to an even number of times. */
  lemma {:induction false} NormalFormsAgree(p: Path, q: Path)
    requires Follow(p).abs && Follow(q).abs
    ensures Normal(p) == Normal(q) <==> SamePlace(p, q) && Follow(p).climbs % 2 == Follow(q).climbs % 2
  {
    FollowNormal(p);
    FollowNormal(q);
  }

  /** `../../a` becomes `a`; `/..` keeps a form of its own. */
  lemma ClimbsAreLost()
    ensures Normal([Up, Up, Name("a")]) == [Name("a")] && !SamePlace([Up, Up, Name("a")], [Name("a")])
    ensures Normal([Root, Up]) == [Root, Up] && SamePlace([Root, Up], [Root])
  {
    StartForm();
    FollowOne([], Up);
    FollowOne([Up], Up);
    FollowOne([Up, Up], Name("a"));
    FollowOne([], Name("a"));
    FollowOne([], Root);
    FollowOne([Root], Up);
    assert [] + [Up] == [Up] && [Up] + [Up] == [Up, Up] && [Up, Up] + [Name("a")] == [Up, Up, Name("a")];
    assert [] + [Name("a")] == [Name("a")] && [] + [Root] == [Root] && [Root] + [Up] == [Root, Up];
  }
}
