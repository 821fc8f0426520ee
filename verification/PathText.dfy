/** Path strings and paths: reading back what was rendered, so that a resolved target is the file it names. */
module PathText {
  import opened Paths
  import opened Filelist

  /** A component as a string can spell it. */
  predicate SpelledComp(c: Comp) {
    c.Name? ==> c.text != "" && c.text != "." && c.text != ".." && '/' !in c.text
  }

  predicate Spelled(p: Path) { Rooted(p) && forall k :: 0 <= k < |p| ==> SpelledComp(p[k]) }

  lemma {:induction false} SegmentsSpelled(s: string, i: nat)
    requires i <= |s|
    ensures Spelled(SegmentsFrom(s, i))
    decreases |s| - i
  {
    hide SegmentsFrom, Segment, SpelledComp;
    var j := SegmentEnd(s, i);
    NoSlash(s, i);
    SegmentsStep(s, i);
    OneSpelled(s[i..j]);
    if j < |s| { SegmentsSpelled(s, j + 1); }
  }

  lemma OneSpelled(t: string)
    requires '/' !in t
    ensures Spelled(Segment(t)) && Root !in Segment(t)
  {
  }

  lemma {:induction false} NoSlash(s: string, i: nat)
    requires i <= |s|
    ensures '/' !in s[i..SegmentEnd(s, i)]
    decreases |s| - i
  {
    if i < |s| && s[i] != '/' {
      NoSlash(s, i + 1);
      assert s[i..SegmentEnd(s, i)] == [s[i]] + s[i + 1..SegmentEnd(s, i)];
    }
  }

  lemma ComponentsSpelled(s: string)
    ensures Spelled(Components(s)) && (IsAbsolute(s) <==> Components(s) != [] && Components(s)[0] == Root)
  {
    SegmentsSpelled(s, 0);
  }

  lemma {:induction false} SegmentsStep(s: string, i: nat)
    requires i <= |s|
    ensures var j := SegmentEnd(s, i);
      SegmentsFrom(s, i) == Segment(s[i..j]) + if j < |s| then SegmentsFrom(s, j + 1) else []
  {
  }

  /** One more segment at the end of the string. */
  lemma {:induction false} SegmentsAppend(s: string, i: nat, c: string)
    requires i <= |s| && '/' !in c
    ensures SegmentsFrom(s + "/" + c, i) == SegmentsFrom(s, i) + Segment(c)
    decreases |s| - i
  {
    hide SegmentsFrom, Segment;
    var t := s + "/" + c;
    var j := SegmentEnd(s, i);
    EndBefore(s, i, "/" + c);
    assert t == s + ("/" + c);
    assert t[i..j] == s[i..j];
    SegmentsStep(s, i);
    SegmentsStep(t, i);
    if j < |s| {
      SegmentsAppend(s, j + 1, c);
    } else {
      LastSegment(t, |s| + 1);
      assert t[|s| + 1..] == c;
    }
  }

  /** A segment ends where it ended before a slash was appended. */
  lemma {:induction false} EndBefore(s: string, i: nat, more: string)
    requires i <= |s| && more != "" && more[0] == '/'
    ensures SegmentEnd(s + more, i) == SegmentEnd(s, i)
    decreases |s| - i
  {
    if i < |s| && s[i] != '/' { EndBefore(s, i + 1, more); }
  }

  lemma {:induction false} LastSegment(t: string, i: nat)
    requires i <= |t| && '/' !in t[i..]
    ensures SegmentsFrom(t, i) == Segment(t[i..])
  {
    EndsAtEnd(t, i);
    assert t[i..|t|] == t[i..];
  }

  lemma {:induction false} EndsAtEnd(t: string, i: nat)
    requires i <= |t| && '/' !in t[i..]
    ensures SegmentEnd(t, i) == |t|
    decreases |t| - i
  {
    if i < |t| {
      assert t[i] == t[i..][0] && t[i + 1..] == t[i..][1..];
      EndsAtEnd(t, i + 1);
    }
  }

  lemma CompBack(c: Comp)
    requires SpelledComp(c) && c != Root
    ensures Segment(CompText(c)) == [c] && '/' !in CompText(c) && CompText(c) != ""
  {
  }

  /** A rendered path is read back as itself. */
  lemma {:induction false} RenderBack(p: Path)
    requires Spelled(p)
    ensures Components(Render(p)) == p
    ensures Render(p) == "" <==> p == []
    ensures Render(p) == "/" <==> p == [Root]
  {
    hide Components, Render;
    if p == [] {
      NothingText();
    } else {
      var front, last := p[..|p| - 1], p[|p| - 1];
      assert p == front + [last] && Spelled(front) && SpelledComp(last);
      RenderBack(front);
      RenderSnoc(front, last);
    }
  }

  lemma NothingText()
    ensures Components("") == [] && Render([]) == ""
  {
    assert ""[0..0] == "";
  }

  lemma RenderStep(front: Path, last: Comp)
    ensures var f := Render(front);
      Render(front + [last]) == f + (if f == "" || f == "/" then "" else "/") + CompText(last)
  {
    assert (front + [last])[..|front|] == front;
  }

  lemma {:induction false} RenderSnoc(front: Path, last: Comp)
    requires Spelled(front + [last]) && Components(Render(front)) == front
    requires (Render(front) == "" <==> front == []) && (Render(front) == "/" <==> front == [Root])
    ensures var r := Render(front + [last]);
      Components(r) == front + [last] && r != "" && (r == "/" <==> front + [last] == [Root])
  {
    hide Components, Render, SegmentsFrom, Segment, CompText;
    var f, c := Render(front), CompText(last);
    assert (front + [last])[|front|] == last;
    RenderStep(front, last);
    RootText();
    if last == Root {
      assert front == [] && [] + [Root] == [Root];
    } else {
      CompBack(last);
      if front == [] {
        LastSegment(c, 0);
        assert c[0..] == c && "" + "" + c == c && [] + [last] == [last];
        PlainComponents(c);
      } else if f == "/" {
        SegmentsAfterRoot(c);
        assert f + "" + c == "/" + c;
        PlainComponents("/" + c);
      } else {
        SegmentsAppend(f, 0, c);
        PlainComponents(f + "/" + c);
        PlainComponents(f);
        assert (f + "/" + c)[0] == f[0];
      }
    }
  }

  lemma PlainComponents(s: string)
    ensures Components(s) == (if IsAbsolute(s) then [Root] else []) + SegmentsFrom(s, 0)
  {
  }

  lemma RootText()
    ensures Components("/") == [Root] && Render([Root]) == "/" && SegmentsFrom("/", 0) == []
  {
    assert SegmentEnd("/", 0) == 0 && "/"[0..0] == "";
    assert SegmentsFrom("/", 1) == [] by { assert "/"[1..1] == ""; }
  }

  lemma {:induction false} SegmentsAfterRoot(c: string)
    requires '/' !in c
    ensures SegmentsFrom("/" + c, 0) == Segment(c)
  {
    var t := "/" + c;
    assert SegmentEnd(t, 0) == 0 && t[0..0] == "" && t[1..] == c;
    LastSegment(t, 1);
  }

  // ---- normal forms ----

  predicate Absolute(p: Path) { p != [] && p[0] == Root }

  predicate NamesSpelled(at: Place) { forall k :: 0 <= k < |at.names| ==> SpelledComp(Name(at.names[k])) }

  lemma {:induction false} FollowNamesSpelled(p: Path)
    requires Spelled(p)
    ensures NamesSpelled(Follow(p)) && (Follow(p).abs <==> Absolute(p))
  {
    hide Step, SpelledComp, NamesSpelled;
    if p == [] {
      NoNames();
    } else {
      var front, last := p[..|p| - 1], p[|p| - 1];
      FollowNamesSpelled(front);
      StepSpelled(Follow(front), last);
      if |p| > 1 { assert front[0] == p[0]; } else { assert front == []; }
    }
  }

  lemma NoNames()
    ensures NamesSpelled(Place(false, 0, []))
  {
  }

  lemma StepSpelled(at: Place, c: Comp)
    requires SpelledComp(c) && NamesSpelled(at)
    ensures NamesSpelled(Step(at, c)) && (Step(at, c).abs <==> at.abs || c == Root)
  {
  }

  lemma {:induction false} NormalSpelled(p: Path)
    requires Spelled(p)
    ensures Spelled(Normal(p)) && (Absolute(Normal(p)) <==> Absolute(p))
  {
    FollowNamesSpelled(p);
  }

  /** A target is the file it names: resolved against an absolute base, rendered, and read again, it is the normal
      form of the base followed by its components, or of its own components when it is absolute. */
  lemma {:induction false} TargetIsThere(w: World, tok: string, base: Path)
    requires Spelled(base) && Absolute(base)
    ensures Canon(w, Resolve(tok, base)) == Normal(if IsAbsolute(tok) then Components(tok) else base + Components(tok))
  {
    hide Normal, Render, Components;
    if !IsAbsolute(tok) {
      ComponentsSpelled(tok);
      var p := base + Components(tok);
      JoinSpelled(base, Components(tok));
      NormalSpelled(p);
      NormalTwice(p);
      RenderBack(Normal(p));
      ComponentsSpelled(Render(Normal(p)));
    }
  }

  lemma JoinSpelled(p: Path, q: Path)
    requires Spelled(p) && Spelled(q) && (q == [] || q[0] != Root)
    ensures Spelled(p + q) && (Absolute(p) ==> Absolute(p + q))
  {
  }

  /** Different normal paths are rendered differently. */
  lemma {:induction false} RenderInjective(p: Path, q: Path)
    requires Spelled(p) && Spelled(q) && Render(p) == Render(q)
    ensures p == q
  {
    hide Render, Components;
    RenderBack(p);
    RenderBack(q);
  }
}
