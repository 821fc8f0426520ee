/** Character and string operations shared by the text formats. */
module Strings {
  import opened Wrappers

  /** Unicode White_Space. */
  predicate IsSpace(c: char) {
    var n := c as int;
    9 <= n <= 13 || n == 0x20 || n == 0x85 || n == 0xA0 || n == 0x1680 || 0x2000 <= n <= 0x200A
    || n == 0x2028 || n == 0x2029 || n == 0x202F || n == 0x205F || n == 0x3000
  }

  function TrimmedLength(s: string): (n: nat)
    ensures n <= |s| && (n > 0 ==> !IsSpace(s[n - 1])) && forall k :: n <= k < |s| ==> IsSpace(s[k])
  {
    if s != [] && IsSpace(s[|s| - 1]) then TrimmedLength(s[..|s| - 1]) else |s|
  }

  function TrimEnd(s: string): string { s[..TrimmedLength(s)] }

  function TrimStart(s: string): string {
    if s != [] && IsSpace(s[0]) then TrimStart(s[1..]) else s
  }

  predicate StartsWith(s: string, prefix: string) { |prefix| <= |s| && s[..|prefix|] == prefix }

  predicate EndsWith(s: string, suffix: string) { |suffix| <= |s| && s[|s| - |suffix|..] == suffix }

  function StripPrefix(s: string, prefix: string): Option<string> {
    if StartsWith(s, prefix) then Some(s[|prefix|..]) else None
  }

  function StripSuffix(s: string, suffix: string): Option<string> {
    if EndsWith(s, suffix) then Some(s[..|s| - |suffix|]) else None
  }

  lemma Around(prefix: string, s: string, suffix: string)
    ensures StripPrefix(prefix + s + suffix, prefix) == Some(s + suffix)
    ensures StripSuffix(s + suffix, suffix) == Some(s)
  {
    assert prefix + s + suffix == prefix + (s + suffix);
  }

  /** Split at the first occurrence of a separator. */
  function SplitOnce(s: string, sep: string): Option<(string, string)> {
    if StartsWith(s, sep) then Some(("", s[|sep|..]))
    else if s == "" then None
    else match SplitOnce(s[1..], sep)
      case None => None
      case Some(p) => Some(([s[0]] + p.0, p.1))
  }

  /** The first separator is found when nothing before it can begin one. */
  lemma {:induction false} SplitAt(x: string, y: string, sep: string)
    requires sep != "" && sep[0] !in x
    ensures SplitOnce(x + sep + y, sep) == Some((x, y))
  {
    var s := x + sep + y;
    if x == "" {
      assert s == sep + y;
    } else {
      assert s[1..] == x[1..] + sep + y;
      SplitAt(x[1..], y, sep);
      assert s[0] == x[0] != sep[0];
      assert [s[0]] + x[1..] == x;
    }
  }

  lemma {:induction false} SplitParts(s: string, sep: string)
    requires sep != "" && SplitOnce(s, sep).Some?
    ensures var p := SplitOnce(s, sep).value; s == p.0 + sep + p.1
    ensures |sep| == 1 ==> sep[0] !in SplitOnce(s, sep).value.0
  {
    if !StartsWith(s, sep) && s != "" {
      SplitParts(s[1..], sep);
      assert s == [s[0]] + s[1..];
      if |sep| == 1 { assert s[..1] == [s[0]]; }
    }
  }

  // ---- lines ----

  function LineLength(s: string): (n: nat)
    ensures n <= |s| && '\n' !in s[..n] && (n < |s| ==> s[n] == '\n')
  {
    if s == "" || s[0] == '\n' then 0
    else
      var n := 1 + LineLength(s[1..]);
      assert s[..n] == [s[0]] + s[1..][..n - 1];
      n
  }

  function SplitLines(s: string): seq<string> {
    if s == "" then []
    else
      var n := LineLength(s);
      [s[..n]] + if n < |s| then SplitLines(s[n + 1..]) else []
  }

  function JoinLines(lines: seq<string>): string {
    if lines == [] then "" else lines[0] + "\n" + JoinLines(lines[1..])
  }

  predicate OneLine(s: string) { '\n' !in s }

  lemma {:induction false} JoinAppend(x: seq<string>, y: seq<string>)
    ensures JoinLines(x + y) == JoinLines(x) + JoinLines(y)
  {
    if x == [] {
      assert x + y == y;
    } else {
      assert (x + y)[1..] == x[1..] + y;
      JoinAppend(x[1..], y);
    }
  }

  lemma {:induction false} LineLengthIs(l: string, rest: string)
    requires OneLine(l)
    ensures LineLength(l + "\n" + rest) == |l|
  {
    var s := l + "\n" + rest;
    var n := LineLength(s);
    assert forall k :: 0 <= k < |l| ==> s[k] == l[k];
    assert forall k :: 0 <= k < n ==> s[..n][k] == s[k];
    assert s[|l|] == '\n';
  }

  lemma {:induction false} SplitJoin(lines: seq<string>)
    requires forall k :: 0 <= k < |lines| ==> OneLine(lines[k])
    ensures SplitLines(JoinLines(lines)) == lines
  {
    if lines != [] {
      var l, rest := lines[0], JoinLines(lines[1..]);
      var s := l + "\n" + rest;
      LineLengthIs(l, rest);
      assert s[..|l|] == l && s[|l| + 1..] == rest;
      SplitJoin(lines[1..]);
    }
  }

  lemma {:induction false} SplitLinesClean(s: string)
    ensures forall k :: 0 <= k < |SplitLines(s)| ==> OneLine(SplitLines(s)[k])
    decreases |s|
  {
    if s != "" {
      var n := LineLength(s);
      if n < |s| { SplitLinesClean(s[n + 1..]); }
    }
  }
}
