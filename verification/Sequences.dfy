/** Sequences without repetition, and what they say about sets. */
module Sequences {
  function Members<T>(s: seq<T>): set<T> { set k | k in s }

  predicate Once<T(==)>(s: seq<T>) { forall j, k :: 0 <= j < k < |s| ==> s[j] != s[k] }

  lemma {:induction false} OnceSnoc<T>(s: seq<T>, x: T)
    ensures Members(s + [x]) == Members(s) + {x}
    ensures Once(s) && x !in s ==> Once(s + [x])
  {
    assert forall k :: k in s + [x] <==> k in s || k == x;
  }

  lemma {:induction false} OnceSize<T>(s: seq<T>)
    requires Once(s)
    ensures |Members(s)| == |s|
  {
    if s != [] {
      var front, last := s[..|s| - 1], s[|s| - 1];
      OnceSize(front);
      OnceSnoc(front, last);
      assert s == front + [last];
    }
  }

  lemma OnceFits<T>(s: seq<T>, u: set<T>)
    requires Once(s) && Members(s) <= u
    ensures |s| <= |u|
  {
    OnceSize(s);
    SubsetSize(Members(s), u);
  }

  lemma {:induction false} SubsetSize<T>(x: set<T>, y: set<T>)
    requires x <= y
    ensures |x| <= |y|
  {
    if x != {} {
      var e :| e in x;
      SubsetSize(x - {e}, y - {e});
    }
  }

  lemma {:induction false} OnceJoin<T>(x: seq<T>, y: seq<T>)
    requires Once(x) && Once(y) && forall e :: e in x ==> e !in y
    ensures Once(x + y)
  {
    var s := x + y;
    forall j, k | 0 <= j < k < |s| ensures s[j] != s[k] {
      if j < |x| <= k { assert s[j] in x && s[k] in y; }
    }
  }

  /** The numbers below `n`. */
  function UpTo(n: nat): (r: set<nat>)
    ensures |r| == n && forall k: nat :: k in r <==> k < n
  {
    if n == 0 then {} else UpTo(n - 1) + {n - 1}
  }

  lemma SameMembers<T>(x: seq<T>, y: seq<T>)
    requires multiset(x) == multiset(y)
    ensures |x| == |y| && forall t :: t in x <==> t in y
  {
    assert |multiset(x)| == |x| && |multiset(y)| == |y|;
    assert forall t :: t in x <==> t in multiset(x);
    assert forall t :: t in y <==> t in multiset(y);
  }

  lemma Cancel<T>(x: multiset<T>, y: multiset<T>, t: T)
    requires x + multiset{t} == y + multiset{t}
    ensures x == y
  {
    assert x == x + multiset{t} - multiset{t};
    assert y == y + multiset{t} - multiset{t};
  }

  /** Where a reordering holds the last element, and what is left without it. */
  lemma {:induction false} TakeOut<T>(x: seq<T>, y: seq<T>) returns (l: seq<T>, r: seq<T>)
    requires multiset(x) == multiset(y) && x != []
    ensures y == l + [x[|x| - 1]] + r && multiset(x[..|x| - 1]) == multiset(l + r)
  {
    var front, last := x[..|x| - 1], x[|x| - 1];
    assert x == front + [last];
    SameMembers(x, y);
    assert last in y;
    var k :| 0 <= k < |y| && y[k] == last;
    l, r := y[..k], y[k + 1..];
    assert y == l + [last] + r;
    assert multiset(x) == multiset(front) + multiset{last};
    assert multiset(y) == multiset(l) + multiset{last} + multiset(r) == multiset(l) + multiset(r) + multiset{last};
    Cancel(multiset(front), multiset(l) + multiset(r), last);
  }
}
