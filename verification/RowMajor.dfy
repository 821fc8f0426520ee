/** Row-major addressing of an unpacked array, as a mathematical function of the declared
    dimensions, and the facts the flattened word expression relies on. */
module RowMajor {

  /** One declared dimension: its lower bound and its number of elements. */
  datatype Dim = Dim(lo: int, size: nat)

  const WORD: int := 0x1_0000_0000

  predicate Sized(ext: seq<Dim>) {
    forall k :: 0 <= k < |ext| ==> 1 <= ext[k].size < WORD
  }

  /** The number of elements. */
  function Product(ext: seq<Dim>): (p: nat)
    ensures Sized(ext) ==> p >= 1
  {
    if ext == [] then 1 else ext[0].size * Product(ext[1..])
  }

  /** Position `slots` of the array, the last dimension varying fastest. */
  function Offset(ext: seq<Dim>, slots: seq<nat>): nat
    requires |slots| <= |ext|
  {
    if slots == [] then 0 else slots[0] * Product(ext[1..]) + Offset(ext[1..], slots[1..])
  }

  predicate InRange(ext: seq<Dim>, slots: seq<nat>) {
    |slots| <= |ext| && forall k :: 0 <= k < |slots| ==> slots[k] < ext[k].size
  }

  lemma MulBound(a: nat, b: nat, c: nat)
    requires a < b
    ensures a * c + c <= b * c
  {
    assert (a + 1) * c <= b * c;
  }

  lemma {:induction false} ProductSplit(ext: seq<Dim>, n: nat)
    requires n <= |ext|
    ensures Product(ext) == Product(ext[..n]) * Product(ext[n..])
  {
    if n == 0 {
      assert ext[0..] == ext;
    } else {
      ProductSplit(ext[1..], n - 1);
      assert ext[1..][n - 1..] == ext[n..];
      assert ext[..n][1..] == ext[1..][..n - 1];
      MulAssoc(ext[0].size, Product(ext[1..][..n - 1]), Product(ext[n..]));
    }
  }

  lemma MulAssoc(a: int, b: int, c: int)
    ensures a * (b * c) == (a * b) * c
  {
  }

  /** An in-range prefix leaves room for the whole row below it. */
  lemma {:induction false} OffsetBound(ext: seq<Dim>, slots: seq<nat>)
    requires InRange(ext, slots)
    ensures Offset(ext, slots) + Product(ext[|slots|..]) <= Product(ext)
  {
    if slots == [] {
      assert ext[0..] == ext;
    } else {
      OffsetBound(ext[1..], slots[1..]);
      assert ext[1..][|slots| - 1..] == ext[|slots|..];
      MulBound(slots[0], ext[0].size, Product(ext[1..]));
    }
  }

  /** Equal addresses come from equal rows and equal residues: rows are disjoint. */
  lemma {:induction false} OffsetInjective(ext: seq<Dim>, p: seq<nat>, q: seq<nat>, r: nat, s: nat)
    requires |p| == |q| && InRange(ext, p) && InRange(ext, q)
    requires r < Product(ext[|p|..]) && s < Product(ext[|p|..])
    requires Offset(ext, p) + r == Offset(ext, q) + s
    ensures p == q && r == s
  {
    if p != [] {
      var rest := Product(ext[1..]);
      var x, y := Offset(ext[1..], p[1..]) + r, Offset(ext[1..], q[1..]) + s;
      assert ext[1..][|p| - 1..] == ext[|p|..];
      OffsetBound(ext[1..], p[1..]);
      OffsetBound(ext[1..], q[1..]);
      QuotientUnique(p[0], x, q[0], y, rest);
      OffsetInjective(ext[1..], p[1..], q[1..], r, s);
      assert p == [p[0]] + p[1..] && q == [q[0]] + q[1..];
    }
  }

  lemma QuotientUnique(a: nat, x: nat, b: nat, y: nat, m: nat)
    requires x < m && y < m && a * m + x == b * m + y
    ensures a == b && x == y
  {
    if a < b { MulBound(a, b, m); }
    if b < a { MulBound(b, a, m); }
  }

  /** The position of every address below the product. */
  function Position(ext: seq<Dim>, address: nat): (slots: seq<nat>)
    requires Sized(ext) && address < Product(ext)
    ensures |slots| == |ext|
    decreases |ext|
  {
    if ext == [] then [] else
      var m := Product(ext[1..]);
      [address / m] + Position(ext[1..], address % m)
  }

  lemma {:induction false} PositionInverts(ext: seq<Dim>, address: nat)
    requires Sized(ext) && address < Product(ext)
    ensures InRange(ext, Position(ext, address))
    ensures Offset(ext, Position(ext, address)) == address
  {
    if ext != [] {
      var m := Product(ext[1..]);
      PositionInverts(ext[1..], address % m);
      DivBound(address, m, ext[0].size);
      var slots := Position(ext, address);
      assert slots[1..] == Position(ext[1..], address % m);
      assert forall k :: 1 <= k < |slots| ==> slots[k] == slots[1..][k - 1] && ext[k] == ext[1..][k - 1];
    }
  }

  lemma MulAtMost(a: nat, b: nat, c: nat)
    requires a <= b
    ensures a * c <= b * c
  {
  }

  lemma DivBound(x: nat, m: nat, n: nat)
    requires m >= 1 && x < n * m
    ensures x / m < n && (x / m) * m + x % m == x
  {
    if x / m >= n { MulAtMost(n, x / m, m); }
  }

  /** Whole-array addressing is a bijection onto `[0, Product(ext))`. */
  lemma AddressBijection(ext: seq<Dim>, slots: seq<nat>, address: nat)
    requires Sized(ext) && |slots| == |ext| && InRange(ext, slots) && address < Product(ext)
    ensures Offset(ext, slots) < Product(ext)
    ensures Offset(ext, slots) == address <==> slots == Position(ext, address)
  {
    OffsetBound(ext, slots);
    PositionInverts(ext, address);
    assert ext[|ext|..] == [];
    if Offset(ext, slots) == address {
      OffsetInjective(ext, slots, Position(ext, address), 0, 0);
    }
  }

  /** Appending one slot adds that slot times its stride. */
  lemma {:induction false} OffsetSnoc(ext: seq<Dim>, slots: seq<nat>, s: nat)
    requires |slots| < |ext|
    ensures Offset(ext, slots + [s]) == Offset(ext, slots) + s * Product(ext[|slots| + 1..])
  {
    var all := slots + [s];
    if slots == [] {
      assert all[1..] == [];
    } else {
      assert all[1..] == slots[1..] + [s];
      assert ext[1..][|slots|..] == ext[|slots| + 1..];
      OffsetSnoc(ext[1..], slots[1..], s);
    }
  }

  /** A full position is its leading row plus the residual offset inside that row. */
  lemma {:induction false} OffsetAppend(ext: seq<Dim>, lead: seq<nat>, rest: seq<nat>)
    requires |lead| + |rest| <= |ext|
    ensures Offset(ext, lead + rest) == Offset(ext, lead) + Offset(ext[|lead|..], rest)
  {
    var all := lead + rest;
    if lead == [] {
      assert all == rest && ext[0..] == ext;
    } else {
      assert all[1..] == lead[1..] + rest;
      assert ext[1..][|lead| - 1..] == ext[|lead|..];
      OffsetAppend(ext[1..], lead[1..], rest);
    }
  }
}
