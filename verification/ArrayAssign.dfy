/** Unpacked-array assignment, expanded into one assignment per element: the residual word offsets
    in declared left-to-right order, and why copying element by element is copying all at once. */
module ArrayAssign {
  import opened Bits
  import opened Wrappers
  import opened RowMajor
  import opened Words
  import opened Geometry

  function Flipped(desc: seq<bool>, k: nat): bool { k < |desc| && desc[k] }

  /** The slots of position `digits` when descending dimensions run from the highest slot down. */
  function Turn(ext: seq<Dim>, desc: seq<bool>, digits: seq<nat>): (slots: seq<nat>)
    requires |digits| == |ext| && InRange(ext, digits)
    ensures |slots| == |ext| && InRange(ext, slots)
  {
    seq(|ext|, k requires 0 <= k < |ext| => if Flipped(desc, k) then ext[k].size - 1 - digits[k] else digits[k])
  }

  /** The word offset of position `p`, counting positions left to right. */
  function Residual(ext: seq<Dim>, desc: seq<bool>, p: nat): nat
    requires Sized(ext) && p < Product(ext)
  {
    PositionInverts(ext, p);
    Offset(ext, Turn(ext, desc, Position(ext, p)))
  }

  lemma {:induction false} ResidualBelow(ext: seq<Dim>, desc: seq<bool>, p: nat)
    requires Sized(ext) && p < Product(ext)
    ensures Residual(ext, desc, p) < Product(ext)
  {
    PositionInverts(ext, p);
    OffsetBound(ext, Turn(ext, desc, Position(ext, p)));
    assert ext[|ext|..] == [];
  }

  /** The positions enumerate the words of the row without repetition. */
  lemma {:induction false} ResidualInjective(ext: seq<Dim>, desc: seq<bool>, p: nat, q: nat)
    requires Sized(ext) && p < Product(ext) && q < Product(ext)
    ensures Residual(ext, desc, p) == Residual(ext, desc, q) <==> p == q
  {
    if Residual(ext, desc, p) == Residual(ext, desc, q) {
      PositionInverts(ext, p);
      PositionInverts(ext, q);
      var x, y := Position(ext, p), Position(ext, q);
      assert ext[|ext|..] == [];
      OffsetInjective(ext, Turn(ext, desc, x), Turn(ext, desc, y), 0, 0);
      forall k | 0 <= k < |ext| ensures x[k] == y[k] {
        assert Turn(ext, desc, x)[k] == Turn(ext, desc, y)[k];
      }
      assert x == y;
    }
  }

  /** Every word of the row is some position's. */
  lemma {:induction false} ResidualOnto(ext: seq<Dim>, desc: seq<bool>, w: nat) returns (p: nat)
    requires Sized(ext) && w < Product(ext)
    ensures p < Product(ext) && Residual(ext, desc, p) == w
  {
    PositionInverts(ext, w);
    var digits := Turn(ext, desc, Position(ext, w));
    OffsetBound(ext, digits);
    assert ext[|ext|..] == [];
    p := Offset(ext, digits);
    AddressBijection(ext, digits, p);
    assert Turn(ext, desc, digits) == Position(ext, w);
  }

  /** The index that stands `digit` places from the left of a declared `[msb:lsb]` dimension. */
  function IndexFromLeft(msb: int, lsb: int, digit: nat): int {
    if msb <= lsb then msb + digit else msb - digit
  }

  /** Position `p` is the element whose every index stands as far from the left as `p`'s digit: the
      left-to-right correspondence of IEEE 1800-2017 section 7.6. */
  lemma {:induction false} LeftToRight(msb: seq<int>, lsb: seq<int>, ext: seq<Dim>, desc: seq<bool>, p: nat, k: nat)
    requires |msb| == |lsb| == |ext| && Sized(ext) && p < Product(ext) && k < |ext|
    requires ext[k] == Dim(if msb[k] < lsb[k] then msb[k] else lsb[k],
                           if msb[k] < lsb[k] then lsb[k] - msb[k] + 1 else msb[k] - lsb[k] + 1)
    requires (k < |desc| && desc[k]) == (msb[k] > lsb[k])
    ensures InRange(ext, Position(ext, p))
    ensures ext[k].lo + Turn(ext, desc, Position(ext, p))[k] == IndexFromLeft(msb[k], lsb[k], Position(ext, p)[k])
  {
    PositionInverts(ext, p);
  }

  // ---- computing the offsets ----

  lemma DivNest(p: nat, m: nat, s: nat)
    requires m >= 1 && s >= 1
    ensures m * s >= 1 && (p / m) / s == p / (m * s)
    ensures (p % (m * s)) / m == (p / m) % s && (p % (m * s)) % m == p % m
  {
    var q, r := p / m, p % m;
    var u, v := q / s, q % s;
    Distribute3(m, s, u, v);
    MulBound(v, s, m);
    Swap(v, m);
    Swap(s, m);
    assert p == (m * s) * u + (m * v + r);
    Unique(p, m * s, u, m * v + r);
    Unique(m * v + r, m, v, r);
  }

  lemma Swap(a: int, b: int)
    ensures a * b == b * a
  {
  }

  lemma Distribute3(m: int, s: int, u: int, v: int)
    ensures m * (s * u + v) == (m * s) * u + m * v
    ensures m * s >= 1 <== m >= 1 && s >= 1
  {
  }

  lemma Unique(x: int, d: int, q: int, r: int)
    requires d > 0 && x == d * q + r && 0 <= r < d
    ensures x / d == q && x % d == r
  {
    Bits.DivModUnique(x, d, q, r);
  }

  /** The tail of a position is the position of the residue in the tail dimensions. */
  function TailResidual(ext: seq<Dim>, desc: seq<bool>, p: nat, k: nat): nat
    requires Sized(ext) && k <= |ext|
  {
    SizedTail(ext, k);
    Residual(ext[k..], if k <= |desc| then desc[k..] else [], p % Product(ext[k..]))
  }

  lemma SizedTail(ext: seq<Dim>, k: nat)
    requires Sized(ext) && k <= |ext|
    ensures Sized(ext[k..]) && Product(ext[k..]) >= 1
  {
  }

  function DropOne(desc: seq<bool>): seq<bool> { if desc == [] then [] else desc[1..] }

  lemma {:induction false} ResidualUnfold(e: seq<Dim>, desc: seq<bool>, a: nat)
    requires Sized(e) && e != [] && a < Product(e)
    ensures Sized(e[1..]) && Product(e[1..]) >= 1
    ensures
      var m := Product(e[1..]);
      a / m < e[0].size
      && Residual(e, desc, a) == (if Flipped(desc, 0) then e[0].size - 1 - a / m else a / m) * m
                                 + Residual(e[1..], DropOne(desc), a % m)
  {
    var f := e[1..];
    var m := Product(f);
    DivBound(a, m, e[0].size);
    PositionInverts(e, a);
    PositionInverts(f, a % m);
    var x, y := Position(e, a), Position(f, a % m);
    TurnTail(e, desc, x);
    assert x[1..] == y;
  }

  lemma {:induction false} TurnTail(e: seq<Dim>, desc: seq<bool>, x: seq<nat>)
    requires e != [] && |x| == |e| && InRange(e, x)
    ensures InRange(e[1..], x[1..]) && Turn(e, desc, x)[1..] == Turn(e[1..], DropOne(desc), x[1..])
  {
    var f, y := e[1..], x[1..];
    var tx, ty := Turn(e, desc, x), Turn(f, DropOne(desc), y);
    forall j | 0 <= j < |f| ensures tx[1..][j] == ty[j] {
      assert e[j + 1] == f[j] && x[j + 1] == y[j] && Flipped(desc, j + 1) == Flipped(DropOne(desc), j);
    }
  }

  lemma {:induction false} TailStep(ext: seq<Dim>, desc: seq<bool>, p: nat, k: nat)
    requires Sized(ext) && k < |ext|
    ensures
      var m := Product(ext[k + 1..]);
      var digit := (p / m) % ext[k].size;
      m >= 1 && Product(ext[k..]) >= 1
      && (p / m) / ext[k].size == p / Product(ext[k..])
      && TailResidual(ext, desc, p, k)
         == (if Flipped(desc, k) then ext[k].size - 1 - digit else digit) * m + TailResidual(ext, desc, p, k + 1)
  {
    hide Residual;
    var e, f := ext[k..], ext[k + 1..];
    var m, s := Product(f), ext[k].size;
    SizedTail(ext, k);
    SizedTail(ext, k + 1);
    assert e[1..] == f && e[0] == ext[k];
    assert Product(e) == s * m;
    Swap(s, m);
    DivNest(p, m, s);
    var de := if k <= |desc| then desc[k..] else [];
    assert DropOne(de) == if k + 1 <= |desc| then desc[k + 1..] else [];
    assert Flipped(de, 0) == Flipped(desc, k);
    ResidualUnfold(e, de, p % Product(e));
  }

  /** The residual offsets of a sub-array, position by position. */
  method ResidualWordOffsets(ext: seq<Dim>, desc: seq<bool>) returns (offs: seq<nat>)
    requires Sized(ext) && Product(ext) <= MAX_ARRAY_LEN
    ensures |offs| == Product(ext)
    ensures forall p :: 0 <= p < |offs| ==> offs[p] == Residual(ext, desc, p)
  {
    var n := Product(ext);
    var strides: seq<nat> := seq(|ext|, _ => 1);
    var j := |ext| - 1;
    while j > 0
      invariant -1 <= j < |ext| && |strides| == |ext| && (ext == [] || j >= 0)
      invariant forall i :: 0 <= j <= i < |ext| ==> strides[i] == Stride(ext, i)
    {
      j := j - 1;
      strides := strides[j := SatMul(strides[j + 1], ext[j + 1].size)];
    }
    offs := [];
    var p := 0;
    while p < n
      invariant 0 <= p <= n && |offs| == p
      invariant forall q :: 0 <= q < p ==> offs[q] == Residual(ext, desc, q)
    {
      var off := OffsetOfPosition(ext, desc, strides, p);
      offs := offs + [off];
      p := p + 1;
    }
  }

  /** Peel the digits of `p` from the last dimension outward. */
  method OffsetOfPosition(ext: seq<Dim>, desc: seq<bool>, strides: seq<nat>, p: nat) returns (off: nat)
    requires Sized(ext) && Product(ext) <= MAX_ARRAY_LEN && p < Product(ext) && |strides| == |ext|
    requires forall i :: 0 <= i < |ext| ==> strides[i] == Stride(ext, i)
    ensures off == Residual(ext, desc, p)
  {
    hide Residual, Stride, Offset, Turn, TailResidual, Product;
    var rem := p;
    off := 0;
    var k := |ext|;
    LastTail(ext, desc, p);
    while k > 0
      invariant 0 <= k <= |ext|
      invariant Product(ext[k..]) >= 1 && rem == p / Product(ext[k..])
      invariant off == TailResidual(ext, desc, p, k)
    {
      k := k - 1;
      TailStep(ext, desc, p, k);
      StrideIsProduct(ext, k);
      var size := ext[k].size;
      var digit := rem % size;
      rem := rem / size;
      var slot := if Flipped(desc, k) then size - 1 - digit else digit;
      off := off + slot * strides[k];
    }
    FirstTail(ext, desc, p);
  }

  lemma LastTail(ext: seq<Dim>, desc: seq<bool>, p: nat)
    requires Sized(ext)
    ensures TailResidual(ext, desc, p, |ext|) == 0
    ensures Product(ext[|ext|..]) == 1 && p / Product(ext[|ext|..]) == p
  {
    assert ext[|ext|..] == [];
  }

  lemma FirstTail(ext: seq<Dim>, desc: seq<bool>, p: nat)
    requires Sized(ext) && p < Product(ext)
    ensures TailResidual(ext, desc, p, 0) == Residual(ext, desc, p)
  {
    hide Residual, Product;
    assert ext[0..] == ext && desc[0..] == desc;
    Bits.SmallMod(p, Product(ext));
  }

  // ---- executing the copies ----

  type Cells = map<nat, seq<Vec>>

  /** The element `off` words past a base, or nothing when the base is unknown. */
  function ElementAt(base: Option<nat>, off: nat): Option<nat> { AddWord(base, Some(off)) }

  function Load(cells: Cells, net: nat, at: Option<nat>, w: nat): Vec {
    if at.Some? && net in cells && at.value < |cells[net]| && |cells[net][at.value]| == w
    then cells[net][at.value] else Unknown(w)
  }

  /** A write outside the array is dropped. */
  function StoreAt(cells: Cells, net: nat, at: Option<nat>, v: Vec): Cells {
    if at.Some? && net in cells && at.value < |cells[net]| then cells[net := cells[net][at.value := v]] else cells
  }

  /** The copies of one array assignment: `t[tb + toffs[p]] = s[sb + soffs[p]]` for each position. */
  datatype Copy = Copy(t: nat, tb: Option<nat>, toffs: seq<nat>, s: nat, sb: Option<nat>, soffs: seq<nat>, width: nat)

  /** The first `k` element copies, one after the other. */
  function InOrder(c: Copy, cells: Cells, k: nat): Cells
    requires k <= |c.toffs| == |c.soffs|
  {
    if k == 0 then cells
    else
      var before := InOrder(c, cells, k - 1);
      StoreAt(before, c.t, ElementAt(c.tb, c.toffs[k - 1]), Load(before, c.s, ElementAt(c.sb, c.soffs[k - 1]), c.width))
  }

  /** The first `k` element copies, every source element read beforehand. */
  function AllAtOnce(c: Copy, cells: Cells, k: nat): Cells
    requires k <= |c.toffs| == |c.soffs|
  {
    if k == 0 then cells
    else StoreAt(AllAtOnce(c, cells, k - 1), c.t, ElementAt(c.tb, c.toffs[k - 1]),
                 Load(cells, c.s, ElementAt(c.sb, c.soffs[k - 1]), c.width))
  }

  /** No copy reads a word an earlier copy of another position wrote. */
  predicate Untangled(c: Copy, cells: Cells)
    requires |c.toffs| == |c.soffs|
  {
    forall p, q :: 0 <= p < q < |c.toffs| && c.s == c.t && c.s in cells ==>
      (ElementAt(c.sb, c.soffs[q]).Some? && ElementAt(c.sb, c.soffs[q]).value < |cells[c.s]| ==>
         ElementAt(c.tb, c.toffs[p]) != ElementAt(c.sb, c.soffs[q]))
  }

  lemma {:induction false} AllAtOnceKeeps(c: Copy, cells: Cells, k: nat, net: nat, at: nat)
    requires k <= |c.toffs| == |c.soffs|
    requires net == c.t ==> forall p :: 0 <= p < k ==> ElementAt(c.tb, c.toffs[p]) != Some(at)
    ensures AllAtOnce(c, cells, k).Keys == cells.Keys
    ensures net in cells ==> |AllAtOnce(c, cells, k)[net]| == |cells[net]|
    ensures net in cells && at < |cells[net]| ==> AllAtOnce(c, cells, k)[net][at] == cells[net][at]
  {
    if k != 0 { AllAtOnceKeeps(c, cells, k - 1, net, at); }
  }

  lemma {:induction false} InOrderIsAllAtOnce(c: Copy, cells: Cells, k: nat)
    requires k <= |c.toffs| == |c.soffs| && Untangled(c, cells)
    ensures InOrder(c, cells, k) == AllAtOnce(c, cells, k)
  {
    if k != 0 {
      InOrderIsAllAtOnce(c, cells, k - 1);
      var at := ElementAt(c.sb, c.soffs[k - 1]);
      if at.Some? {
        if c.s in cells && at.value < |cells[c.s]| {
          AllAtOnceKeeps(c, cells, k - 1, c.s, at.value);
        } else {
          AllAtOnceLength(c, cells, k - 1);
        }
      }
    }
  }

  lemma {:induction false} AllAtOnceLength(c: Copy, cells: Cells, k: nat)
    requires k <= |c.toffs| == |c.soffs|
    ensures AllAtOnce(c, cells, k).Keys == cells.Keys
    ensures forall net :: net in cells ==> |AllAtOnce(c, cells, k)[net]| == |cells[net]|
  {
    if k != 0 { AllAtOnceLength(c, cells, k - 1); }
  }

  /** Copying all at once leaves, position for position, the source's old elements; the words no
      position names are kept (`AllAtOnceKeeps`). */
  lemma {:induction false} AllAtOnceWrites(c: Copy, cells: Cells, k: nat, p: nat)
    requires p < k <= |c.toffs| == |c.soffs| && c.t in cells
    requires ElementAt(c.tb, c.toffs[p]).Some? && ElementAt(c.tb, c.toffs[p]).value < |cells[c.t]|
    requires forall q :: 0 <= q < k && q != p ==> ElementAt(c.tb, c.toffs[p]) != ElementAt(c.tb, c.toffs[q])
    ensures c.t in AllAtOnce(c, cells, k) && |AllAtOnce(c, cells, k)[c.t]| == |cells[c.t]|
    ensures AllAtOnce(c, cells, k)[c.t][ElementAt(c.tb, c.toffs[p]).value]
         == Load(cells, c.s, ElementAt(c.sb, c.soffs[p]), c.width)
  {
    AllAtOnceLength(c, cells, k - 1);
    if p < k - 1 { AllAtOnceWrites(c, cells, k - 1, p); }
  }

  // ---- slices of one array ----

  /** The base of a slice: nothing to add for the whole array, the flattened prefix otherwise. */
  function SliceBase(ext: seq<Dim>, lead: seq<Option<nat>>): Option<nat>
    requires Sized(ext) && |lead| <= |ext|
  {
    if lead == [] then Some(0) else FlatWord(ext, [], lead)
  }

  function SliceOffsets(ext: seq<Dim>, desc: seq<bool>): (offs: seq<nat>)
    requires Sized(ext)
    ensures |offs| == Product(ext)
  {
    seq(Product(ext), p requires 0 <= p < Product(ext) => Residual(ext, desc, p))
  }

  /** A slice base is in range as a row, or it is no word of the array whatever is added to it. */
  lemma {:induction false} BaseIsRowOrNothing(ext: seq<Dim>, lead: seq<Option<nat>>, r: nat)
    requires Sized(ext) && AllRepresentable(ext, []) && Words32(lead) && |lead| < |ext| && Product(ext) <= MAX_ARRAY_LEN
    requires lead != [] && !AllWithin(ext, lead) && r < MAX_ARRAY_LEN
    ensures ElementAt(SliceBase(ext, lead), r).Some? ==> ElementAt(SliceBase(ext, lead), r).value >= Product(ext)
  {
    hide Product, Offset, Sum, Guards;
    FlatWordMeaning(ext, [], lead);
    SentinelStable(r);
  }

  /** Two slices of one array with the same number of leading indices are the same row or share no
      word, so the copies never get tangled. */
  lemma {:induction false} SlicesUntangled(c: Copy, cells: Cells, ext: seq<Dim>, desc: seq<bool>,
                                           p: seq<Option<nat>>, q: seq<Option<nat>>)
    requires Sized(ext) && AllRepresentable(ext, []) && Product(ext) <= MAX_ARRAY_LEN
    requires |p| == |q| < |ext| && Words32(p) && Words32(q)
    requires Sized(ext[|p|..]) && c.t == c.s
    requires c.tb == SliceBase(ext, p) && c.sb == SliceBase(ext, q)
    requires c.toffs == SliceOffsets(ext[|p|..], desc) == c.soffs
    requires c.s in cells ==> |cells[c.s]| == Product(ext)
    ensures Untangled(c, cells)
  {
    hide Product, Residual, SliceBase, ElementAt, AllRepresentable;
    var rest := ext[|p|..];
    forall i, j | 0 <= i < j < |c.toffs| && c.s in cells && ElementAt(c.sb, c.soffs[j]).Some?
                  && ElementAt(c.sb, c.soffs[j]).value < |cells[c.s]|
      ensures ElementAt(c.tb, c.toffs[i]) != ElementAt(c.sb, c.soffs[j])
    {
      ResidualInjective(rest, desc, i, j);
      ResidualBelow(rest, desc, i);
      ResidualBelow(rest, desc, j);
      assert c.toffs[i] == Residual(rest, desc, i) && c.soffs[j] == Residual(rest, desc, j);
      DistinctElements(ext, p, q, c.toffs[i], c.soffs[j]);
    }
  }

  lemma {:induction false} DistinctElements(ext: seq<Dim>, p: seq<Option<nat>>, q: seq<Option<nat>>, r: nat, s: nat)
    requires Sized(ext) && AllRepresentable(ext, []) && Product(ext) <= MAX_ARRAY_LEN
    requires |p| == |q| < |ext| && Words32(p) && Words32(q)
    requires r < Product(ext[|p|..]) && s < Product(ext[|p|..]) && r != s
    requires ElementAt(SliceBase(ext, q), s).Some? && ElementAt(SliceBase(ext, q), s).value < Product(ext)
    ensures ElementAt(SliceBase(ext, p), r) != ElementAt(SliceBase(ext, q), s)
  {
    hide Product, FlatWord, AllWithin, AllRepresentable;
    RowFits(ext, |p|);
    if p == [] {
      assert q == [];
    } else {
      if !AllWithin(ext, q) { BaseIsRowOrNothing(ext, q, s); }
      if !AllWithin(ext, p) {
        BaseIsRowOrNothing(ext, p, r);
      } else {
        RowBijection(ext, [], p, q, r, s);
      }
    }
  }

  lemma {:induction false} RowFits(ext: seq<Dim>, n: nat)
    requires Sized(ext) && n <= |ext|
    ensures Product(ext[n..]) <= Product(ext)
  {
    ProductSplit(ext, n);
    MulBoundRight(Product(ext[..n]), Product(ext[n..]));
  }
}
