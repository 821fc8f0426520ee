/** The per-dimension guard and coordinate of a flattened array index, as the emitted 32-bit
    arithmetic computes them, and why they are the declared range check and the 0-based slot. */
module Geometry {
  import opened Bits
  import opened Wrappers
  import opened Ir
  import opened RowMajor
  import opened Words

  const U32_MAX: nat := 0xFFFF_FFFF
  const U64_MAX: nat := 0xFFFF_FFFF_FFFF_FFFF

  /** The word an out-of-range access names. */
  const OOB: nat := 0x8000_0000

  const MAX_ARRAY_LEN: nat := 0x100_0000

  function Min(x: nat, y: nat): nat { if x < y then x else y }

  // ---- the emitted arithmetic ----

  function LowConst(lo: int): nat { lo % WORD }

  function HighConst(lo: int, size: nat): nat
    requires size >= 1
  {
    Min(LowConst(lo) + (size - 1), U32_MAX)
  }

  /** What is added to the index of a dimension with a negative lower bound. */
  function Magnitude(lo: int): nat
    requires lo < 0
  {
    Min(-lo, U32_MAX)
  }

  /** The constant an ascending dimension subtracts its index from. */
  function AscendingTop(lo: int, size: nat): nat
    requires size >= 1
  {
    HighConst(if lo < 0 then 0 else lo, size)
  }

  function CoordOf(dim: Dim, ascending: bool, i: Option<nat>): Option<nat>
    requires dim.size >= 1
  {
    if ascending then SubWord(Some(AscendingTop(dim.lo, dim.size)), i)
    else if dim.lo == 0 then i
    else if dim.lo > 0 then SubWord(i, Some(LowConst(dim.lo)))
    else AddWord(i, Some(Magnitude(dim.lo)))
  }

  function GuardOf(dim: Dim, ascending: bool, i: Option<nat>): Bit
    requires dim.size >= 1
  {
    if dim.lo < 0 then CompareWords(Lt, CoordOf(dim, ascending, i), Some(dim.size))
    else And(CompareWords(Ge, i, Some(LowConst(dim.lo))), CompareWords(Le, i, Some(HighConst(dim.lo, dim.size))))
  }

  function SatMul(x: nat, y: nat): nat { Min(x * y, U64_MAX) }

  /** The suffix product the code keeps in 64 saturating bits. */
  function Stride(ext: seq<Dim>, k: nat): nat
    requires k < |ext|
    decreases |ext| - k
  {
    if k == |ext| - 1 then 1 else SatMul(Stride(ext, k + 1), ext[k + 1].size)
  }

  function StrideWord(ext: seq<Dim>, k: nat): nat
    requires k < |ext|
  {
    Min(Stride(ext, k), U32_MAX)
  }

  function Flag(ascending: seq<bool>, k: nat): bool { k < |ascending| && ascending[k] }

  /** The sum of the first `k` terms. */
  function Sum(ext: seq<Dim>, ascending: seq<bool>, idx: seq<Option<nat>>, k: nat): Option<nat>
    requires Sized(ext) && k <= |idx| <= |ext|
  {
    if k == 0 then Some(0)
    else AddWord(Sum(ext, ascending, idx, k - 1),
                 MulWord(CoordOf(ext[k - 1], Flag(ascending, k - 1), idx[k - 1]), Some(StrideWord(ext, k - 1))))
  }

  /** The conjunction of the first `k` guards. */
  function Guards(ext: seq<Dim>, ascending: seq<bool>, idx: seq<Option<nat>>, k: nat): Bit
    requires Sized(ext) && k <= |idx| <= |ext|
  {
    if k == 0 then B1
    else And(Guards(ext, ascending, idx, k - 1), GuardOf(ext[k - 1], Flag(ascending, k - 1), idx[k - 1]))
  }

  /** The value of the whole flattened expression. Only two or more dimensions are guarded. */
  function FlatWord(ext: seq<Dim>, ascending: seq<bool>, idx: seq<Option<nat>>): Option<nat>
    requires Sized(ext) && |idx| <= |ext|
  {
    if |ext| >= 2 && |idx| >= 1
    then GuardedWord(Guards(ext, ascending, idx, |idx|), Sum(ext, ascending, idx, |idx|), Some(OOB))
    else Sum(ext, ascending, idx, |idx|)
  }

  // ---- what it means ----

  /** The 0-based coordinate of a 32-bit index, and whether it names an element. */
  function Coordinate(dim: Dim, i: nat): nat { (i - dim.lo) % WORD }

  predicate Within(dim: Dim, i: nat) { Coordinate(dim, i) < dim.size }

  function SlotOf(dim: Dim, ascending: bool, i: nat): nat {
    if ascending then (dim.size - 1 - Coordinate(dim, i)) % WORD else Coordinate(dim, i)
  }

  /** The bounds the 32-bit constants can carry; an ascending dimension also needs a lower bound
      that is not negative (the code reports the others). */
  predicate Representable(dim: Dim, ascending: bool) {
    if dim.lo >= 0 then LowConst(dim.lo) + dim.size <= WORD
    else !ascending && (-dim.lo <= U32_MAX || (-dim.lo) % WORD == U32_MAX)
  }

  predicate AllRepresentable(ext: seq<Dim>, ascending: seq<bool>) {
    forall k :: 0 <= k < |ext| ==> Representable(ext[k], Flag(ascending, k))
  }

  predicate Words32(idx: seq<Option<nat>>) {
    forall k :: 0 <= k < |idx| ==> idx[k].Some? ==> idx[k].value < WORD
  }

  lemma ModEqual(x: int, y: int, k: int)
    requires x == y + k * WORD
    ensures x % WORD == y % WORD
  {
  }

  lemma CoordMeaning(dim: Dim, ascending: bool, i: nat)
    requires 1 <= dim.size < WORD && i < WORD && Representable(dim, ascending)
    ensures CoordOf(dim, ascending, Some(i)) == Some(SlotOf(dim, ascending, i))
  {
    var c, p := Coordinate(dim, i), (i - dim.lo) / WORD;
    if dim.lo < 0 {
      if -dim.lo <= U32_MAX {
        ModEqual(i + Magnitude(dim.lo), i - dim.lo, 0);
      } else {
        ModEqual(i + Magnitude(dim.lo), i - dim.lo, -((-dim.lo) / WORD));
      }
    } else {
      var l, q := LowConst(dim.lo), dim.lo / WORD;
      if ascending {
        ModEqual(l + dim.size - 1 - i, dim.size - 1 - c, -(p + q));
      } else {
        ModEqual(i - l, i - dim.lo, q);
      }
    }
  }

  lemma GuardMeaning(dim: Dim, ascending: bool, i: nat)
    requires 1 <= dim.size < WORD && i < WORD && Representable(dim, ascending)
    ensures GuardOf(dim, ascending, Some(i)) == if Within(dim, i) then B1 else B0
  {
    if dim.lo < 0 {
      CoordMeaning(dim, ascending, i);
    } else {
      var l, q := LowConst(dim.lo), dim.lo / WORD;
      ModEqual(i - dim.lo, i - l, -q);
      if i < l { ModEqual(i - l, i - l + WORD, -1); }
      assert Coordinate(dim, i) == if i >= l then i - l else i - l + WORD;
    }
  }

  /** The guard answers the declared range check on every 32-bit index. */
  ghost predicate GuardIsRangeCheck(dim: Dim)
    requires dim.size >= 1
  {
    forall i: nat :: i < WORD ==> GuardOf(dim, false, Some(i)) == if Within(dim, i) then B1 else B0
  }

  lemma SaturatedBoundFails(dim: Dim)
    requires 1 <= dim.size < WORD && dim.lo >= 0 && !Representable(dim, false)
    ensures !GuardIsRangeCheck(dim)
  {
    // Index 0 is a wrapped element that the saturated upper bound leaves out.
    var l, q := LowConst(dim.lo), dim.lo / WORD;
    ModEqual(0 - dim.lo, WORD - l, -(q + 1));
    assert Coordinate(dim, 0) == WORD - l;
    assert Within(dim, 0) && GuardOf(dim, false, Some(0)) == B0;
  }

  lemma ClampedMagnitudeFails(dim: Dim)
    requires 1 <= dim.size < WORD && dim.lo < 0 && !Representable(dim, false)
    ensures !GuardIsRangeCheck(dim)
  {
    // The clamped magnitude has another residue, so coordinate 0 or a later one moves out of range.
    var m, q := (-dim.lo) % WORD, (-dim.lo) / WORD;
    var shift := U32_MAX - m;
    assert 1 <= shift < WORD;
    var e := if shift >= dim.size then 0 else dim.size - shift;
    var i: nat := (e + dim.lo) % WORD;
    var k := (e + dim.lo) / WORD;
    ModEqual(i - dim.lo, e, -k);
    assert Coordinate(dim, i) == e && Within(dim, i);
    ModEqual(i + U32_MAX, e + shift, -(q + k));
    assert CoordOf(dim, false, Some(i)) == Some(e + shift);
    assert GuardOf(dim, false, Some(i)) == B0;
  }

  /** The guard is the range check on every 32-bit index exactly when the bounds are representable. */
  lemma GuardExactlyWhenRepresentable(dim: Dim)
    requires 1 <= dim.size < WORD
    ensures GuardIsRangeCheck(dim) <==> Representable(dim, false)
  {
    if Representable(dim, false) {
      forall i: nat | i < WORD
        ensures GuardOf(dim, false, Some(i)) == if Within(dim, i) then B1 else B0
      {
        GuardMeaning(dim, false, i);
      }
    } else if dim.lo >= 0 {
      SaturatedBoundFails(dim);
    } else {
      ClampedMagnitudeFails(dim);
    }
  }

  /** For a 32-bit source index, `Within` is the declared range and the coordinate is the distance
      from the lower bound (IEEE 1800-2017 section 7.4.6). */
  lemma SourceIndex(dim: Dim, x: int)
    requires 1 <= dim.size < WORD
    requires -0x8000_0000 <= dim.lo && dim.lo + dim.size <= 0x8000_0000 && -0x8000_0000 <= x < 0x8000_0000
    ensures Within(dim, x % WORD) <==> dim.lo <= x < dim.lo + dim.size
    ensures Within(dim, x % WORD) ==> Coordinate(dim, x % WORD) == x - dim.lo
  {
    var c := Coordinate(dim, x % WORD);
    assert c == (x - dim.lo) % WORD;
    assert c == if x >= dim.lo then x - dim.lo else x - dim.lo + WORD;
  }

  lemma SlotWithin(dim: Dim, ascending: bool, i: nat)
    requires 1 <= dim.size < WORD && i < WORD && Representable(dim, ascending)
    ensures SlotOf(dim, ascending, i) < dim.size <==> Within(dim, i)
  {
  }

  /** One dimension carries no guard; its coordinate is in range exactly when the index is. */
  lemma OneDimension(dim: Dim, ascending: bool, i: nat)
    requires 1 <= dim.size < WORD && i < WORD && Representable(dim, ascending)
    ensures FlatWord([dim], [ascending], [Some(i)]) == Some(SlotOf(dim, ascending, i))
    ensures SlotOf(dim, ascending, i) < dim.size <==> Within(dim, i)
  {
    hide SlotOf, Within, Representable;
    var ext, asc, idx := [dim], [ascending], [Some(i)];
    CoordMeaning(dim, ascending, i);
    SlotWithin(dim, ascending, i);
    assert Sum(ext, asc, idx, 0) == Some(0);
    assert Stride(ext, 0) == 1;
    assert Sum(ext, asc, idx, 1) == AddWord(Some(0), MulWord(Some(SlotOf(dim, ascending, i)), Some(1)));
  }

  lemma {:induction false} StrideIsProduct(ext: seq<Dim>, k: nat)
    requires Sized(ext) && k < |ext| && Product(ext) <= MAX_ARRAY_LEN
    ensures Stride(ext, k) == StrideWord(ext, k) == Product(ext[k + 1..])
    decreases |ext| - k
  {
    if k == |ext| - 1 {
      assert ext[k + 1..] == [];
    } else {
      StrideIsProduct(ext, k + 1);
      assert ext[k + 1..][1..] == ext[k + 2..];
      ProductSplit(ext, k + 1);
      assert Product(ext[..k + 1]) >= 1;
      MulBoundRight(Product(ext[..k + 1]), Product(ext[k + 1..]));
      Commute(Product(ext[k + 2..]), ext[k + 1].size);
    }
  }

  lemma Commute(a: int, b: int)
    ensures a * b == b * a
  {
  }

  lemma MulBoundRight(a: nat, b: nat)
    requires a >= 1
    ensures b <= a * b
  {
  }

  /** The slots an all-known index list names. */
  function Slots(ext: seq<Dim>, ascending: seq<bool>, idx: seq<Option<nat>>): (s: seq<nat>)
    requires |idx| <= |ext| && forall k :: 0 <= k < |idx| ==> idx[k].Some?
    ensures |s| == |idx|
  {
    seq(|idx|, k requires 0 <= k < |idx| => SlotOf(ext[k], Flag(ascending, k), idx[k].value))
  }

  predicate AllWithin(ext: seq<Dim>, idx: seq<Option<nat>>)
    requires |idx| <= |ext|
  {
    forall k :: 0 <= k < |idx| ==> idx[k].Some? && Within(ext[k], idx[k].value)
  }

  predicate SomeOutside(ext: seq<Dim>, idx: seq<Option<nat>>)
    requires |idx| <= |ext|
  {
    exists k :: 0 <= k < |idx| && idx[k].Some? && !Within(ext[k], idx[k].value)
  }

  lemma {:induction false} GuardsMeaning(ext: seq<Dim>, ascending: seq<bool>, idx: seq<Option<nat>>, k: nat)
    requires Sized(ext) && k <= |idx| <= |ext| && AllRepresentable(ext, ascending) && Words32(idx)
    ensures Guards(ext, ascending, idx, k)
         == if SomeOutside(ext, idx[..k]) then B0 else if AllWithin(ext, idx[..k]) then B1 else BX
  {
    if k != 0 {
      GuardsMeaning(ext, ascending, idx, k - 1);
      var p, q, d, i := idx[..k - 1], idx[..k], ext[k - 1], idx[k - 1];
      assert q == p + [i];
      if i.Some? { GuardMeaning(d, Flag(ascending, k - 1), i.value); }
      if SomeOutside(ext, p) {
        var j :| 0 <= j < |p| && p[j].Some? && !Within(ext[j], p[j].value);
        assert q[j] == p[j];
      } else if i.Some? && !Within(d, i.value) {
        assert q[k - 1] == i;
      } else {
        assert !SomeOutside(ext, q);
        assert AllWithin(ext, q) <==> AllWithin(ext, p) && i.Some?;
      }
    }
  }

  lemma {:induction false} SumUnknown(ext: seq<Dim>, ascending: seq<bool>, idx: seq<Option<nat>>, k: nat)
    requires Sized(ext) && k <= |idx| <= |ext|
    ensures Sum(ext, ascending, idx, k).Some? <==> forall j :: 0 <= j < k ==> idx[j].Some?
  {
    if k != 0 { SumUnknown(ext, ascending, idx, k - 1); }
  }

  /** One more in-range term: no wrap, because the whole offset stays below the array's length. */
  lemma {:induction false} SumStep(ext: seq<Dim>, slots: seq<nat>, s: nat)
    requires Sized(ext) && |slots| < |ext| && InRange(ext, slots) && s < ext[|slots|].size
    requires Product(ext) <= MAX_ARRAY_LEN
    ensures InRange(ext, slots + [s])
    ensures AddWord(Some(Offset(ext, slots)), MulWord(Some(s), Some(StrideWord(ext, |slots|))))
         == Some(Offset(ext, slots + [s]))
  {
    var all := slots + [s];
    var stride := Product(ext[|slots| + 1..]);
    StrideIsProduct(ext, |slots|);
    OffsetSnoc(ext, slots, s);
    assert InRange(ext, all);
    OffsetBound(ext, all);
    AddTerm(Offset(ext, slots), s, stride);
  }

  lemma AddTerm(x: nat, s: nat, stride: nat)
    requires x + s * stride < WORD
    ensures AddWord(Some(x), MulWord(Some(s), Some(stride))) == Some(x + s * stride)
  {
    var p := s * stride;
    assert 0 <= p < WORD;
    assert p % WORD == p;
  }

  lemma {:induction false} SumIsOffset(ext: seq<Dim>, ascending: seq<bool>, idx: seq<Option<nat>>, k: nat)
    requires Sized(ext) && k <= |idx| <= |ext| && AllRepresentable(ext, ascending) && Words32(idx)
    requires AllWithin(ext, idx) && Product(ext) <= MAX_ARRAY_LEN
    ensures InRange(ext, Slots(ext, ascending, idx)[..k])
    ensures Sum(ext, ascending, idx, k) == Some(Offset(ext, Slots(ext, ascending, idx)[..k]))
  {
    var slots := Slots(ext, ascending, idx);
    if k == 0 {
      assert slots[..0] == [];
    } else {
      SumIsOffset(ext, ascending, idx, k - 1);
      var d, f, i := ext[k - 1], Flag(ascending, k - 1), idx[k - 1].value;
      CoordMeaning(d, f, i);
      assert slots[..k] == slots[..k - 1] + [slots[k - 1]];
      SlotInRange(d, f, i);
      SumStep(ext, slots[..k - 1], slots[k - 1]);
    }
  }

  lemma SlotInRange(dim: Dim, ascending: bool, i: nat)
    requires 1 <= dim.size < WORD && Within(dim, i)
    ensures SlotOf(dim, ascending, i) < dim.size
  {
  }

  /** The flattened expression is the row-major offset when every index is in range, the sentinel
      when a known index is out of range, and unknown otherwise. `idx` may be a prefix. */
  lemma {:induction false} FlatWordMeaning(ext: seq<Dim>, ascending: seq<bool>, idx: seq<Option<nat>>)
    requires Sized(ext) && 2 <= |ext| && 1 <= |idx| <= |ext|
    requires AllRepresentable(ext, ascending) && Words32(idx) && Product(ext) <= MAX_ARRAY_LEN
    ensures AllWithin(ext, idx) ==> InRange(ext, Slots(ext, ascending, idx))
    ensures AllWithin(ext, idx) ==> FlatWord(ext, ascending, idx) == Some(Offset(ext, Slots(ext, ascending, idx)))
    ensures SomeOutside(ext, idx) ==> FlatWord(ext, ascending, idx) == Some(OOB)
    ensures !AllWithin(ext, idx) && !SomeOutside(ext, idx) ==> FlatWord(ext, ascending, idx) == None
  {
    var n := |idx|;
    assert idx[..n] == idx;
    GuardsMeaning(ext, ascending, idx, n);
    if AllWithin(ext, idx) {
      SumIsOffset(ext, ascending, idx, n);
      var s := Slots(ext, ascending, idx);
      assert s[..n] == s;
    } else {
      SumUnknown(ext, ascending, idx, n);
    }
  }

  /** Residual offsets added to an invalid prefix never reach a word of the array. */
  lemma SentinelStable(residual: nat)
    requires residual < MAX_ARRAY_LEN
    ensures AddWord(Some(OOB), Some(residual)) == Some(OOB + residual)
    ensures OOB + residual >= MAX_ARRAY_LEN
  {
  }

  lemma NoWrap(x: nat, r: nat)
    requires x + r < WORD
    ensures AddWord(Some(x), Some(r)) == Some(x + r)
  {
  }

  lemma {:induction false} RowAddress(ext: seq<Dim>, ascending: seq<bool>, p: seq<Option<nat>>, r: nat)
    requires Sized(ext) && 2 <= |ext| && 1 <= |p| < |ext|
    requires AllRepresentable(ext, ascending) && Words32(p) && Product(ext) <= MAX_ARRAY_LEN
    requires AllWithin(ext, p) && r < Product(ext[|p|..])
    ensures InRange(ext, Slots(ext, ascending, p))
    ensures AddWord(FlatWord(ext, ascending, p), Some(r)) == Some(Offset(ext, Slots(ext, ascending, p)) + r)
    ensures Offset(ext, Slots(ext, ascending, p)) + r < Product(ext)
  {
    hide Product, Offset, Sum, Guards, Stride;
    FlatWordMeaning(ext, ascending, p);
    OffsetBound(ext, Slots(ext, ascending, p));
    NoWrap(Offset(ext, Slots(ext, ascending, p)), r);
  }

  /** A valid prefix and a residual below its row address one word of the array, and distinct
      (row, residual) pairs address distinct words. */
  lemma {:induction false} RowBijection(ext: seq<Dim>, ascending: seq<bool>, p: seq<Option<nat>>, q: seq<Option<nat>>, r: nat, s: nat)
    requires Sized(ext) && 2 <= |ext| && 1 <= |p| == |q| < |ext|
    requires AllRepresentable(ext, ascending) && Words32(p) && Words32(q) && Product(ext) <= MAX_ARRAY_LEN
    requires AllWithin(ext, p) && AllWithin(ext, q)
    requires r < Product(ext[|p|..]) && s < Product(ext[|p|..])
    ensures AddWord(FlatWord(ext, ascending, p), Some(r)) == AddWord(FlatWord(ext, ascending, q), Some(s))
       <==> Slots(ext, ascending, p) == Slots(ext, ascending, q) && r == s
  {
    RowAddress(ext, ascending, p, r);
    RowAddress(ext, ascending, q, s);
    var x, y := Slots(ext, ascending, p), Slots(ext, ascending, q);
    if Offset(ext, x) + r == Offset(ext, y) + s {
      OffsetInjective(ext, x, y, r, s);
    }
  }
}
