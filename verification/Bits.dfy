/** Four-state bit vectors, least significant bit first. `BX` stands for both x and z: the
    evaluator normalises z to x everywhere this model looks. */
module Bits {

  datatype Bit = B0 | B1 | BX

  type Vec = seq<Bit>

  predicate Known(v: Vec) { BX !in v }

  function Pow2(n: nat): (r: nat)
    ensures r >= 1
  {
    if n == 0 then 1 else 2 * Pow2(n - 1)
  }

  function BitValue(b: Bit): nat { if b == B1 then 1 else 0 }

  function ToBit(n: nat): Bit { if n % 2 == 1 then B1 else B0 }

  /** The unsigned number a vector spells; an unknown bit counts as 0. */
  function ToNat(v: Vec): (n: nat)
    ensures n < Pow2(|v|)
  {
    if v == [] then 0 else BitValue(v[0]) + 2 * ToNat(v[1..])
  }

  /** The low `w` bits of `n`. */
  function FromNat(n: nat, w: nat): (v: Vec)
    ensures |v| == w && Known(v)
  {
    if w == 0 then [] else [ToBit(n)] + FromNat(n / 2, w - 1)
  }

  function Repeat(b: Bit, n: nat): (v: Vec)
    ensures |v| == n && forall i :: 0 <= i < n ==> v[i] == b
  {
    seq(n, _ => b)
  }

  function Unknown(w: nat): (v: Vec)
    ensures |v| == w
  {
    Repeat(BX, w)
  }

  /** The bit that fills an extension: the top bit when the extension is signed. */
  function Fill(v: Vec, signed: bool): Bit {
    if signed && v != [] then v[|v| - 1] else B0
  }

  /** Truncate or extend to exactly `w` bits. */
  function Resize(v: Vec, w: nat, signed: bool): (r: Vec)
    ensures |r| == w
  {
    if w <= |v| then v[..w] else v + Repeat(Fill(v, signed), w - |v|)
  }

  /** The integer a known vector spells when read with the given sign. */
  function ToInt(v: Vec, signed: bool): int {
    if signed && v != [] && v[|v| - 1] == B1 then ToNat(v) - Pow2(|v|) else ToNat(v)
  }

  lemma {:induction false} Pow2Add(a: nat, b: nat)
    ensures Pow2(a + b) == Pow2(a) * Pow2(b)
  {
    if a != 0 {
      Pow2Add(a - 1, b);
      assert Pow2(a + b) == 2 * (Pow2(a - 1) * Pow2(b));
    }
  }

  lemma {:induction false} Pow2Monotone(a: nat, b: nat)
    requires a <= b
    ensures Pow2(a) <= Pow2(b)
    ensures a < b ==> 2 * Pow2(a) <= Pow2(b)
  {
    if a < b { Pow2Monotone(a, b - 1); }
  }

  /** `x / 2` and `x % 2` commute with reduction modulo a doubled power. */
  lemma HalveMod(n: nat, m: nat)
    requires m >= 1
    ensures n % (2 * m) == n % 2 + 2 * ((n / 2) % m)
  {
    var h := n / 2;
    var q, r := h / m, h % m;
    assert h == m * q + r;
    assert n == (2 * m) * q + (n % 2 + 2 * r) by {
      assert (2 * m) * q == 2 * (m * q);
    }
    DivModUnique(n, 2 * m, q, n % 2 + 2 * r);
  }

  lemma MulAtLeast(d: int, k: int)
    requires d > 0 && k >= 1
    ensures d * k >= d
  {
  }

  lemma MulDistributes(a: int, b: int, c: int)
    ensures a * (b - c) == a * b - a * c
    ensures a * (b + c) == a * b + a * c
  {
  }

  lemma DivModUnique(x: int, d: int, q: int, r: int)
    requires d > 0 && x == d * q + r && 0 <= r < d
    ensures x / d == q && x % d == r
  {
    var p, s := x / d, x % d;
    assert x == d * p + s && 0 <= s < d;
    MulDistributes(d, q, p);
    MulDistributes(d, p, q);
    if q > p {
      MulAtLeast(d, q - p);
    } else if q < p {
      MulAtLeast(d, p - q);
    }
  }

  lemma {:induction false} ToFrom(n: nat, w: nat)
    ensures ToNat(FromNat(n, w)) == n % Pow2(w)
  {
    if w != 0 {
      ToFrom(n / 2, w - 1);
      HalveMod(n, Pow2(w - 1));
      assert FromNat(n, w)[1..] == FromNat(n / 2, w - 1);
    }
  }

  lemma SmallMod(n: nat, m: nat)
    requires n < m
    ensures n % m == n
  {
    DivModUnique(n, m, 0, n);
  }

  lemma ToFromSmall(n: nat, w: nat)
    requires n < Pow2(w)
    ensures ToNat(FromNat(n, w)) == n
  {
    ToFrom(n, w);
    SmallMod(n, Pow2(w));
  }

  lemma {:induction false} FromTo(v: Vec)
    requires Known(v)
    ensures FromNat(ToNat(v), |v|) == v
  {
    if v != [] {
      var n := ToNat(v);
      assert n % 2 == BitValue(v[0]) && n / 2 == ToNat(v[1..]);
      assert Known(v[1..]);
      FromTo(v[1..]);
      assert v[0] != BX;
      assert v == [v[0]] + v[1..];
    }
  }

  /** Two known vectors of one width are equal when they spell one number. */
  lemma ToNatInjective(a: Vec, b: Vec)
    requires Known(a) && Known(b) && |a| == |b| && ToNat(a) == ToNat(b)
    ensures a == b
  {
    FromTo(a);
    FromTo(b);
  }

  lemma {:induction false} ToNatAppend(lo: Vec, hi: Vec)
    ensures ToNat(lo + hi) == ToNat(lo) + Pow2(|lo|) * ToNat(hi)
  {
    if lo == [] {
      assert lo + hi == hi;
    } else {
      ToNatAppend(lo[1..], hi);
      assert (lo + hi)[1..] == lo[1..] + hi;
      DoubleProduct(Pow2(|lo| - 1), ToNat(hi));
    }
  }

  lemma DoubleProduct(p: int, h: int)
    ensures 2 * (p * h) == (2 * p) * h
  {
  }

  lemma {:induction false} ToNatRepeat(b: Bit, n: nat)
    ensures ToNat(Repeat(b, n)) == if b == B1 then Pow2(n) - 1 else 0
  {
    if n != 0 {
      ToNatRepeat(b, n - 1);
      assert Repeat(b, n)[1..] == Repeat(b, n - 1);
    }
  }

  /** Truncation keeps the value modulo the new width. */
  lemma ToNatTruncate(v: Vec, w: nat)
    requires w <= |v|
    ensures ToNat(v[..w]) == ToNat(v) % Pow2(w)
  {
    assert v == v[..w] + v[w..];
    ToNatAppend(v[..w], v[w..]);
    DivModUnique(ToNat(v), Pow2(w), ToNat(v[w..]), ToNat(v[..w]));
  }

  /** A vector's top bit is its number's top half. */
  lemma {:induction false} TopBit(v: Vec)
    requires v != [] && Known(v)
    ensures v[|v| - 1] == B1 <==> ToNat(v) >= Pow2(|v| - 1)
  {
    var w := |v| - 1;
    assert v == v[..w] + [v[w]];
    ToNatAppend(v[..w], [v[w]]);
    assert ToNat([v[w]]) == BitValue(v[w]) by { assert [v[w]][1..] == []; }
  }

  lemma ExtensionAppends(v: Vec, w: nat, signed: bool)
    requires |v| <= w
    ensures Resize(v, w, signed) == v + Repeat(Fill(v, signed), w - |v|)
  {
  }

  /** The number an extension spells: the fill bits add nothing, or everything above `v`. */
  lemma ExtensionNat(v: Vec, w: nat, signed: bool)
    requires |v| <= w
    ensures ToNat(Resize(v, w, signed))
         == if Fill(v, signed) == B1 then ToNat(v) + Pow2(w) - Pow2(|v|) else ToNat(v)
  {
    ExtensionAppends(v, w, signed);
    AppendFill(v, Fill(v, signed), w - |v|);
  }

  lemma AppendFill(v: Vec, f: Bit, n: nat)
    ensures ToNat(v + Repeat(f, n)) == if f == B1 then ToNat(v) + Pow2(|v| + n) - Pow2(|v|) else ToNat(v)
  {
    hide ToNat, Pow2, Repeat;
    ToNatAppend(v, Repeat(f, n));
    ToNatRepeat(f, n);
    FillProduct(|v|, n, ToNat(Repeat(f, n)));
  }

  lemma FillProduct(a: nat, b: nat, r: nat)
    ensures r == Pow2(b) - 1 ==> Pow2(a) * r == Pow2(a + b) - Pow2(a)
    ensures r == 0 ==> Pow2(a) * r == 0
  {
    hide Pow2;
    Pow2Add(a, b);
    MulDistributes(Pow2(a), Pow2(b), 1);
  }

  lemma ExtensionTop(v: Vec, w: nat, signed: bool)
    requires Known(v) && v != [] && |v| <= w
    ensures Known(Resize(v, w, signed))
    ensures signed ==> Resize(v, w, signed)[w - 1] == v[|v| - 1]
  {
    ExtensionAppends(v, w, signed);
  }

  /** Extending a known vector by its own sign keeps the integer it spells, so its number is that
      integer modulo the new width. */
  lemma ExtendKeepsInt(v: Vec, w: nat, signed: bool)
    requires Known(v) && v != [] && |v| <= w
    ensures Known(Resize(v, w, signed))
    ensures ToInt(Resize(v, w, signed), signed) == ToInt(v, signed)
    ensures ToNat(Resize(v, w, signed)) == ToInt(v, signed) % Pow2(w)
  {
    hide ToNat, Pow2, Repeat;
    var r := Resize(v, w, signed);
    ExtensionTop(v, w, signed);
    ExtensionNat(v, w, signed);
    Pow2Monotone(|v|, w);
    if Fill(v, signed) == B1 {
      DivModUnique(ToInt(v, signed), Pow2(w), -1, ToNat(r));
    } else {
      DivModUnique(ToInt(v, signed), Pow2(w), 0, ToNat(r));
    }
  }
}
