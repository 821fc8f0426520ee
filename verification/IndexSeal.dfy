/** Sealing an index expression at 32 bits before the address arithmetic sees it. */
module IndexSeal {
  import opened Bits
  import opened Wrappers
  import opened Ir
  import opened RowMajor
  import opened Words

  /** Which geometry an index is lowered for. */
  datatype IndexDomain = ArrayWord | PackedElem | WordsThenElem(words: nat) {
    function At(k: nat): IndexDomain {
      if WordsThenElem? then (if k < words then ArrayWord else PackedElem) else this
    }
  }

  /** What the elaborator's analyses answer about an index expression. */
  datatype Facts = Facts(widthKnown: bool, constant: bool, repeatable: bool, provablyUnsigned: bool)

  /** The sealed form is 32 bits wide. The exceptions are the constants and packed offsets that keep
      their true value, and a narrow signed index that may not be named twice. */
  predicate SealsToWord(sh: Shape, domain: IndexDomain, f: Facts) {
    f.widthKnown &&
    if domain.PackedElem? then
      if sh.width < 32 then sh.signed && f.repeatable else sh.width == 32 && (sh.signed || !f.provablyUnsigned)
    else if f.constant then
      if sh.width < 32 then sh.signed else sh.width == 32 && (sh.signed || !f.provablyUnsigned)
    else
      sh.width >= 32 || !sh.signed || f.repeatable
  }

  /** The vector the sealed index is cut from. A wide index is multiplied by an unsigned 1, so it is
      evaluated as unsigned. */
  function IndexValue(a: Arena, d: Design, st: Store, e: nat): Vec
    requires e < |a|
  {
    var sh := ShapeOf(a, d, e);
    if sh.width > 32 then Eval(a, d, st, e, sh.width, false) else EvalSelf(a, d, st, e)
  }

  /** The index modulo 2^32, read by its own sign. */
  function IndexWord(a: Arena, d: Design, st: Store, e: nat): Option<nat>
    requires e < |a|
  {
    var v := IndexValue(a, d, st, e);
    if Known(v) then Some(ToInt(v, ShapeOf(a, d, e).signed) % WORD) else None
  }

  /** A 32-bit index passes through unsealed, so its value must not depend on the sign of the
      unsigned arithmetic around it. */
  predicate SignStable(a: Arena, d: Design, st: Store, e: nat)
    requires e < |a|
  {
    ShapeOf(a, d, e).width == 32 ==> Eval(a, d, st, e, 32, false) == Eval(a, d, st, e, 32, true)
  }

  /** The seal hands the index over as it is. */
  predicate KeptRaw(sh: Shape, domain: IndexDomain, f: Facts) {
    !f.widthKnown ||
    if domain.PackedElem? then !(sh.signed && sh.width < 32 && f.repeatable) && !(!sh.signed && f.provablyUnsigned)
    else if f.constant then !(sh.signed && sh.width < 32) && !(!sh.signed && f.provablyUnsigned)
    else sh.width == 32 || (sh.width < 32 && sh.signed && !f.repeatable)
  }

  /** The seal puts one zero bit on top. */
  predicate ZeroTopped(sh: Shape, domain: IndexDomain, f: Facts) {
    f.widthKnown && !sh.signed && f.provablyUnsigned && (domain.PackedElem? || f.constant)
  }

  /** The sealed form is at most 32 bits wide. */
  predicate SealsNarrow(sh: Shape, domain: IndexDomain, f: Facts) {
    if KeptRaw(sh, domain, f) then sh.width <= 32 else ZeroTopped(sh, domain, f) ==> sh.width < 32
  }

  /** What 32-bit unsigned arithmetic reads the sealed index as. */
  function AddressWord(a: Arena, d: Design, st: Store, e: nat, domain: IndexDomain, f: Facts): Option<nat>
    requires e < |a|
  {
    if KeptRaw(ShapeOf(a, d, e), domain, f) then IndexOf(Eval(a, d, st, e, 32, false)) else IndexWord(a, d, st, e)
  }

  /** What the sealed index is read as where no arithmetic stands around it. */
  function LoneWord(a: Arena, d: Design, st: Store, e: nat, domain: IndexDomain, f: Facts): Option<nat>
    requires e < |a|
  {
    if KeptRaw(ShapeOf(a, d, e), domain, f) then IndexOf(EvalSelf(a, d, st, e)) else IndexWord(a, d, st, e)
  }

  /** A sign-stable index that seals to 32 bits is read one way only. */
  lemma {:induction false} SealedReads(a: Arena, d: Design, st: Store, e: nat, domain: IndexDomain, f: Facts)
    requires e < |a| && SealsToWord(ShapeOf(a, d, e), domain, f) && SignStable(a, d, st, e)
    ensures SealsNarrow(ShapeOf(a, d, e), domain, f)
    ensures AddressWord(a, d, st, e, domain, f) == LoneWord(a, d, st, e, domain, f) == IndexWord(a, d, st, e)
  {
    hide ToNat;
    if KeptRaw(ShapeOf(a, d, e), domain, f) { RawIsWhole(a, d, st, e); }
  }

  lemma {:induction false} RawIsWhole(a: Arena, d: Design, st: Store, e: nat)
    requires e < |a| && ShapeOf(a, d, e).width == 32
    ensures IndexOf(EvalSelf(a, d, st, e)) == IndexWord(a, d, st, e)
    ensures SignStable(a, d, st, e) ==> IndexOf(Eval(a, d, st, e, 32, false)) == IndexWord(a, d, st, e)
  {
    hide ToNat, Eval;
    Pow2Word();
    var v := EvalSelf(a, d, st, e);
    if Known(v) { WordOfNumber(v, ShapeOf(a, d, e).signed); }
    assert ShapeOf(a, d, e).signed ==> v == Eval(a, d, st, e, 32, true);
    assert !ShapeOf(a, d, e).signed ==> v == Eval(a, d, st, e, 32, false);
  }

  lemma WordOfNumber(v: Vec, signed: bool)
    requires |v| == 32
    ensures ToInt(v, signed) % WORD == ToNat(v)
  {
    hide ToNat;
    Pow2Word();
    assert ToNat(v) < WORD;
  }

  // ---- the nodes the seal emits ----

  lemma ExtensionSpells(v: Vec, signed: bool)
    requires 1 <= |v| <= 32
    ensures Spells(Resize(v, 32, signed), if Known(v) then Some(ToInt(v, signed) % WORD) else None)
  {
    var r := Resize(v, 32, signed);
    Pow2Word();
    SpellsSelf(r);
    if Known(v) {
      ExtendKeepsInt(v, 32, signed);
    } else {
      var i :| 0 <= i < |v| && v[i] == BX;
      ExtensionAppends(v, 32, signed);
      assert r[i] == BX;
    }
  }

  lemma ConstSelf(a: Arena, d: Design, st: Store, e: nat, n: nat, w: nat)
    requires e < |a| && a[e] == Const(FromNat(n, w), false) && 1 <= w <= 32 && n < Pow2(w)
    ensures ShapeOf(a, d, e) == Shape(w, false) && EvalSelf(a, d, st, e) == FromNat(n, w)
    ensures IndexOf(EvalSelf(a, d, st, e)) == Some(n)
  {
    var v := FromNat(n, w);
    assert Resize(v, w, false) == v;
    ToFromSmall(n, w);
  }

  lemma ConstFolds(a: Arena, e: nat, n: nat, w: nat, default: nat)
    requires e < |a| && a[e] == Const(FromNat(n, w), false) && n < Pow2(w) && n <= WIDTH_MAX
    ensures ConstFold(a, e, default) == n
  {
    ToFromSmall(n, w);
  }

  lemma SignBitSelect(a: Arena, d: Design, st: Store, e: nat, raw: nat)
    requires e < |a| && a[e].Select? && a[e].kind.SelBit? && a[e].base == raw
    requires 1 <= ShapeOf(a, d, raw).width <= 32
    requires IndexOf(EvalSelf(a, d, st, a[e].offset)) == Some(ShapeOf(a, d, raw).width - 1)
    ensures ShapeOf(a, d, e) == Shape(1, false)
    ensures EvalSelf(a, d, st, e) == [Fill(EvalSelf(a, d, st, raw), true)]
  {
    var v := EvalSelf(a, d, st, raw);
    var bits := SelectBits(v, Some(|v| - 1), ConstFold(a, a[e].width, 1), SelBit);
    assert |bits| == 1 && bits[0] == BitAt(v, |v| - 1);
    assert Resize(bits, 1, false) == bits;
  }

  lemma {:induction false} CopiesOfBit(b: Bit, n: nat)
    ensures Copies([b], n) == Repeat(b, n)
  {
    if n == 0 {
      assert Repeat(b, 0) == [];
    } else {
      CopiesOfBit(b, n - 1);
      assert Repeat(b, n) == [b] + Repeat(b, n - 1);
    }
  }

  /** `{ {32-w{fill}}, raw }` is the extension of `raw` by `fill`. */
  lemma ExtensionIsWord(a: Arena, d: Design, st: Store, c: nat, raw: nat, signed: bool)
    requires c < |a| && raw < c && a[c].Concat? && |a[c].parts| == 2 && a[c].parts[1] == raw
    requires 1 <= ShapeOf(a, d, raw).width < 32
    requires
      var rep := a[c].parts[0];
      a[rep].Replicate? && ConstFold(a, a[rep].count, 0) == 32 - ShapeOf(a, d, raw).width
      && ShapeOf(a, d, a[rep].value).width == 1
      && EvalSelf(a, d, st, a[rep].value) == [Fill(EvalSelf(a, d, st, raw), signed)]
    ensures EvalSelf(a, d, st, c) == Resize(EvalSelf(a, d, st, raw), 32, signed)
    ensures IsWord(a, d, st, c, if Known(EvalSelf(a, d, st, raw))
                                then Some(ToInt(EvalSelf(a, d, st, raw), signed) % WORD) else None)
  {
    var v := EvalSelf(a, d, st, raw);
    var w := |v|;
    var rep := a[c].parts[0];
    var f := Fill(v, signed);
    CopiesOfBit(f, 32 - w);
    var copies := Repeat(f, 32 - w);
    assert EvalSelf(a, d, st, rep) == copies by { assert Resize(copies, 32 - w, false) == copies; }
    TwoParts(a, d, st, a[c].parts, c);
    var all := v + copies;
    assert Resize(all, 32, false) == all;
    ExtensionAppends(v, 32, signed);
    ExtensionSpells(v, signed);
  }

  lemma TwoParts(a: Arena, d: Design, st: Store, parts: seq<nat>, bound: nat)
    requires bound <= |a| && Below(parts, bound) && |parts| == 2
    ensures PartsWidth(a, d, parts, bound) == ShapeOf(a, d, parts[0]).width + ShapeOf(a, d, parts[1]).width
    ensures EvalParts(a, d, st, parts, bound) == EvalSelf(a, d, st, parts[1]) + EvalSelf(a, d, st, parts[0])
  {
    var tail := parts[1..];
    assert tail == [parts[1]] && tail[1..] == [];
    assert EvalParts(a, d, st, tail, bound) == [] + EvalSelf(a, d, st, parts[1]);
  }

  /** Multiplying by 1 keeps a known vector and spreads any unknown bit. */
  lemma TimesOne(v: Vec, u: Vec)
    requires |v| == |u| && Known(u) && ToNat(u) == 1
    ensures Arith(Mul, v, u, |v|, false) == if Known(v) then v else Unknown(|v|)
  {
    if Known(v) {
      var n := ToNat(v);
      assert n * ToNat(u) == n * 1 == n;
      SmallMod(n, Pow2(|v|));
      FromTo(v);
    }
  }

  lemma OneExtended(w: nat)
    requires w >= 32
    ensures Known(Resize(FromNat(1, 32), w, false)) && ToNat(Resize(FromNat(1, 32), w, false)) == 1
  {
    Pow2Word();
    ToFrom(1, 32);
    ExtensionNat(FromNat(1, 32), w, false);
    ExtensionAppends(FromNat(1, 32), w, false);
  }

  lemma LowBits(v: Vec)
    requires |v| >= 32
    ensures SelectBits(v, Some(0), 32, PartConst) == v[..32]
  {
    var low := SelectBits(v, Some(0), 32, PartConst);
    assert |low| == 32;
    assert forall i :: 0 <= i < 32 ==> low[i] == BitAt(v, i);
  }

  lemma LowWordSpells(v: Vec, signed: bool)
    requires |v| > 32
    ensures Spells((if Known(v) then v else Unknown(|v|))[..32],
                   if Known(v) then Some(ToInt(v, signed) % WORD) else None)
  {
    var p := if Known(v) then v else Unknown(|v|);
    SpellsSelf(p[..32]);
    if Known(v) {
      ToNatTruncate(v, 32);
      WordOfWide(v, signed);
    } else {
      assert p[..32][0] == BX;
    }
  }

  lemma TimesOneNode(a: Arena, d: Design, st: Store, m: nat, raw: nat)
    requires m < |a| && a[m].Binary? && a[m].op.Mul? && a[m].lhs == raw && ShapeOf(a, d, raw).width > 32
    requires IsWordConst(a, a[m].rhs, 1)
    ensures
      var v := Eval(a, d, st, raw, ShapeOf(a, d, raw).width, false);
      EvalSelf(a, d, st, m) == if Known(v) then v else Unknown(|v|)
  {
    var w := ShapeOf(a, d, raw).width;
    var v, u := Eval(a, d, st, raw, w, false), Eval(a, d, st, a[m].rhs, w, false);
    assert u == Resize(FromNat(1, 32), w, false);
    OneExtended(w);
    assert ShapeOf(a, d, m) == Shape(w, false);
    assert EvalSelf(a, d, st, m) == Arith(Mul, v, u, w, false);
    TimesOne(v, u);
  }

  /** The low 32 bits of `raw * 1`. */
  lemma LowWordIsWord(a: Arena, d: Design, st: Store, c: nat, raw: nat)
    requires c < |a| && a[c].Select? && a[c].kind.PartConst? && ConstFold(a, a[c].width, 1) == 32
    requires IndexOf(EvalSelf(a, d, st, a[c].offset)) == Some(0)
    requires raw < a[c].base && ShapeOf(a, d, raw).width > 32
    requires a[a[c].base].Binary? && a[a[c].base].op.Mul? && a[a[c].base].lhs == raw
    requires IsWordConst(a, a[a[c].base].rhs, 1)
    ensures IsWord(a, d, st, c, IndexWord(a, d, st, raw))
  {
    var w := ShapeOf(a, d, raw).width;
    var v := Eval(a, d, st, raw, w, false);
    TimesOneNode(a, d, st, a[c].base, raw);
    var product := EvalSelf(a, d, st, a[c].base);
    LowBits(product);
    var low := product[..32];
    assert Resize(low, 32, false) == low;
    assert Eval(a, d, st, c, 32, false) == low && Eval(a, d, st, c, 32, true) == low;
    LowWordSpells(v, ShapeOf(a, d, raw).signed);
  }

  lemma WordOfWide(v: Vec, signed: bool)
    requires |v| > 32 && Known(v)
    ensures ToInt(v, signed) % WORD == ToNat(v) % Pow2(32)
  {
    Pow2Word();
    Pow2Add(|v| - 32, 32);
    var k := Pow2(|v| - 32);
    SubtractMultiple(ToNat(v), k);
  }

  lemma SubtractMultiple(x: int, k: int)
    ensures (x - k * WORD) % WORD == x % WORD
  {
  }

  lemma RawIsWord(a: Arena, d: Design, st: Store, raw: nat)
    requires raw < |a| && ShapeOf(a, d, raw).width == 32 && SignStable(a, d, st, raw)
    ensures IsWord(a, d, st, raw, IndexWord(a, d, st, raw))
  {
    var v := EvalSelf(a, d, st, raw);
    assert Resize(v, 32, false) == v;
    ExtensionSpells(v, ShapeOf(a, d, raw).signed);
    assert Resize(v, 32, true) == v;
    assert v == Eval(a, d, st, raw, 32, false);
  }

  lemma SignedNumber(n: nat)
    requires n < WORD
    ensures |FromNat(n, 32)| == 32 && ToNat(FromNat(n, 32)) == n
    ensures ToInt(FromNat(n, 32), true) == if n >= 0x8000_0000 then n - WORD else n
  {
    hide FromNat, ToNat, Pow2;
    Pow2Word();
    ToFromSmall(n, 32);
    TopBit(FromNat(n, 32));
    assert Pow2(31) == 0x8000_0000 by { Pow2Add(1, 31); assert Pow2(1) == 2 by { PowOne(); } }
  }

  lemma PowOne()
    ensures Pow2(1) == 2
  {
  }

  /** The seal leaves a 32-bit index alone, yet a signed remainder means another number inside the
      unsigned address arithmetic than by itself: `-7 % 5` is -2 alone and 4 there. */
  lemma SignedRemainderIsNotStable(d: Design, st: Store)
    ensures
      var a: Arena := [Const(FromNat(WORD - 7, 32), true), Const(FromNat(5, 32), true), Binary(Mod, 0, 1)];
      ShapeOf(a, d, 2) == Shape(32, true)
      && Eval(a, d, st, 2, 32, true) == FromNat(WORD - 2, 32)
      && Eval(a, d, st, 2, 32, false) == FromNat(4, 32)
      && !SignStable(a, d, st, 2)
  {
    hide FromNat, ToNat, Pow2;
    var a: Arena := [Const(FromNat(WORD - 7, 32), true), Const(FromNat(5, 32), true), Binary(Mod, 0, 1)];
    var x, y := FromNat(WORD - 7, 32), FromNat(5, 32);
    Pow2Word();
    SignedNumber(WORD - 7);
    SignedNumber(5);
    SignedNumber(WORD - 2);
    SignedNumber(4);
    assert Resize(x, 32, true) == x && Resize(x, 32, false) == x;
    assert Resize(y, 32, true) == y && Resize(y, 32, false) == y;
    assert Remainder(-7, 5) == -2 && -2 % WORD == WORD - 2;
    assert (WORD - 7) % 5 == 4;
    assert Arith(Mod, x, y, 32, true) == FromNat(WORD - 2, 32);
    assert Arith(Mod, x, y, 32, false) == FromNat(4, 32);
  }

  /** Whole nets, array words, literals, selects and concatenations are sign-stable at 32 bits. */
  lemma LeavesAreStable(a: Arena, d: Design, st: Store, e: nat)
    requires e < |a| && (a[e].Signal? || a[e].Select? || a[e].Concat? || (a[e].Const? && |a[e].bits| == 32))
    ensures SignStable(a, d, st, e)
  {
    if ShapeOf(a, d, e).width == 32 && a[e].Signal? {
      var v := ReadWord(d, st, a[e].net, if a[e].word.None? then Some(0) else IndexOf(EvalSelf(a, d, st, a[e].word.value)));
      assert Resize(v, 32, false) == v == Resize(v, 32, true);
    }
  }
}
