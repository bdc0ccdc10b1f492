/** bench/tools/fdlibm/s_floor.c, s_ceil.c and s_modf.c, and the integer test of e_pow.c:
    the integral and fractional parts of a double, taken word by word. */
module Integral {
  import opened Arith
  import opened Words
  import opened Ieee
  import opened Float
  import opened Scalbn

  /** The magnitude of 1.0. */
  ghost function One(): (p: nat)
    ensures p > 0
  {
    Pow2(1074)
  }

  // ---- where the fraction bits are ----

  /** The number of fraction bits of a code with exponent field 1023 to 1075. */
  function FractionBits(c: nat): (t: int) { 1075 - c / TWO52 }

  lemma SigOfCode(c: nat, t: nat)
    requires c >= TWO52 && t <= 52
    ensures Pow2(t) * Pow2(52 - t) == TWO52
    ensures Sig(c) % Pow2(t) == c % Pow2(t)
    ensures c / Pow2(t) == Sig(c) / Pow2(t) + (c / TWO52 - 1) * Pow2(52 - t)
  {
    var p, q, e := Pow2(t), Pow2(52 - t), c / TWO52 - 1;
    assert p * q == TWO52 by { Pow2Add(t, 52 - t); Pow2Values(); }
    assert c == Sig(c) + (e * q) * p by { assert c == Sig(c) + e * TWO52; Reassoc(e, q, p); }
    ModAddMul(Sig(c), e * q, p);
  }

  /** Integral and fractional part of a magnitude, read off the code. */
  lemma Parts(c: nat, t: nat, w: nat)
    requires 1023 <= c / TWO52 && t == FractionBits(c) && w == 1074
    ensures MagAt(c) / Pow2(w) == Sig(c) / Pow2(t)
    ensures MagAt(c) % Pow2(w) == (c % Pow2(t)) * Pow2(w - t)
  {
    var u := w - t;
    MagIsSigTimesUlp(c);
    assert Ulp(c) == Pow2(u);
    Pow2Add(t, u);
    MulDivMod(Sig(c), Pow2(t), Pow2(u));
    SigOfCode(c, t);
  }

  lemma Parity(c: nat, t: nat, w: nat)
    requires 1023 <= c / TWO52 && t == FractionBits(c) && w == 1074
    ensures (MagAt(c) / Pow2(w)) % 2 == (c / Pow2(t)) % 2
  {
    var s, r := Sig(c) / Pow2(t), (c / TWO52 - 1) * Pow2(52 - t);
    assert r % 2 == 0 by { EvenShift(c / TWO52 - 1, t); }
    assert MagAt(c) / Pow2(w) == s by { Parts(c, t, w); }
    assert c / Pow2(t) == s + r by { SigOfCode(c, t); }
    SameParity(MagAt(c) / Pow2(w), c / Pow2(t), r);
  }

  lemma EvenShift(e: nat, t: nat)
    requires t <= 52 && e == 1074 - t
    ensures (e * Pow2(52 - t)) % 2 == 0
  {
    if t < 52 { TwiceIsEven(e, Pow2(51 - t), Pow2(52 - t)); }
  }

  lemma TwiceIsEven(a: int, b: int, d: int)
    requires d == 2 * b
    ensures (a * d) % 2 == 0
  {
    Doubled(a, b);
  }

  lemma SameParity(a: int, b: int, r: int)
    requires b == a + r && r % 2 == 0
    ensures a % 2 == b % 2
  {
  }

  /** From 2^52 on every double is an integer, from 2^53 on an even one. */
  lemma Large(c: nat, w: nat)
    requires c / TWO52 >= 1075 && w == 1074
    ensures MagAt(c) % Pow2(w) == 0
    ensures c / TWO52 >= 1076 ==> (MagAt(c) / Pow2(w)) % 2 == 0
  {
    var e := c / TWO52 - 1075;
    var k := Sig(c) * Pow2(e);
    assert MagAt(c) == k * Pow2(w) by {
      MagIsSigTimesUlp(c);
      Pow2Add(e, w);
      Reassoc(Sig(c), Pow2(e), Pow2(w));
    }
    DivModUnique(MagAt(c), Pow2(w), k, 0);
    if e > 0 { TwiceIsEven(Sig(c), Pow2(e - 1), Pow2(e)); }
  }

  lemma Small(c: nat, w: nat)
    requires w == 1074
    ensures c / TWO52 < 1023 <==> MagAt(c) < Pow2(w)
  {
    MagShift(TWO52, w - 52);
    Pow2Add(52, w - 52);
    Pow2Values();
    MagOrder(c, 1023 * TWO52);
  }

  /** c with its bits below p = 2^t cleared. */
  function Cleared(c: nat, p: nat): (d: nat)
    requires p > 0
    ensures d + c % p == c
  {
    assert c % p <= c by { if c < p { DivModUnique(c, p, 0, c); } }
    c - c % p
  }

  /** Clearing the fraction bits takes the fraction away. */
  lemma Truncated(c: nat, t: nat, w: nat)
    requires 1023 <= c / TWO52 && t == FractionBits(c) && w == 1074
    ensures MagAt(Cleared(c, Pow2(t))) == MagAt(c) - MagAt(c) % Pow2(w)
  {
    var r, d := c % Pow2(t), Cleared(c, Pow2(t));
    assert MagAt(c) % Pow2(w) == r * Pow2(w - t) by { Parts(c, t, w); }
    assert MagAt(c) == MagAt(d) + r * Pow2(w - t) by {
      FractionRoom(c, t, w);
      MagLinear(d, r);
    }
  }

  lemma FractionRoom(c: nat, t: nat, w: nat)
    requires 1023 <= c / TWO52 && t == FractionBits(c) && w == 1074
    ensures var d := Cleared(c, Pow2(t)); d % TWO52 + Pow2(t) <= TWO52 && Ulp(d) == Pow2(w - t)
  {
    SigOfCode(c, t);
    BelowFraction(c, Pow2(t), Pow2(52 - t));
    MagIsSigTimesUlp(Cleared(c, Pow2(t)));
  }

  /** Clearing the low bits stays in the binade and leaves room for one more unit. */
  lemma BelowFraction(c: nat, p: nat, q: nat)
    requires p > 0 && q > 0 && p * q == TWO52
    ensures c % p <= c % TWO52
    ensures Cleared(c, p) / TWO52 == c / TWO52
    ensures Cleared(c, p) % TWO52 + p <= TWO52
  {
    var e, f := c / TWO52, c % TWO52;
    assert c == f + (e * q) * p by { Reassoc(e, q, p); }
    ModAddMul(f, e * q, p);
    var k := f / p;
    assert f == k * p + f % p;
    if k >= q { MulMono(q, k, p); assert false; }
    MulMono(k + 1, q, p);
    DivModUnique(Cleared(c, p), TWO52, e, k * p);
  }

  /** One more unit on top is one more. */
  lemma Incremented(c: nat, t: nat, w: nat)
    requires 1023 <= c / TWO52 && t == FractionBits(c) && w == 1074
    ensures MagAt(Cleared(c, Pow2(t)) + Pow2(t)) == MagAt(c) - MagAt(c) % Pow2(w) + Pow2(w)
  {
    var p := Pow2(t);
    var d := Cleared(c, p);
    FractionRoom(c, t, w);
    assert MagAt(d + p) == MagAt(d) + p * Ulp(d) by { MagLinear(d, p); }
    assert p * Ulp(d) == Pow2(w) by { Pow2Add(t, w - t); }
    Truncated(c, t, w);
  }

  // ---- the integral part of a code ----

  /** The next multiple of p at or below c, or above it. */
  function Stepped(c: nat, p: nat, up: bool): (d: nat)
    requires p > 0
  {
    if c % p == 0 then c else if up then Cleared(c, p) + p else Cleared(c, p)
  }

  lemma MultipleOf(m: nat, r: nat, o: nat)
    requires o > 0 && r == m % o
    ensures (m - r) % o == 0 && (m - r + o) % o == 0
  {
    var q := m / o;
    DivModUnique(m - r, o, q, 0);
    DivModUnique(m - r + o, o, q + 1, 0);
  }

  /** Stepping the code is stepping the magnitude to a multiple of one. */
  lemma SteppedMag(c: nat, t: nat, up: bool, w: nat)
    requires 1023 <= c / TWO52 && 1 <= t == FractionBits(c) && w == 1074
    ensures MagAt(Stepped(c, Pow2(t), up)) % Pow2(w) == 0
    ensures up ==> MagAt(c) <= MagAt(Stepped(c, Pow2(t), up)) < MagAt(c) + Pow2(w)
    ensures !up ==> MagAt(Stepped(c, Pow2(t), up)) <= MagAt(c) < MagAt(Stepped(c, Pow2(t), up)) + Pow2(w)
  {
    var m, r, o, e := SteppedCases(c, t, up, w);
    StepBounds(m, r, o, e, up);
  }

  lemma SteppedCases(c: nat, t: nat, up: bool, w: nat) returns (m: nat, r: nat, o: nat, e: nat)
    requires 1023 <= c / TWO52 && 1 <= t == FractionBits(c) && w == 1074
    ensures m == MagAt(c) && o == Pow2(w) && r == m % o && e == MagAt(Stepped(c, Pow2(t), up))
    ensures e == if r == 0 then m else if up then m - r + o else m - r
  {
    m, o, e := MagAt(c), Pow2(w), MagAt(Stepped(c, Pow2(t), up));
    r := m % o;
    assert r == 0 <==> c % Pow2(t) == 0 by {
      Parts(c, t, w);
      Vanishes(c % Pow2(t), Pow2(w - t));
    }
    if up { Incremented(c, t, w); } else { Truncated(c, t, w); }
  }

  lemma StepBounds(m: nat, r: nat, o: nat, d: nat, up: bool)
    requires o > 0 && r == m % o && d == if r == 0 then m else if up then m - r + o else m - r
    ensures d % o == 0
    ensures if up then m <= d < m + o else d <= m < d + o
  {
    MultipleOf(m, r, o);
  }

  lemma Vanishes(r: nat, u: nat)
    requires u > 0
    ensures r * u == 0 <==> r == 0
  {
    if r > 0 { MulMono(1, r, u); }
  }

  lemma SteppedFinite(c: nat, t: nat, up: bool)
    requires 1023 <= c / TWO52 && 1 <= t == FractionBits(c)
    ensures TWO52 <= Stepped(c, Pow2(t), up) < INF
  {
    FractionRoom(c, t, 1074);
    SigOfCode(c, t);
    BelowFraction(c, Pow2(t), Pow2(52 - t));
  }

  // ---- the words ----

  /** `((i0 >> 20) & 0x7ff) - 0x3ff` */
  function Exponent(i0: u32): (j: int)
    ensures j == (i0 % SIGN) / 0x10_0000 - 0x3ff
  {
    var e := Shr(i0, 20);
    assert e == i0 / 0x10_0000 by { Pow2Values(); ShrIsDiv(i0, 20); }
    ElevenBits(e);
    ExponentBits(i0, e, i0 % 0x10_0000);
    And(e, 0x7ff) - 0x3ff
  }

  lemma ShiftedOnes(n: nat, k: nat)
    requires k <= n
    ensures (Pow2(n) - 1) / Pow2(k) == Pow2(n - k) - 1
  {
    Pow2Add(n - k, k);
    DivModUnique(Pow2(n) - 1, Pow2(k), Pow2(n - k) - 1, Pow2(k) - 1);
  }

  lemma ShiftedPower(n: nat, k: nat)
    requires k <= n
    ensures Pow2(n) / Pow2(k) == Pow2(n - k)
  {
    Pow2Add(n - k, k);
    DivModUnique(Pow2(n), Pow2(k), Pow2(n - k), 0);
  }

  /** `0x000fffff >> j0` */
  function HighFraction(j0: nat): (i: u32)
    requires j0 <= 20
    ensures i == Pow2(20 - j0) - 1
  {
    Pow2Values();
    ShiftedOnes(20, j0);
    ShrIsDiv(0x000f_ffff, j0);
    Shr(0x000f_ffff, j0)
  }

  /** `0x00100000 >> j0` */
  function HighUnit(j0: nat): (i: u32)
    requires j0 <= 20
    ensures i == Pow2(20 - j0)
  {
    Pow2Values();
    ShiftedPower(20, j0);
    ShrIsDiv(0x0010_0000, j0);
    Shr(0x0010_0000, j0)
  }

  /** `0xffffffff >> (j0 - 20)` */
  function LowFraction(j0: nat): (i: u32)
    requires 20 <= j0 <= 52
    ensures i == Pow2(52 - j0) - 1
  {
    Pow2Values();
    ShiftedOnes(32, j0 - 20);
    ShrIsDiv(0xffff_ffff, j0 - 20);
    Shr(0xffff_ffff, j0 - 20)
  }

  lemma Split(w: nat, p: nat) returns (h: nat, l: nat)
    requires p > 0
    ensures w == h * p + l && l == w % p < p
  {
    h, l := w / p, w % p;
  }

  /** `w & i` for a mask i of k ones */
  function Under(w: u32, i: u32, ghost k: nat): (r: u32)
    requires i == Pow2(k) - 1
    ensures r == w % Pow2(k)
  {
    UnderIs(w, k);
    And(w, i)
  }

  lemma UnderIs(w: u32, k: nat)
    ensures And(w, Pow2(k) - 1) == w % Pow2(k)
  {
    var h, l := Split(w, Pow2(k));
    AndLowMask(w, h, l, k);
  }

  /** `w & ~i` */
  function Over(w: u32, i: u32, ghost k: nat): (r: u32)
    requires k <= 32 && i == Pow2(k) - 1
    ensures r + w % Pow2(k) == w
  {
    OverIs(w, k);
    And(w, 0xffff_ffff - i)
  }

  lemma OverIs(w: u32, k: nat)
    requires k <= 32
    ensures Pow2(k) <= TWO32 && And(w, TWO32 - Pow2(k)) + w % Pow2(k) == w
  {
    var h, l := Split(w, Pow2(k));
    AndNotLowMask(w, h, l, k);
  }

  /** The fraction bits of a code, in its two words. */
  lemma LowBitsHigh(x: Double, u: nat)
    requires u <= 20
    ensures Code(x) % Pow2(32 + u) == (x.hi % Pow2(u)) * TWO32 + x.lo
  {
    var p := Pow2(u);
    Pow2Add(32, u);
    Pow2Values();
    DivDiv(Code(x), TWO32, p);
    assert Code(x) / TWO32 == x.hi % SIGN && Code(x) % TWO32 == x.lo;
    SignMultiple(x.hi, u);
  }

  lemma SignMultiple(h: u32, u: nat)
    requires u <= 31
    ensures (h % SIGN) % Pow2(u) == h % Pow2(u)
  {
    var p, q := Pow2(u), Pow2(31 - u);
    assert q * p == SIGN by { Pow2Add(31 - u, u); Pow2Values(); }
    WordParts(h);
    ModAdd(h, h % SIGN, if h < SIGN then 0 else q, p);
  }

  lemma WordParts(h: u32)
    ensures h == h % SIGN + (if h < SIGN then 0 else SIGN)
  {
  }

  lemma ModAdd(h: int, m: int, q: int, p: nat)
    requires p > 0 && h == m + q * p
    ensures h % p == m % p
  {
    ModAddMul(m, q, p);
  }

  lemma LowBitsLow(x: Double, v: nat)
    requires v <= 32
    ensures Code(x) % Pow2(v) == x.lo % Pow2(v)
  {
    var p, q := Pow2(v), Pow2(32 - v);
    assert p * q == TWO32 by { Pow2Add(v, 32 - v); Pow2Values(); }
    var h := x.hi % SIGN;
    Reassoc(h, q, p);
    ModAddMul(x.lo, h * q, p);
  }

  /** `huge + x > 0.0` */
  predicate HugePlusPositive(x: Double)
    requires Code(x) < Code(HUGE)
    ensures HugePlusPositive(x)
  {
    MagOrder(Code(x), Code(HUGE));
    PositiveSum(HUGE, x);
    FLess(ZERO, FAdd(HUGE, x))
  }

  lemma PositiveSum(h: Double, x: Double)
    requires Finite(h) && !Neg(h) && Mag(x) < Mag(h) && Finite(x)
    ensures FLess(ZERO, FAdd(h, x))
  {
    var v := Value(h) + Value(x);
    RoundPositive(v);
    MagOrder(0, RoundCode(v, 0));
  }

  /** The integer part is in the high word. */
  method StepHigh(x: Double, j0: nat, up: bool) returns (z: Double)
    requires j0 < 20 && Code(x) / TWO52 == j0 + 1023
    ensures Neg(z) == Neg(x) && Code(z) == Stepped(Code(x), Pow2(52 - j0), up)
  {
    ghost var u := 20 - j0;
    assert Code(x) % Pow2(52 - j0) == (x.hi % Pow2(u)) * TWO32 + x.lo by { LowBitsHigh(x, u); }
    var i := HighFraction(j0);
    if BothZero(Under(x.hi, i, u), x.lo) { return x; }
    if HugePlusPositive(x) {
      var i0: u32 := x.hi;
      if up { i0 := AddHigh(i0, j0); }
      z := Double(Over(i0, i, u), 0);
      StepHighWords(x, u, up, i0, z.hi);
    }
  }

  /** `i0 += 0x00100000 >> j0` */
  function AddHigh(i0: u32, j0: nat): (h: u32)
    requires j0 < 20 && i0 % SIGN < 0x7ff0_0000
    ensures (h >= SIGN <==> i0 >= SIGN) && h % SIGN == i0 % SIGN + Pow2(20 - j0)
    ensures h % Pow2(20 - j0) == i0 % Pow2(20 - j0)
  {
    var p: u32 := HighUnit(j0);
    assert p <= 0x10_0000 by { Pow2Mono(20 - j0, 20); Pow2Values(); }
    Raised(i0, p);
    i0 + p
  }

  lemma Raised(i0: u32, p: nat)
    requires i0 % SIGN < 0x7ff0_0000 && 0 < p <= 0x10_0000
    ensures (i0 + p >= SIGN <==> i0 >= SIGN) && (i0 + p) % SIGN == i0 % SIGN + p
    ensures (i0 + p) % p == i0 % p
  {
    var h: int := i0 + p;
    ModAdd(h, i0, 1, p);
    WordParts(i0);
    DivModUnique(h, SIGN, if i0 < SIGN then 0 else 1, i0 % SIGN + p);
  }

  lemma StepHighWords(x: Double, u: nat, up: bool, i0: u32, h: u32)
    requires u <= 20 && Code(x) % Pow2(32 + u) == (x.hi % Pow2(u)) * TWO32 + x.lo != 0
    requires (i0 >= SIGN) == Neg(x) && i0 % SIGN == x.hi % SIGN + (if up then Pow2(u) else 0)
    requires i0 % Pow2(u) == x.hi % Pow2(u) && h + i0 % Pow2(u) == i0
    ensures Neg(Double(h, 0)) == Neg(x)
    ensures Code(Double(h, 0)) == Stepped(Code(x), Pow2(32 + u), up)
  {
    var p: nat, r: nat := Pow2(u), x.hi % Pow2(u);
    assert Pow2(32 + u) == p * TWO32 by { Pow2Add(u, 32); Pow2Values(); }
    assert r <= x.hi % SIGN by { SignMultiple(x.hi, u); ghost var d := Cleared(x.hi % SIGN, p); }
    HighDrop(i0, r, h);
  }

  lemma HighDrop(i0: u32, r: nat, h: u32)
    requires r <= i0 % SIGN && h + r == i0
    ensures (h >= SIGN) == (i0 >= SIGN) && h % SIGN == i0 % SIGN - r
  {
  }

  /** `j = i1 + (1 << v); if (j < i1) i0 += 1` */
  method AddUnit(i0: u32, i1: u32, v: nat) returns (h: u32, j: u32)
    requires v < 32 && i0 % SIGN < 0x7ff0_0000
    ensures (h >= SIGN) == (i0 >= SIGN)
    ensures Wide(h % SIGN, j) == Wide(i0 % SIGN, i1) + Pow2(v)
    ensures j % Pow2(v) == i1 % Pow2(v)
  {
    var p: u32 := LowUnit(v);
    j := Wrap(i1 + p);
    h := i0;
    if j < i1 { h := Successor(i0); }
    assert j % Pow2(v) == i1 % Pow2(v) by { WrappedMod(i1, j, v); }
  }

  /** `i0 += 1` */
  function Successor(i0: u32): (h: u32)
    requires i0 % SIGN < 0x7ff0_0000
    ensures (h >= SIGN <==> i0 >= SIGN) && h % SIGN == i0 % SIGN + 1
  {
    i0 + 1
  }

  function LowUnit(v: nat): (p: u32)
    requires v < 32
    ensures p == Pow2(v) <= SIGN
  {
    assert Pow2(v) <= SIGN by { Pow2Values(); Pow2Mono(v, 31); }
    ShlExact(1, v, Pow2(v));
    Shl(1, v)
  }

  lemma WrappedMod(i: int, j: int, v: nat)
    requires v <= 32 && (j == i + Pow2(v) || j + TWO32 == i + Pow2(v))
    ensures j % Pow2(v) == i % Pow2(v)
  {
    Pow2Add(32 - v, v);
    Pow2Values();
    WrappedModulo(i, j, Pow2(v), Pow2(32 - v));
  }

  lemma WrappedModulo(i: int, j: int, p: nat, q: nat)
    requires p > 0 && q * p == TWO32 && (j == i + p || j + TWO32 == i + p)
    ensures j % p == i % p
  {
    ModAdd(i + p, i, 1, p);
    if j != i + p { ModAdd(i + p, j, q, p); }
  }

  method AddLow(i0: u32, i1: u32, j0: nat) returns (h: u32, j: u32)
    requires 20 <= j0 <= 51 && i0 % SIGN < 0x7ff0_0000
    ensures (h >= SIGN) == (i0 >= SIGN)
    ensures Wide(h % SIGN, j) == Wide(i0 % SIGN, i1) + Pow2(52 - j0)
    ensures j % Pow2(52 - j0) == i1 % Pow2(52 - j0)
  {
    if j0 == 20 {
      assert Pow2(52 - j0) == TWO32 by { Pow2Values(); }
      h, j := Successor(i0), i1;
    } else {
      h, j := AddUnit(i0, i1, 52 - j0);
    }
  }

  lemma StepLowWords(x: Double, v: nat, up: bool, i0: u32, i1: u32, l: u32)
    requires v <= 32 && Code(x) % Pow2(v) == x.lo % Pow2(v) == i1 % Pow2(v) != 0
    requires Wide(i0 % SIGN, i1) == Code(x) + (if up then Pow2(v) else 0)
    requires l + i1 % Pow2(v) == i1
    ensures Code(Double(i0, l)) == Stepped(Code(x), Pow2(v), up)
  {
  }

  /** The integer part reaches into the low word. */
  method StepLow(x: Double, j0: nat, up: bool) returns (z: Double)
    requires 20 <= j0 <= 51 && Code(x) / TWO52 == j0 + 1023
    ensures Neg(z) == Neg(x) && Code(z) == Stepped(Code(x), Pow2(52 - j0), up)
  {
    ghost var v := 52 - j0;
    assert Code(x) % Pow2(v) == x.lo % Pow2(v) by { LowBitsLow(x, v); }
    assert x.hi % SIGN < 0x7ff0_0000 by { CodeFields(x); }
    var i := LowFraction(j0);
    if Under(x.lo, i, v) == 0 { return x; }
    if HugePlusPositive(x) {
      var i0, i1 := x.hi, x.lo;
      if up { i0, i1 := AddLow(i0, i1, j0); }
      z := Double(i0, Over(i1, i, v));
      StepLowWords(x, v, up, i0, i1, z.lo);
    }
  }
}
