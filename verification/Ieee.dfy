/** IEEE 754 doubles as the C sources see them: two 32-bit words.

    The 63 bits below the sign are the `Code` of a double. `MagAt` gives the magnitude
    of a code as a natural number of units of 2^-1074, the smallest subnormal, so
    every statement about finite doubles is a statement about integers. The code of
    infinity stands for 2^1024, the first magnitude that is out of range; that makes
    overflow part of rounding to nearest. */
module Ieee {
  import opened Arith
  import opened Words

  const TWO52: nat := 0x10_0000_0000_0000
  const INF: nat := 0x7ff0_0000_0000_0000

  datatype Double = Double(hi: u32, lo: u32)

  function Code(d: Double): (c: nat)
    ensures c < 0x8000_0000_0000_0000
  {
    (d.hi % SIGN) * TWO32 + d.lo
  }

  predicate Neg(d: Double) { d.hi >= SIGN }
  predicate Finite(d: Double) { Code(d) < INF }
  predicate IsInf(d: Double) { Code(d) == INF }
  predicate IsNaN(d: Double) { Code(d) > INF }
  predicate IsZero(d: Double) { Code(d) == 0 }

  function Make(neg: bool, c: nat): (d: Double)
    requires c < 0x8000_0000_0000_0000
    ensures Code(d) == c && Neg(d) == neg
  {
    Double(c / TWO32 + (if neg then SIGN else 0), c % TWO32)
  }

  lemma SameBits(x: Double, y: Double)
    requires Code(x) == Code(y) && Neg(x) == Neg(y)
    ensures x == y
  {
    assert Code(x) / TWO32 == x.hi % SIGN && Code(y) / TWO32 == y.hi % SIGN;
  }

  // ---- the tests the sources make on the words ----

  lemma HighWord(x: Double)
    ensures Code(x) == Wide(x.hi % SIGN, x.lo)
    ensures !Neg(x) ==> Code(x) == Wide(x.hi, x.lo)
    ensures Neg(x) <==> ToInt(x.hi) < 0
    ensures !Neg(x) ==> ToInt(x.hi) == x.hi
    ensures Finite(x) <==> x.hi % SIGN < 0x7ff0_0000
  {
  }

  /** `(hi & 0x7ff00000) == 0x7ff00000` */
  predicate ExponentFull(hi: u32)
    ensures ExponentFull(hi) <==> hi % SIGN >= 0x7ff0_0000
  {
    assert And(hi, 0x7ff0_0000) == 0x7ff0_0000 <==> hi % SIGN >= 0x7ff0_0000 by {
      MaskExponent(hi);
      FieldFull(hi % SIGN);
    }
    And(hi, 0x7ff0_0000) == 0x7ff0_0000
  }

  lemma FieldFull(m: int)
    requires 0 <= m < 0x8000_0000
    ensures (m / 0x10_0000) * 0x10_0000 == 0x7ff0_0000 <==> m >= 0x7ff0_0000
  {
  }

  /** `((hi & 0x7fffffff) | lo) == 0` */
  predicate WordsZero(hi: u32, lo: u32)
    ensures WordsZero(hi, lo) <==> hi % SIGN == 0 && lo == 0
  {
    MaskMagnitude(hi);
    OrBounds(And(hi, 0x7fff_ffff), lo);
    Or(And(hi, 0x7fff_ffff), lo) == 0
  }

  /** `__HI = h | sx; __LO = l` for a high word without sign. */
  function WithSign(h: u32, sx: u32, l: u32): (z: Double)
    requires h < SIGN && (sx == 0 || sx == SIGN)
    ensures Code(z) == Wide(h, l) && Neg(z) == (sx == SIGN)
  {
    OrSign(h, sx);
    Double(Or(h, sx), l)
  }

  /** Exponent field and fraction of a code, read off the high word. */
  lemma CodeFields(x: Double)
    ensures Code(x) % TWO52 == (x.hi % 0x10_0000) * TWO32 + x.lo
    ensures Code(x) / TWO52 == (x.hi % SIGN) / 0x10_0000
  {
    var m := x.hi % SIGN;
    var e, f := m / 0x10_0000, m % 0x10_0000;
    assert f == x.hi % 0x10_0000 by { ModAddMul(m, 0x800 * (x.hi / SIGN), 0x10_0000); }
    DivModUnique(Code(x), TWO52, e, f * TWO32 + x.lo);
  }

  /** `(hi & 0x7ff00000) >> 20` */
  function ExponentField(hi: u32): (k: nat)
    ensures k == (hi % SIGN) / 0x10_0000 < 0x800
  {
    var m: u32 := hi % SIGN;
    assert And(hi, 0x7ff0_0000) == (m / 0x10_0000) * 0x10_0000 by { MaskExponent(hi); }
    var f: u32 := And(hi, 0x7ff0_0000);
    assert Shr(f, 20) == m / 0x10_0000 by { Pow2Values(); ShrIsDiv(f, 20); }
    Shr(f, 20)
  }

  /** `copysign(x, y)` of s_copysign.c */
  function CopySign(x: Double, y: Double): (z: Double)
    ensures Code(z) == Code(x) && Neg(z) == Neg(y)
  {
    WithSign(AbsHigh(x.hi), SignOf(y.hi), x.lo)
  }

  /** `__HI(x) = (hx & 0x800fffff) | (k << 20)`: the same sign and fraction over exponent field k. */
  function SetExponent(x: Double, k: nat): (z: Double)
    requires k < 0x7ff
    ensures Neg(z) == Neg(x) && Code(z) == Code(x) % TWO52 + k * TWO52
  {
    var h: nat := Or(And(x.hi, 0x800f_ffff), k * 0x10_0000);
    assert h == (if x.hi >= SIGN then SIGN else 0) + k * 0x10_0000 + x.hi % 0x10_0000 by { FieldOr(x.hi, k); }
    var f := x.hi % 0x10_0000;
    assert Code(x) % TWO52 == f * TWO32 + x.lo by { CodeFields(x); }
    assert h % SIGN == k * 0x10_0000 + f;
    Double(h, x.lo)
  }

  lemma FieldOr(hi: u32, k: nat)
    requires k < 0x800
    ensures Or(And(hi, 0x800f_ffff), k * 0x10_0000)
         == (if hi >= SIGN then SIGN else 0) + k * 0x10_0000 + hi % 0x10_0000
  {
    var s: nat, f: nat := if hi >= SIGN then 0x800 else 0, hi % 0x10_0000;
    assert And(hi, 0x800f_ffff) == s * 0x10_0000 + f by {
      assert s * 0x10_0000 == if hi >= SIGN then SIGN else 0;
      MaskSignFraction(hi);
    }
    OrSignField(s, k);
    OrAbove(s, f, k);
  }

  lemma OrSignField(s: nat, k: nat)
    requires (s == 0 || s == 0x800) && k < 0x800
    ensures Or(s, k) == s + k
  {
    Pow2Values();
    OrDisjoint(s, s / 0x800, k, 11);
  }

  lemma OrAbove(s: nat, f: nat, k: nat)
    requires f < 0x10_0000
    ensures Or(s * 0x10_0000 + f, k * 0x10_0000) == Or(s, k) * 0x10_0000 + f
  {
    assert Pow2(20) == 0x10_0000 by { Pow2Values(); }
    JoinIsSum(s, f, 20);
    JoinIsSum(k, 0, 20);
    OrJoin(s, f, k, 0, 20);
    JoinIsSum(Or(s, k), f, 20);
  }

  const NAN: Double := Double(0x7ff8_0000, 0)
  const ZERO: Double := Double(0, 0)
  const HALF: Double := Double(0x3fe0_0000, 0)
  const ONE: Double := Double(0x3ff0_0000, 0)

  // ---- magnitudes ----

  /** The magnitude at code c: the first two binades (subnormals and exponent field 1)
      count units, and each further binade is the one before it doubled. */
  function MagAt(c: nat): (m: nat)
  {
    if c < 2 * TWO52 then c else 2 * MagAt(c - TWO52)
  }

  /** The weight of the last significand bit at code c. */
  function Ulp(c: nat): (u: nat)
    ensures u > 0
  {
    if c < 2 * TWO52 then 1 else 2 * Ulp(c - TWO52)
  }

  function Mag(d: Double): (m: nat) { MagAt(Code(d)) }

  function Value(d: Double): (v: int)
  {
    var m: int := Mag(d);
    if Neg(d) then -m else m
  }

  /** The value is the magnitude, signed by the sign bit, and the codes fall into four classes. */
  lemma ValueMeans(d: Double)
    ensures Abs(Value(d)) == Mag(d)
    ensures Value(d) > 0 ==> d.hi < 0x8000_0000
    ensures Value(d) < 0 ==> d.hi >= 0x8000_0000
    ensures IsZero(d) <==> d.hi % 0x8000_0000 == 0 && d.lo == 0
    ensures Finite(d) <==> d.hi % 0x8000_0000 < 0x7ff0_0000
    ensures IsInf(d) <==> d.hi % 0x8000_0000 == 0x7ff0_0000 && d.lo == 0
    ensures IsNaN(d) <==> !Finite(d) && !IsInf(d)
  {
  }

  /** The significand, with its leading bit unless the exponent field is zero. */
  function Sig(c: nat): (m: nat)
    ensures m < 2 * TWO52 && (c >= TWO52 ==> m >= TWO52)
  {
    if c < TWO52 then c else TWO52 + c % TWO52
  }

  function UlpExp(c: nat): (e: nat) { if c < TWO52 then 0 else c / TWO52 - 1 }

  /** Magnitude is significand times a power of two, section 3.2.2 of IEEE 754-1985. */
  lemma {:induction false} MagIsSigTimesUlp(c: nat)
    ensures Ulp(c) == Pow2(UlpExp(c))
    ensures MagAt(c) == Sig(c) * Ulp(c)
    decreases c
  {
    if c >= 2 * TWO52 {
      var b := c - TWO52;
      assert Sig(c) == Sig(b) && UlpExp(c) == UlpExp(b) + 1 by { ModAddMul(b, 1, TWO52); }
      MagIsSigTimesUlp(b);
      Doubled(Sig(b), Ulp(b));
    }
  }

  /** Within one binade, end included, magnitude is linear in the code. */
  lemma {:induction false} MagLinear(c: nat, d: nat)
    requires c % TWO52 + d <= TWO52
    ensures MagAt(c + d) == MagAt(c) + d * Ulp(c)
    decreases c
  {
    if c >= 2 * TWO52 {
      MagLinear(c - TWO52, d);
      Doubled(d, Ulp(c - TWO52));
    }
  }

  lemma {:induction false} MagNext(c: nat)
    ensures MagAt(c + 1) == MagAt(c) + Ulp(c)
    decreases c
  {
    if c >= 2 * TWO52 { MagNext(c - TWO52); }
  }

  /** The magnitudes are strictly increasing, by at least one unit in the last place. */
  lemma {:induction false} MagMono(c: nat, d: nat)
    requires c < d
    ensures MagAt(c) + Ulp(c) <= MagAt(d)
    decreases d
  {
    MagNext(d - 1);
    if c < d - 1 { MagMono(c, d - 1); }
  }

  lemma MagOrder(c: nat, d: nat)
    ensures c < d <==> MagAt(c) < MagAt(d)
    ensures c == d <==> MagAt(c) == MagAt(d)
  {
    if c < d { MagMono(c, d); }
    if d < c { MagMono(d, c); }
  }

  /** A 53-bit significand p over exponent field e. */
  lemma {:induction false} MagShift(p: nat, e: nat)
    requires TWO52 <= p <= 2 * TWO52
    ensures MagAt(p + e * TWO52) == p * Pow2(e)
    ensures p < 2 * TWO52 ==> Ulp(p + e * TWO52) == Pow2(e)
    ensures p == 2 * TWO52 ==> Ulp(p + e * TWO52) == 2 * Pow2(e)
    decreases e
  {
    if e != 0 {
      MagShift(p, e - 1);
      Doubled(p, Pow2(e - 1));
    }
  }

  /** The significand X in [2^52, 2^53) and exponent m with x = X * 2^(m - 52). */
  ghost predicate Normal(v: nat, x: int, m: int)
  {
    && TWO52 <= x < 2 * TWO52
    && -1074 <= m <= 1023
    && v * TWO52 == x * Pow2(m + 1074)
  }

  /** A normal double is already in that form. */
  lemma NormalFromNormal(h: u32, l: u32)
    requires 0x10_0000 <= h < 0x7ff0_0000
    ensures Normal(MagAt(Wide(h, l)), Wide(0x10_0000 + h % 0x10_0000, l), h / 0x10_0000 - 1023)
  {
    var e, x := h / 0x10_0000, Wide(0x10_0000 + h % 0x10_0000, l);
    assert Wide(h, l) == x + (e - 1) * TWO52;
    MagShift(x, e - 1);
    assert Pow2(e + 51) == Pow2(e - 1) * TWO52 by { Pow2Add(e - 1, 52); Pow2Values(); }
    Reassoc(x, Pow2(e - 1), TWO52);
  }

  // ---- the code of a representable magnitude ----

  /** m * 2^u is representable whenever m has at most 53 bits. */
  function CodeOf(m: nat, u: nat): (c: nat)
    requires m <= 2 * TWO52
    ensures MagAt(c) == m * Pow2(u)
    ensures m >= TWO52 ==> c >= TWO52
    decreases u
  {
    if u == 0 then
      m
    else if m < TWO52 then
      Doubled(m, Pow2(u - 1));
      CodeOf(2 * m, u - 1)
    else
      var c := CodeOf(m, u - 1);
      Doubled(m, Pow2(u - 1));
      c + TWO52
  }

  // ---- rounding to nearest, ties to even ----

  /** The greatest code whose magnitude does not exceed n. */
  function FloorCode(n: nat): (c: nat)
    ensures MagAt(c) <= n < MagAt(c + 1)
    ensures n >= TWO52 ==> c >= TWO52
  {
    if n < 2 * TWO52 then
      n
    else
      var c := FloorCode(n / 2);
      c + TWO52
  }

  /** Distance of the magnitude at code c from num / 2^k, in units of 2^-k. */
  ghost function Distance(num: nat, k: nat, c: nat): (d: nat) { Abs(MagAt(c) * Pow2(k) - num) }

  /** Section 4.1 of IEEE 754-1985: no code is nearer to num / 2^k, and if another is
      as near then c is the one whose last bit is zero. */
  ghost predicate NearestEven(num: nat, k: nat, c: nat)
  {
    && c <= INF
    && forall d: nat | d <= INF && d != c ::
         || Distance(num, k, c) < Distance(num, k, d)
         || (Distance(num, k, c) == Distance(num, k, d) && c % 2 == 0)
  }

  /** Of the code c at or below num / p and the next one, the nearer, or the even one. */
  function NearerEnd(num: nat, p: nat, c: nat): (r: nat)
    ensures r <= INF
  {
    if c >= INF then INF
    else
      var mid := (MagAt(c) + MagAt(c + 1)) * p;
      if 2 * num < mid || (2 * num == mid && c % 2 == 0) then c else c + 1
  }

  /** num / 2^k units of 2^-1074, rounded. */
  function RoundCode(num: nat, k: nat): (c: nat)
    ensures c <= INF
  {
    DivShrinks(num, k);
    NearerEnd(num, Pow2(k), FloorCode(num / Pow2(k)))
  }

  lemma ScaleBracket(num: nat, p: nat, lo: int, hi: int)
    requires p > 0 && lo <= num / p < hi
    ensures lo * p <= num < hi * p
  {
    var n := num / p;
    assert num == n * p + num % p;
    MulMono(lo, n, p);
    MulMono(n + 1, hi, p);
  }

  lemma FloorBracket(num: nat, k: nat, c: nat)
    requires num / Pow2(k) >= 0 && c == FloorCode(num / Pow2(k))
    ensures MagAt(c) * Pow2(k) <= num < MagAt(c + 1) * Pow2(k)
  {
    ScaleBracket(num, Pow2(k), MagAt(c), MagAt(c + 1));
  }

  /** Codes below the bracket are farther than its lower end, codes above are farther than its upper end. */
  lemma OutsideBracket(num: nat, k: nat, c: nat, d: nat)
    requires MagAt(c) * Pow2(k) <= num
    requires d < c
    ensures Distance(num, k, d) > Distance(num, k, c)
  {
    MagOrder(d, c);
    MulMonoStrict(MagAt(d), MagAt(c), Pow2(k));
  }

  lemma AboveBracket(num: nat, k: nat, c: nat, d: nat)
    requires num <= MagAt(c) * Pow2(k)
    requires c < d
    ensures Distance(num, k, d) > Distance(num, k, c)
  {
    MagOrder(c, d);
    MulMonoStrict(MagAt(c), MagAt(d), Pow2(k));
  }

  lemma Midpoint(num: nat, p: nat, lo: nat, hi: nat)
    requires lo * p <= num < hi * p
    ensures 2 * num <= (lo + hi) * p <==> Abs(lo * p - num) <= Abs(hi * p - num)
    ensures 2 * num == (lo + hi) * p <==> Abs(lo * p - num) == Abs(hi * p - num)
  {
    assert (lo + hi) * p == lo * p + hi * p;
  }

  lemma NearerEndPicks(num: nat, k: nat, c: nat)
    requires c < INF && MagAt(c) * Pow2(k) <= num < MagAt(c + 1) * Pow2(k)
    ensures var r := NearerEnd(num, Pow2(k), c);
            var s := if r == c then c + 1 else c;
            && (r == c || r == c + 1)
            && (|| Distance(num, k, r) < Distance(num, k, s)
                || (Distance(num, k, r) == Distance(num, k, s) && r % 2 == 0))
  {
    Midpoint(num, Pow2(k), MagAt(c), MagAt(c + 1));
  }

  lemma RoundNearestBelowInf(num: nat, k: nat, c: nat)
    requires num / Pow2(k) >= 0 && c == FloorCode(num / Pow2(k)) < INF
    ensures NearestEven(num, k, RoundCode(num, k))
  {
    FloorBracket(num, k, c);
    var r := RoundCode(num, k);
    NearerEndPicks(num, k, c);
    forall d: nat | d <= INF && d != r
      ensures Distance(num, k, r) < Distance(num, k, d)
           || (Distance(num, k, r) == Distance(num, k, d) && r % 2 == 0)
    {
      if d < c { OutsideBracket(num, k, c, d); }
      if d > c + 1 { AboveBracket(num, k, c + 1, d); }
    }
  }

  lemma RoundNearest(num: nat, k: nat)
    ensures NearestEven(num, k, RoundCode(num, k))
  {
    DivShrinks(num, k);
    var c := FloorCode(num / Pow2(k));
    if c < INF {
      RoundNearestBelowInf(num, k, c);
    } else {
      FloorBracket(num, k, c);
      if c > INF { MagOrder(INF, c); MulMono(MagAt(INF), MagAt(c), Pow2(k)); }
      forall d: nat | d < INF ensures Distance(num, k, INF) < Distance(num, k, d) {
        OutsideBracket(num, k, INF, d);
      }
    }
  }

  lemma BetweenIsNearer(num: nat, k: nat, a: nat, b: nat)
    requires a + 1 < b && Distance(num, k, a) == Distance(num, k, b)
    ensures Distance(num, k, a + 1) < Distance(num, k, a)
  {
    MagOrder(a, a + 1);
    MagOrder(a + 1, b);
    MulMonoStrict(MagAt(a), MagAt(a + 1), Pow2(k));
    MulMonoStrict(MagAt(a + 1), MagAt(b), Pow2(k));
  }

  /** Rounding to nearest even has one answer. */
  lemma NearestUnique(num: nat, k: nat, c: nat, d: nat)
    requires NearestEven(num, k, c) && NearestEven(num, k, d)
    ensures c == d
  {
    if c != d {
      assert Distance(num, k, c) == Distance(num, k, d) && c % 2 == 0 && d % 2 == 0;
      if c < d { BetweenIsNearer(num, k, c, d); } else { BetweenIsNearer(num, k, d, c); }
    }
  }

  /** A representable quotient is not changed by rounding. */
  lemma RoundExact(num: nat, k: nat, c: nat)
    requires c <= INF && num == MagAt(c) * Pow2(k)
    ensures RoundCode(num, k) == c
  {
    RoundNearest(num, k);
    var r := RoundCode(num, k);
    assert Distance(num, k, c) == 0;
    MulCancel(MagAt(r), MagAt(c), Pow2(k));
    MagOrder(r, c);
  }

  lemma RoundOverflow(num: nat, k: nat)
    requires MagAt(INF) * Pow2(k) <= num
    ensures RoundCode(num, k) == INF
  {
    RoundNearest(num, k);
    var r := RoundCode(num, k);
    if r != INF { OutsideBracket(num, k, INF, r); assert false; }
  }

  /** Rounding does not pass a representable number. */
  lemma RoundAtMost(num: nat, k: nat, c: nat)
    requires c <= INF && num <= MagAt(c) * Pow2(k)
    ensures RoundCode(num, k) <= c
  {
    RoundNearest(num, k);
    var r := RoundCode(num, k);
    if r > c { AboveBracket(num, k, c, r); assert false; }
  }

  lemma RoundUnderflow(num: nat, k: nat)
    requires 2 * num < Pow2(k)
    ensures RoundCode(num, k) == 0
  {
    RoundNearest(num, k);
    var r := RoundCode(num, k);
    assert Distance(num, k, 0) < Distance(num, k, 1);
    if r > 1 { AboveBracket(num, k, 1, r); }
  }

  /** Between neighbouring magnitudes the nearer one is taken, and the even code at the midpoint. */
  lemma RoundBetween(num: nat, k: nat, c: nat)
    requires c < INF && MagAt(c) * Pow2(k) <= num <= MagAt(c + 1) * Pow2(k)
    ensures 2 * num < (MagAt(c) + MagAt(c + 1)) * Pow2(k) ==> RoundCode(num, k) == c
    ensures 2 * num > (MagAt(c) + MagAt(c + 1)) * Pow2(k) ==> RoundCode(num, k) == c + 1
    ensures 2 * num == (MagAt(c) + MagAt(c + 1)) * Pow2(k) ==>
              RoundCode(num, k) == if c % 2 == 0 then c else c + 1
  {
    var p := Pow2(k);
    assert (MagAt(c) + MagAt(c + 1)) * p == MagAt(c) * p + MagAt(c + 1) * p;
    RoundNearest(num, k);
    var r := RoundCode(num, k);
    if r < c { OutsideBracket(num, k, c, r); assert false; }
    if r > c + 1 { AboveBracket(num, k, c + 1, r); assert false; }
    assert Distance(num, k, c) == num - MagAt(c) * p && Distance(num, k, c + 1) == MagAt(c + 1) * p - num;
  }

  /** An integer less than half a unit in the last place away rounds back. */
  lemma RoundBack(num: nat, c: nat)
    requires 0 < c < INF && 2 * Abs(MagAt(c) - num) < Ulp(c - 1)
    ensures RoundCode(num, 0) == c
  {
    RoundNearest(num, 0);
    var r := RoundCode(num, 0);
    if r != c {
      FartherCode(num, c, r);
      assert false;
    }
  }

  lemma FartherCode(num: nat, c: nat, r: nat)
    requires 0 < c && r != c && 2 * Abs(MagAt(c) - num) < Ulp(c - 1)
    ensures Distance(num, 0, c) < Distance(num, 0, r)
  {
    MagApart(c, r);
    assert Pow2(0) == 1;
  }

  lemma MagApart(c: nat, r: nat)
    requires 0 < c && r != c
    ensures MagAt(r) <= MagAt(c) - Ulp(c - 1) || MagAt(r) >= MagAt(c) + Ulp(c - 1)
  {
    if r < c {
      MagNext(c - 1);
      if r < c - 1 { MagMono(r, c - 1); }
    } else {
      UlpMono(c - 1);
      MagMono(c, r);
    }
  }

  lemma {:induction false} UlpMono(c: nat)
    ensures Ulp(c) <= Ulp(c + 1)
    decreases c
  {
    if c >= 2 * TWO52 { UlpMono(c - TWO52); }
  }

  /** A positive integer number of units does not round to zero. */
  lemma RoundPositive(num: nat)
    requires num > 0
    ensures RoundCode(num, 0) > 0
  {
    RoundNearest(num, 0);
    assert Distance(num, 0, 1) < Distance(num, 0, 0);
  }

  /** Rounding depends on the quotient only. */
  lemma RoundScale(num: nat, k: nat, a: nat)
    ensures RoundCode(num * Pow2(a), k + a) == RoundCode(num, k)
  {
    var p, s := Pow2(k), Pow2(a);
    DivShrinks(num, k);
    var c := FloorCode(num / p);
    assert (num * s) / Pow2(k + a) == num / p && Pow2(k + a) == p * s by {
      Pow2Add(k, a);
      MulDivMod(num, p, s);
    }
    NearerEndScales(num, p, c, s);
  }

  lemma NearerEndScales(num: nat, p: nat, c: nat, s: nat)
    requires s > 0
    ensures num * s >= 0 && p * s >= 0
    ensures NearerEnd(num * s, p * s, c) == NearerEnd(num, p, c)
  {
    MidScales(num, MagAt(c) + MagAt(c + 1), p, s);
  }

  lemma MidScales(num: nat, m: nat, p: nat, s: nat)
    requires s > 0
    ensures 2 * num < m * p <==> 2 * (num * s) < m * (p * s)
    ensures 2 * num == m * p <==> 2 * (num * s) == m * (p * s)
  {
    assert m * (p * s) == (m * p) * s;
    assert 2 * (num * s) == (2 * num) * s;
    MulCancel(m * p, 2 * num, s);
  }
}
