/** bench/tools/fdlibm/s_scalbn.c and s_frexp.c: scaling by powers of two. */
module Scalbn {
  import opened Arith
  import opened Words
  import opened Ieee
  import opened Float
  import opened Ilogb

  const TWO54: Double := Double(0x4350_0000, 0)
  const TWOM54: Double := Double(0x3c90_0000, 0)
  const HUGE: Double := Double(0x7e37_e43c, 0x8800_759c)
  const TINY: Double := Double(0x01a5_6e1f, 0xc2f8_f359)

  // ---- m * 2^j, rounded once ----

  function RoundAt(m: nat, j: int): (c: nat)
    ensures c <= INF
  {
    if j >= 0 then RoundCode(m * Pow2(j), 0) else RoundCode(m, -j)
  }

  /** Any common denominator gives the same code. */
  lemma RoundAtOver(m: nat, j: int, t: nat)
    requires j + t >= 0
    ensures RoundAt(m, j) == RoundCode(m * Pow2(j + t), t)
  {
    if j >= 0 {
      RoundScale(m * Pow2(j), 0, t);
      Pow2Add(j, t);
      Reassoc(m, Pow2(j), Pow2(t));
    } else {
      RoundScale(m, -j, j + t);
    }
  }

  /** m * 2^j and n * 2^i are the same number, so they round alike. */
  lemma RoundAtSame(m: nat, j: int, n: nat, i: int, s: nat)
    requires s >= j - i >= 0 && m * Pow2(s) == n * Pow2(s - (j - i))
    ensures RoundAt(m, j) == RoundAt(n, i)
  {
    var t := Abs(j) + Abs(i) + s;
    RoundAtOver(m, j, t);
    RoundAtOver(n, i, t);
    var d := j + t - s;
    assert m * Pow2(j + t) == (m * Pow2(s)) * Pow2(d) by { Pow2Add(s, d); Reassoc(m, Pow2(s), Pow2(d)); }
    var e := s - (j - i);
    assert n * Pow2(i + t) == (n * Pow2(e)) * Pow2(d) by { Pow2Add(e, d); Reassoc(n, Pow2(e), Pow2(d)); }
  }

  // ---- a 53-bit significand at every exponent ----

  lemma TopMag(e: nat)
    requires e == 2046
    ensures MagAt(INF) == TWO52 * Pow2(e)
  {
    assert INF == TWO52 + e * TWO52;
    MagShift(TWO52, e);
  }

  lemma SigOverflow(sig: nat, k: int, e: nat)
    requires TWO52 <= sig < 2 * TWO52 && k > 0x7fe && e == 2046
    ensures RoundAt(sig, k - 1) == INF
  {
    TopMag(e);
    Pow2Mono(e, k - 1);
    MulMono(TWO52, sig, Pow2(k - 1));
    MulMono(Pow2(e), Pow2(k - 1), TWO52);
    RoundOverflow(sig * Pow2(k - 1), 0);
  }

  lemma SigNormal(sig: nat, k: int)
    requires TWO52 <= sig < 2 * TWO52 && 1 <= k <= 0x7fe
    ensures RoundAt(sig, k - 1) == sig + (k - 1) * TWO52
  {
    MagShift(sig, k - 1);
    RoundExact(sig * Pow2(k - 1), 0, sig + (k - 1) * TWO52);
  }

  lemma SigUnderflow(sig: nat, k: int)
    requires sig < 2 * TWO52 && k <= -54
    ensures RoundAt(sig, k - 1) == 0
  {
    Pow2Values();
    Pow2Mono(54, 1 - k);
    RoundUnderflow(sig, 1 - k);
  }

  // ---- the constants ----

  lemma Constants(e: nat)
    requires e == 1074
    ensures Mag(TWO54) == Pow2(e + 54) && Mag(TWOM54) == Pow2(e - 54)
  {
    assert Code(TWO54) == TWO52 + (e + 2) * TWO52 && Code(TWOM54) == TWO52 + (e - 106) * TWO52;
    MagShift(TWO52, e + 2);
    MagShift(TWO52, e - 106);
    Pow2Add(52, e + 2);
    Pow2Add(52, e - 106);
    Pow2Values();
  }

  lemma HugeIsLarge(e: nat)
    requires e == 2018
    ensures Mag(HUGE) >= Pow2(e + 52)
  {
    var c := TWO52 + e * TWO52;
    assert MagAt(c) == TWO52 * Pow2(e) by { MagShift(TWO52, e); }
    assert Pow2(e + 52) == TWO52 * Pow2(e) by { Pow2Add(52, e); Pow2Values(); }
    assert c < Code(HUGE);
    MagOrder(c, Code(HUGE));
  }

  lemma HugeProduct(h: nat, e: nat, w: nat)
    requires e == 2018 && w == 1074 && h >= Pow2(e + 52)
    ensures h * h >= MagAt(INF) * Pow2(w)
  {
    var g := Pow2(e + 52);
    assert h * h >= g * g by { SquareMono(g, h); }
    assert g * g == Pow2(2 * e + 104) by { Pow2Add(e + 52, e + 52); }
    assert MagAt(INF) == Pow2(e + 80) by { TopMag(e + 28); Pow2Add(52, e + 28); Pow2Values(); }
    Pow2Add(e + 80, w);
    Pow2Mono(e + 80 + w, 2 * e + 104);
  }

  lemma HugeSquared(x: Double)
    requires Code(x) == Code(HUGE)
    ensures FMul(HUGE, x) == Make(Neg(x), INF)
  {
    var h := Mag(HUGE);
    var n := h * h;
    assert n >= MagAt(INF) * Pow2(1074) by { HugeIsLarge(2018); HugeProduct(h, 2018, 1074); }
    RoundOverflow(n, 1074);
    MulRounds(HUGE, x, n, INF);
  }

  lemma TinyIsSmall(e: nat)
    requires e == 25
    ensures Mag(TINY) < Pow2(e + 53)
  {
    var c := 2 * TWO52 + e * TWO52;
    assert MagAt(c) == (2 * TWO52) * Pow2(e) by { MagShift(2 * TWO52, e); }
    assert Pow2(e + 53) == (2 * TWO52) * Pow2(e) by { Pow2Add(53, e); Pow2Values(); }
    assert Code(TINY) < c;
    MagOrder(Code(TINY), c);
  }

  lemma SmallProduct(t: nat, m: nat, p: nat, q: nat)
    requires t < p && m < q
    ensures t * m < p * q
  {
    assert t * m <= p * m by { MulMono(t, p, m); }
    MulMonoStrict(m, q, p);
  }

  lemma TinyProduct(n: nat, t: nat, m: nat, a: nat, b: nat, w: nat)
    requires n == t * m && t < Pow2(a) && m < Pow2(b) && a + b + 1 <= w
    ensures 2 * n < Pow2(w)
  {
    SmallProduct(t, m, Pow2(a), Pow2(b));
    Pow2Add(a, b);
    Pow2Mono(a + b, w);
  }

  /** tiny times anything below 2^-968 underflows to zero. */
  lemma TinyTimes(x: Double)
    requires Code(x) < 55 * TWO52
    ensures FMul(TINY, x) == Make(Neg(x), 0)
  {
    var n := Mag(TINY) * Mag(x);
    assert 2 * n < Pow2(1074) by {
      TinyIsSmall(25);
      BelowBinade(Code(x), 53);
      TinyProduct(n, Mag(TINY), Mag(x), 78, 106, 1074);
    }
    RoundUnderflow(n, 1074);
    MulRounds(TINY, x, n, 0);
  }

  lemma BelowBinade(c: nat, e: nat)
    requires c < (e + 2) * TWO52
    ensures MagAt(c) < Pow2(e + 53)
  {
    assert (e + 2) * TWO52 == 2 * TWO52 + e * TWO52;
    MagShift(2 * TWO52, e);
    MagOrder(c, (e + 2) * TWO52);
    Pow2Add(53, e);
    Pow2Values();
  }

  // ---- bringing x to a normal number ----

  /** x *= two54 is exact on a subnormal, and makes it normal. */
  lemma ScaledUp(x: Double, e: nat)
    requires 0 < Code(x) < TWO52 && e == 1074
    ensures var y := FMul(x, TWO54);
            && Neg(y) == Neg(x)
            && 3 * TWO52 <= Code(y) < 55 * TWO52
            && Mag(y) == Mag(x) * Pow2(54)
  {
    var m, n := Mag(x), Mag(x) * Mag(TWO54);
    var c := CodeOf(m, 54);
    assert 3 * TWO52 <= c < 55 * TWO52 by { ScaledRange(m, c); }
    assert n == MagAt(c) * Pow2(e) by {
      Constants(e);
      Pow2Add(54, e);
      Reassoc(m, Pow2(54), Pow2(e));
    }
    RoundExact(n, e, c);
    MulRounds(x, TWO54, n, c);
  }

  lemma ScaledRange(m: nat, c: nat)
    requires 0 < m < TWO52 && MagAt(c) == m * Pow2(54)
    ensures 3 * TWO52 <= c < 55 * TWO52
  {
    assert MagAt(TWO52 + 2 * TWO52) == TWO52 * 4 by { MagShift(TWO52, 2); }
    assert MagAt(TWO52 + 54 * TWO52) == TWO52 * Pow2(54) by { MagShift(TWO52, 54); }
    assert Pow2(54) == 4 * TWO52 by { Pow2Values(); }
    MagOrder(c, 3 * TWO52);
    MagOrder(c, 55 * TWO52);
  }

  /** y is a normal double with the sign of x, and x = Sig(y) * 2^(k - 1) units. */
  ghost predicate Prepared(x: Double, y: Double, k: int)
  {
    && TWO52 <= Code(y) < INF
    && Neg(y) == Neg(x)
    && -51 <= k <= 0x7fe
    && Mag(x) * Pow2(54) == Sig(Code(y)) * Pow2(k + 53)
  }

  lemma PreparedNormal(x: Double)
    requires TWO52 <= Code(x) < INF
    ensures Prepared(x, x, Code(x) / TWO52)
  {
    var k, g := Code(x) / TWO52, Sig(Code(x));
    MagIsSigTimesUlp(Code(x));
    Pow2Add(k - 1, 54);
    Reassoc(g, Pow2(k - 1), Pow2(54));
  }

  lemma PreparedSubnormal(x: Double, y: Double)
    requires 3 * TWO52 <= Code(y) < 55 * TWO52 && Neg(y) == Neg(x) && Mag(y) == Mag(x) * Pow2(54)
    ensures Prepared(x, y, Code(y) / TWO52 - 54)
  {
    MagIsSigTimesUlp(Code(y));
  }

  method TimesTwo54(x: Double) returns (y: Double)
    requires 0 < Code(x) < TWO52
    ensures 3 * TWO52 <= Code(y) < 55 * TWO52 && Neg(y) == Neg(x) && Mag(y) == Mag(x) * Pow2(54)
  {
    ScaledUp(x, 1074);
    y := FMul(x, TWO54);
  }

  /** `x *= two54` and the exponent that makes up for it */
  method ScaleUp(x: Double) returns (y: Double, k: int)
    requires 0 < Code(x) < TWO52
    ensures Prepared(x, y, k) && k <= 0 && Code(y) < 55 * TWO52
  {
    y := TimesTwo54(x);
    PreparedSubnormal(x, y);
    CodeFields(y);
    k := ExponentField(y.hi) - 54;
  }

  /** Scaling x by 2^n is scaling the significand by 2^(k + n - 1). */
  lemma PreparedRounds(x: Double, y: Double, k: int, n: int)
    requires Prepared(x, y, k)
    ensures RoundAt(Mag(x), n) == RoundAt(Sig(Code(y)), k + n - 1)
  {
    var m, g := Mag(x), Sig(Code(y));
    if k <= 1 {
      RoundAtSame(m, n, g, k + n - 1, 54);
    } else {
      RoundAtSame(g, k + n - 1, m, n, k + 53);
    }
  }

  // ---- scalbn ----

  /** `huge * copysign(huge, x)` */
  method Overflow(y: Double, ghost k: int) returns (z: Double)
    requires TWO52 <= Code(y) < INF && k > 0x7fe
    ensures z == Make(Neg(y), RoundAt(Sig(Code(y)), k - 1))
  {
    SigOverflow(Sig(Code(y)), k, 2046);
    HugeSquared(CopySign(HUGE, y));
    z := FMul(HUGE, CopySign(HUGE, y));
  }

  /** `tiny * copysign(tiny, x)` */
  method Underflow(y: Double, ghost k: int) returns (z: Double)
    requires k <= -54
    ensures z == Make(Neg(y), RoundAt(Sig(Code(y)), k - 1))
  {
    SigUnderflow(Sig(Code(y)), k);
    TinyTimes(CopySign(TINY, y));
    z := FMul(TINY, CopySign(TINY, y));
  }

  /** `tiny * x` */
  method DeepUnderflow(y: Double, ghost k: int) returns (z: Double)
    requires k <= -54 && Code(y) < 55 * TWO52
    ensures z == Make(Neg(y), RoundAt(Sig(Code(y)), k - 1))
  {
    SigUnderflow(Sig(Code(y)), k);
    TinyTimes(y);
    z := FMul(TINY, y);
  }

  method NormalResult(y: Double, k: int) returns (z: Double)
    requires TWO52 <= Code(y) < INF && 1 <= k <= 0x7fe
    ensures z == Make(Neg(y), RoundAt(Sig(Code(y)), k - 1))
  {
    z := SetExponent(y, k);
    ghost var g := Sig(Code(y));
    assert RoundAt(g, k - 1) == Code(z) by {
      SigNormal(g, k);
      assert Code(z) == g + (k - 1) * TWO52;
    }
    SameBits(z, Make(Neg(y), Code(z)));
  }

  /** A subnormal result comes from one multiplication, so it is rounded once. */
  method SubnormalResult(y: Double, k: int) returns (z: Double)
    requires TWO52 <= Code(y) < INF && -53 <= k <= 0
    ensures z == Make(Neg(y), RoundAt(Sig(Code(y)), k - 1))
  {
    z := FMul(SetExponent(y, k + 54), TWOM54);
    Denormalized(y, k, 1074);
  }

  lemma Denormalized(y: Double, k: int, w: nat)
    requires TWO52 <= Code(y) < INF && -53 <= k <= 0 && w == 1074
    ensures FMul(SetExponent(y, k + 54), TWOM54) == Make(Neg(y), RoundAt(Sig(Code(y)), k - 1))
  {
    var z, g := SetExponent(y, k + 54), Sig(Code(y));
    assert Code(z) == g + (k + 53) * TWO52;
    DenormalProduct(z, g, k, w);
    var n: nat, c := Mag(z) * Mag(TWOM54), RoundAt(g, k - 1);
    assert c == RoundCode(n, w) by { RoundAtOver(g, k - 1, w); }
    MulRounds(z, TWOM54, n, c);
  }

  lemma DenormalProduct(z: Double, g: nat, k: int, w: nat)
    requires TWO52 <= g < 2 * TWO52 && -53 <= k && w == 1074 && Code(z) == g + (k + 53) * TWO52
    ensures Mag(z) * Mag(TWOM54) == g * Pow2(k - 1 + w) >= 0
  {
    var e := k + 53;
    MagShift(g, e);
    Constants(w);
    Pow2Add(e, w - 54);
    Reassoc(g, Pow2(e), Pow2(w - 54));
  }

  /** `k = k + n` in C's int: the sum can only wrap upwards, to a large negative number. */
  function ExponentSum(k: int, n: i32): (s: i32)
    requires -51 <= k <= 0x7fe && (k <= 0 ==> n >= -50000)
    ensures s == k + n || (s < -50000 < 50000 < n && k + n > 0x7fe)
  {
    ToInt(k + n)
  }

  method ScaleNormal(y: Double, k: int, n: i32) returns (z: Double)
    requires TWO52 <= Code(y) < INF && -51 <= k <= 0x7fe
    requires k <= 0 ==> n >= -50000
    ensures z == Make(Neg(y), RoundAt(Sig(Code(y)), k + n - 1))
  {
    var s: int := ExponentSum(k, n);
    if s > 0x7fe {
      z := Overflow(y, k + n);
    } else if s > 0 {
      z := NormalResult(y, s);
    } else if s <= -54 {
      if n > 50000 { z := Overflow(y, k + n); } else { z := Underflow(y, k + n); }
    } else {
      z := SubnormalResult(y, s);
    }
  }

  /** The code of m * 2^j is the nearest to it, or the even one of the two nearest. */
  lemma RoundAtNearest(m: nat, j: int)
    ensures j >= 0 ==> m * Pow2(j) >= 0 && NearestEven(m * Pow2(j), 0, RoundAt(m, j))
    ensures j < 0 ==> NearestEven(m, -j, RoundAt(m, j))
  {
    if j >= 0 { RoundNearest(m * Pow2(j), 0); } else { RoundNearest(m, -j); }
  }

  /** scalbn(x, n) is x * 2^n rounded once, for every finite x and every int n. */
  method Scalbn(x: Double, n: i32) returns (z: Double)
    ensures IsNaN(x) ==> z == NAN
    ensures IsInf(x) ==> z == x
    ensures Finite(x) ==> z == Make(Neg(x), RoundAt(Mag(x), n))
    ensures Finite(x) && n >= 0 ==> Mag(x) * Pow2(n) >= 0 && NearestEven(Mag(x) * Pow2(n), 0, Code(z))
    ensures Finite(x) && n < 0 ==> NearestEven(Mag(x), -(n as int), Code(z))
  {
    RoundAtNearest(Mag(x), n);
    z := Scaled(x, n);
  }

  method Scaled(x: Double, n: i32) returns (z: Double)
    ensures IsNaN(x) ==> z == NAN
    ensures IsInf(x) ==> z == x
    ensures Finite(x) ==> z == Make(Neg(x), RoundAt(Mag(x), n))
  {
    CodeFields(x);
    var k: int := ExponentField(x.hi);
    var y := x;
    if k == 0 {
      if WordsZero(x.hi, x.lo) {
        ZeroScaled(x, n);
        return x;
      }
      y, k := ScaleUp(x);
      PreparedRounds(x, y, k, n);
      if n < -50000 {
        z := DeepUnderflow(y, k + n);
        return;
      }
    } else if k == 0x7ff {
      return FAdd(x, x);
    } else {
      PreparedNormal(x);
      PreparedRounds(x, x, k, n);
    }
    z := ScaleNormal(y, k, n);
  }

  lemma ZeroScaled(x: Double, n: int)
    requires Code(x) == 0
    ensures x == Make(Neg(x), RoundAt(Mag(x), n))
  {
    assert RoundAt(0, n) == 0 by {
      if n >= 0 { RoundExact(0, 0, 0); } else { RoundExact(0, -n, 0); }
    }
    SameBits(x, Make(Neg(x), 0));
  }

  // ---- frexp ----

  /** The fraction m in [1/2, 1) and the exponent e with x = m * 2^e exactly. */
  ghost predicate IsFrexp(x: Double, m: Double, e: int)
  {
    && Code(m) / TWO52 == 0x3fe
    && Neg(m) == Neg(x)
    && -1073 <= e <= 1024
    && Mag(m) * Pow2(e + 1074) == Mag(x) * Pow2(1074)
  }

  lemma FrexpOf(x: Double, y: Double, k: int, w: nat)
    requires Prepared(x, y, k) && w == 1074
    ensures IsFrexp(x, SetExponent(y, 0x3fe), k - 1022)
  {
    var g, m, e := Sig(Code(y)), SetExponent(y, 0x3fe), w - 53;
    assert Code(m) == g + e * TWO52;
    assert Mag(m) == g * Pow2(e) by { MagShift(g, e); }
    assert Mag(m) * Pow2(k + 52) == g * Pow2(k + 53) * Pow2(e - 1) by {
      Pow2Add(e, k + 52);
      Pow2Add(k + 53, e - 1);
      Reassoc(g, Pow2(e), Pow2(k + 52));
      Reassoc(g, Pow2(k + 53), Pow2(e - 1));
    }
    assert Mag(x) * Pow2(w) == Mag(x) * Pow2(54) * Pow2(e - 1) by {
      Pow2Add(54, e - 1);
      Reassoc(Mag(x), Pow2(54), Pow2(e - 1));
    }
  }

  /** At most one fraction and exponent fit. */
  lemma FrexpUnique(x: Double, m: Double, e: int, m': Double, e': int)
    requires IsFrexp(x, m, e) && IsFrexp(x, m', e')
    ensures m == m' && e == e'
  {
    if e == e' {
      MulCancel(Mag(m), Mag(m'), Pow2(e + 1074));
      MagOrder(Code(m), Code(m'));
      SameBits(m, m');
    } else if e < e' {
      FrexpLess(Mag(m), Code(m), e + 1074, Mag(m'), Code(m'), e' + 1074);
      assert false;
    } else {
      FrexpLess(Mag(m'), Code(m'), e' + 1074, Mag(m), Code(m), e + 1074);
      assert false;
    }
  }

  lemma FrexpLess(a: nat, ca: nat, i: nat, b: nat, cb: nat, j: nat)
    requires a == MagAt(ca) && b == MagAt(cb) && ca / TWO52 == cb / TWO52 == 0x3fe && i < j
    ensures a * Pow2(i) < b * Pow2(j)
  {
    Halving(ca, cb);
    Pow2Mono(i, j);
    ProductLess(a, b, Pow2(i), Pow2(j));
  }

  lemma ProductLess(a: nat, b: nat, p: nat, q: nat)
    requires a < 2 * b && 0 < 2 * p <= q
    ensures a * p < b * q
  {
    MulMonoStrict(a, 2 * b, p);
    MulMono(2 * p, q, b);
    assert (2 * b) * p == (2 * p) * b;
  }

  lemma Halving(ca: nat, cb: nat)
    requires ca / TWO52 == cb / TWO52 == 0x3fe
    ensures MagAt(ca) < 2 * MagAt(cb)
  {
    MagOrder(ca, cb + TWO52);
  }

  lemma FrexpIlogb(x: Double, m: Double, e: int, w: nat)
    requires IsFrexp(x, m, e) && w == 1074
    ensures IsIlogb(Mag(x), e - 1)
  {
    var h := Pow2(w - 1);
    assert h <= Mag(m) < 2 * h by { HalfBinade(Code(m), w); }
    assert Pow2(w) == 2 * h && Pow2(e + w) == 2 * Pow2(e - 1 + w);
    Rescaled(Mag(m), Mag(x), Pow2(e - 1 + w), h);
  }

  lemma HalfBinade(c: nat, w: nat)
    requires c / TWO52 == 0x3fe && w == 1074
    ensures Pow2(w - 1) <= MagAt(c) < 2 * Pow2(w - 1)
  {
    assert Pow2(w - 1) == TWO52 * Pow2(w - 53) by { Pow2Add(52, w - 53); Pow2Values(); }
    MagShift(TWO52, w - 53);
    MagShift(2 * TWO52, w - 53);
    MagOrder(0x3fe * TWO52, c);
    MagOrder(c, 0x3ff * TWO52);
  }

  lemma Rescaled(m: nat, v: nat, p: nat, h: nat)
    requires h > 0 && p > 0 && h <= m < 2 * h && m * (2 * p) == v * (2 * h)
    ensures p <= v < 2 * p
  {
    assert m * p == v * h;
    assert p * h <= v * h by { MulMono(h, m, p); }
    assert v * h < (2 * p) * h by { MulMonoStrict(m, 2 * h, p); }
    MulCancel(p, v, h);
    MulCancel(2 * p, v, h);
  }

  method Frexp(x: Double) returns (m: Double, e: i32)
    ensures !Finite(x) || IsZero(x) ==> m == x && e == 0
    ensures Finite(x) && !IsZero(x) ==> IsFrexp(x, m, e)
  {
    HighWord(x);
    var h := AbsHigh(x.hi);
    if h >= 0x7ff0_0000 || BothZero(h, x.lo) { return x, 0; }
    CodeFields(x);
    var y, k := x, ExponentField(x.hi);
    if h < 0x10_0000 {
      y, k := ScaleUp(x);
    } else {
      PreparedNormal(x);
    }
    FrexpOf(x, y, k, 1074);
    return SetExponent(y, 0x3fe), k - 1022;
  }

  /** scalbn undoes frexp, bit for bit. */
  method ScalbnOfFrexp(x: Double) returns (z: Double)
    ensures !IsNaN(x) ==> z == x
  {
    var m, e := Frexp(x);
    z := Scalbn(m, e);
    if Finite(x) {
      if IsZero(x) { ZeroScaled(x, e); } else { FrexpInverts(x, m, e, 1074); }
    }
  }

  lemma FrexpInverts(x: Double, m: Double, e: int, w: nat)
    requires Finite(x) && IsFrexp(x, m, e) && w == 1074
    ensures x == Make(Neg(m), RoundAt(Mag(m), e))
  {
    RoundAtOver(Mag(m), e, w);
    RoundExact(Mag(x) * Pow2(w), w, Code(x));
    SameBits(x, Make(Neg(x), Code(x)));
  }

  /** The exponent of frexp is one more than ilogb. */
  method FrexpAgainstIlogb(x: Double) returns (e: i32, i: i32)
    requires Finite(x) && !IsZero(x)
    ensures e == i + 1
  {
    var m;
    m, e := Frexp(x);
    i := Ilogb.Ilogb(x);
    FrexpIlogb(x, m, e, 1074);
    IlogbUnique(Mag(x), e - 1, i);
  }
}
