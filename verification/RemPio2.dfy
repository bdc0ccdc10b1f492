/** bench/tools/fdlibm/k_rem_pio2.c, lines 173-267: the integer (mod 8) and the fraction of
    x * (2/pi), by multiplication of 24-bit digits without the leading part of the product.

    The doubles of that code hold integers, or integers times 2^q0, and no operation on
    them rounds unless q0 is below -1074; the ghost integers beside them say which. */
module RemPio2 {
  import opened Arith
  import opened Words
  import opened Ieee
  import opened Float
  import opened Exact
  import opened KernelSteps
  import Scalbn

  const B: nat := 0x100_0000

  ghost function BPow(k: nat): (p: nat)
    ensures p > 0
  {
    if k == 0 then 1 else B * BPow(k - 1)
  }

  lemma {:induction false} BPowIsPow2(k: nat)
    ensures BPow(k) == Pow2(24 * k)
    decreases k
  {
    if k != 0 {
      BPowIsPow2(k - 1);
      Pow2Add(24, 24 * (k - 1));
      Pow2Values();
    }
  }

  // ---- the exact product, digit by digit ----

  ghost predicate Digits(s: seq<int>) { forall i :: 0 <= i < |s| ==> 0 <= s[i] < B }

  /** Digit i of the table; the code takes zero for a negative index. */
  ghost function At(t: seq<int>, i: int): (d: int)
  {
    if 0 <= i < |t| then t[i] else 0
  }

  /** Sum of x[j] * t[k-j] over j < m. */
  ghost function ConvTo(x: seq<int>, t: seq<int>, k: int, m: nat): (c: int)
    requires m <= |x|
  {
    if m == 0 then 0 else ConvTo(x, t, k, m - 1) + x[m - 1] * At(t, k - (m - 1))
  }

  /** Column k of the product of x and t. */
  ghost function Conv(x: seq<int>, t: seq<int>, k: int): (c: int) { ConvTo(x, t, k, |x|) }

  /** Columns 0..k of the product as one number in base 2^24. */
  ghost function Columns(x: seq<int>, t: seq<int>, k: int): (c: int)
    decreases k + 1
  {
    if k < 0 then 0 else Columns(x, t, k - 1) * B + Conv(x, t, k)
  }

  /** A digit string read from its most, or its least, significant end. */
  ghost function BigEnd(s: seq<int>): (v: int)
  {
    if s == [] then 0 else BigEnd(s[..|s| - 1]) * B + s[|s| - 1]
  }

  ghost function LittleEnd(s: seq<int>): (v: int)
  {
    if s == [] then 0 else LittleEnd(s[..|s| - 1]) + s[|s| - 1] * BPow(|s| - 1)
  }

  lemma {:induction false} LittleEndBound(s: seq<int>)
    requires Digits(s)
    ensures 0 <= LittleEnd(s) < BPow(|s|)
    decreases |s|
  {
    if s != [] {
      LittleEndBound(s[..|s| - 1]);
      MulMono(s[|s| - 1] + 1, B, BPow(|s| - 1));
      MulMono(0, s[|s| - 1], BPow(|s| - 1));
      var d, p := s[|s| - 1], BPow(|s| - 1);
      assert (d + 1) * p == d * p + p;
    }
  }

  lemma LittleEndAppend(s: seq<int>, d: int)
    ensures LittleEnd(s + [d]) == LittleEnd(s) + d * BPow(|s|)
  {
    assert (s + [d])[..|s|] == s;
  }

  lemma {:induction false} ConvBound(x: seq<int>, t: seq<int>, k: int, m: nat)
    requires Digits(x) && Digits(t) && m <= |x|
    ensures 0 <= ConvTo(x, t, k, m) <= m * 0xffff_fe00_0001
    decreases m
  {
    if m != 0 {
      ConvBound(x, t, k, m - 1);
      DigitProduct(x[m - 1], At(t, k - (m - 1)));
    }
  }

  lemma DigitProduct(a: int, b: int)
    requires 0 <= a < B && 0 <= b < B
    ensures 0 <= a * b <= 0xffff_fe00_0001
  {
    MulMono(a, B - 1, b);
    MulMono(b, B - 1, B - 1);
  }

  /** The columns from k on are the columns below k, shifted up, plus the digits q. */
  lemma {:induction false} ColumnsSplit(x: seq<int>, t: seq<int>, k: nat, q: seq<int>)
    requires forall i :: 0 <= i < |q| ==> q[i] == Conv(x, t, k + i)
    ensures Columns(x, t, k + |q| - 1) == Columns(x, t, k - 1) * BPow(|q|) + BigEnd(q)
    decreases |q|
  {
    if q != [] {
      var r := q[..|q| - 1];
      ColumnsSplit(x, t, k, r);
      var c, p := Columns(x, t, k - 1), BPow(|r|);
      assert (c * p) * B == c * (B * p);
    }
  }

  // ---- lines 173-189 ----

  /** Lines 179-180: the first table digit that matters and the exponent of q[0]. */
  method FirstDigit(e0: int) returns (jv: nat, q0: int)
    ensures jv == Max(0, TruncQuot(e0 - 3, 24)) && q0 == e0 - 24 * (jv + 1) && q0 < 3
    ensures jv > 0 ==> q0 >= -21
  {
    var v := TruncQuot(e0 - 3, 24);
    if v < 0 { v := 0; }
    jv := v;
    q0 := e0 - 24 * (jv + 1);
  }

  /** The doubles x hold the integers d. */
  ghost predicate Carries(x: seq<Double>, d: seq<int>)
  {
    |x| == |d| && forall i :: 0 <= i < |x| ==> Holds(x[i], d[i], 1074)
  }

  /** Lines 183-184: f[a] is table digit jv - jx + a. */
  method LoadTable(t: seq<int>, jv: nat, jx: nat, jz: nat) returns (f: array<Double>)
    requires Digits(t) && jv + jz < |t|
    ensures fresh(f) && f.Length == jx + jz + 1
    ensures forall a :: 0 <= a < f.Length ==> Holds(f[a], At(t, jv - jx + a), 1074)
  {
    f := new Double[jx + jz + 1](_ => ZERO);
    var j := jv - jx;
    for i := 0 to jx + jz + 1
      invariant j == jv - jx + i
      invariant forall a :: 0 <= a < i ==> Holds(f[a], At(t, jv - jx + a), 1074)
    {
      ZeroHolds(1074);
      f[i] := if j < 0 then ZERO else FromInt(t[j]);
      j := j + 1;
    }
  }

  /** Line 188: one column. */
  method Column(x: seq<Double>, ghost d: seq<int>, ghost t: seq<int>, ghost jv: nat, f: seq<Double>, i: nat)
    returns (fw: Double)
    requires Carries(x, d) && 1 <= |x| <= 3 && Digits(d) && Digits(t) && i + |x| <= |f|
    requires forall a :: 0 <= a < |f| ==> Holds(f[a], At(t, jv - (|x| - 1) + a), 1074)
    ensures Holds(fw, Conv(d, t, jv + i), 1074)
  {
    var jx := |x| - 1;
    fw := ZERO;
    ZeroHolds(1074);
    for j := 0 to jx + 1
      invariant Holds(fw, ConvTo(d, t, jv + i, j), 1074)
    {
      ConvBound(d, t, jv + i, j);
      DigitProduct(d[j], At(t, jv + i - j));
      fw := AddProduct(fw, x[j], f[jx + i - j], ConvTo(d, t, jv + i, j), d[j], At(t, jv + i - j));
    }
  }

  /** Lines 182-189 and 245-249: columns jv .. jv+jz of the product. */
  method FillColumns(x: seq<Double>, ghost d: seq<int>, t: seq<int>, jv: nat, jz: nat) returns (q: array<Double>)
    requires Carries(x, d) && 1 <= |x| <= 3 && Digits(d) && Digits(t) && jv + jz < |t|
    ensures fresh(q) && q.Length == jz + 1
    ensures forall i :: 0 <= i <= jz ==> Holds(q[i], Conv(d, t, jv + i), 1074)
  {
    var table := LoadTable(t, jv, |x| - 1, jz);
    var f := table[..];
    q := new Double[jz + 1](_ => ZERO);
    for i := 0 to jz + 1
      invariant forall a :: 0 <= a < i ==> Holds(q[a], Conv(d, t, jv + a), 1074)
    {
      var fw := Column(x, d, t, jv, f, i);
      q[i] := fw;
    }
  }

  // ---- lines 193-198: distillation ----

  lemma DistillStep(w: int, z: int, e: int, d: int, p: int, r: int)
    requires w * B + z == e * B + d && r == B * p
    ensures (w * B + z) * p == e * r + d * p
  {
    assert (e * B + d) * p == (e * B) * p + d * p;
    Reassoc(e, B, p);
  }

  /** The columns c, which overlap, as a top part v and 24-bit digits iq, with nothing lost. */
  method Distill(q: seq<Double>, jz: nat, ghost c: seq<int>) returns (iq: array<int>, z: Double, ghost v: int)
    requires 0 < jz && |q| == jz + 1 && Carries(q, c)
    requires forall i :: 0 <= i <= jz ==> 0 <= c[i] < 0x3_0000_0000_0000
    ensures fresh(iq) && iq.Length == jz && Digits(iq[..])
    ensures Holds(z, v, 1074) && 0 <= v < 0x4_0000_0000_0000
    ensures BigEnd(c) == v * BPow(jz) + LittleEnd(iq[..])
  {
    iq := new int[jz];
    var i, j := 0, jz;
    z, v := q[jz], c[jz];
    assert c == c[..jz] + [c[jz]];
    while j > 0
      invariant 0 <= j <= jz && i == jz - j
      invariant Holds(z, v, 1074) && 0 <= v < 0x4_0000_0000_0000
      invariant Digits(iq[..i])
      invariant BigEnd(c) == (BigEnd(c[..j]) * B + v) * BPow(i) + LittleEnd(iq[..i])
    {
      ghost var low := iq[..i];
      var d, y := DistillDigit(z, q[j - 1], v, c[j - 1]);
      DistillFold(c, j, v, low, d);
      iq[i] := d;
      assert iq[..i + 1] == low + [d];
      z, v := y, c[j - 1] + v / B;
      i := i + 1;
      j := j - 1;
    }
    assert iq[..] == iq[..i];
  }

  lemma DistillFold(c: seq<int>, j: nat, v: int, low: seq<int>, d: int)
    requires 0 < j <= |c| && d == v - B * (v / B)
    ensures (BigEnd(c[..j]) * B + v) * BPow(|low|) + LittleEnd(low)
         == (BigEnd(c[..j - 1]) * B + (c[j - 1] + v / B)) * BPow(|low| + 1) + LittleEnd(low + [d])
  {
    var w, p, r := BigEnd(c[..j]), BPow(|low|), BPow(|low| + 1);
    var e := BigEnd(c[..j - 1]) * B + (c[j - 1] + v / B);
    assert e == w + v / B by { assert c[..j][..j - 1] == c[..j - 1]; }
    assert LittleEnd(low + [d]) == LittleEnd(low) + d * p by { LittleEndAppend(low, d); }
    DistillStep(w, v, e, d, p, r);
  }

  // ---- lines 200-212: the integer part modulo 8 ----

  /** One, in the units 2^(q0 - 24 jz) of the last digit. */
  ghost function Unit(jz: nat, q0: int): (u: nat)
    requires q0 <= 24 * jz
    ensures u > 0
  {
    Pow2(24 * jz - q0)
  }

  /** The top part, in units of 2^q0 when q0 is negative, and the digits, as one fraction. */
  ghost function Fraction(zf: int, iq: seq<int>): (f: int) { zf * BPow(|iq|) + LittleEnd(iq) }

  lemma UnitBelow(jz: nat, q0: int)
    requires q0 <= 0
    ensures Unit(jz, q0) == Pow2(-q0) * BPow(jz)
  {
    BPowIsPow2(jz);
    Pow2Add(-q0, 24 * jz);
  }

  lemma UnitAbove(jz: nat, q0: int)
    requires 0 < q0 < 3 && jz > 0
    ensures Unit(jz, q0) == Pow2(24 - q0) * BPow(jz - 1)
    ensures Pow2(q0) * Unit(jz, q0) == BPow(jz)
    ensures Pow2(q0) * Pow2(24 - q0) == B
  {
    BPowIsPow2(jz - 1);
    BPowIsPow2(jz);
    Pow2Add(24 - q0, 24 * (jz - 1));
    Pow2Add(q0, 24 * jz - q0);
    Pow2Add(q0, 24 - q0);
    Pow2Values();
  }

  /** n and f are the integer part and the fraction of v / u, modulo 8. */
  ghost predicate SplitMod8(v: int, u: nat, n: int, f: int)
    requires u > 0
  {
    0 <= n < 8 && 0 <= f < u && v % (8 * u) == n * u + f
  }

  lemma SplitIntro(v: int, u: nat, n: int, f: int, m: int)
    requires u > 0 && 0 <= n < 8 && 0 <= f < u && v == (8 * m + n) * u + f
    ensures SplitMod8(v, u, n, f)
  {
    assert (8 * m + n) * u == m * (8 * u) + n * u;
    MulMono(n, 7, u);
    DivModUnique(v, 8 * u, m, n * u + f);
  }

  lemma BelowArith(z: int, p: nat, b: nat, l: int, n: int, zf: int, m: int)
    requires 0 <= l < b && 0 <= zf < p && z == (8 * m + n) * p + zf
    ensures z * b + l == (8 * m + n) * (p * b) + (zf * b + l)
    ensures 0 <= zf * b + l < p * b
  {
    var k := 8 * m + n;
    assert z * b == (k * p) * b + zf * b;
    Reassoc(k, p, b);
    TopDigitBound(l, zf, p, b);
  }

  lemma EightsOut(z: nat, p: nat, n: int, zf: int, m: int)
    requires p > 0 && z % (8 * p) == n * p + zf && m == z / (8 * p)
    ensures z == (8 * m + n) * p + zf
  {
    assert z == m * (8 * p) + (n * p + zf);
    assert (8 * m + n) * p == m * (8 * p) + n * p;
  }

  /** Lines 201-204 and 211-212, for q0 <= 0: z counts units of 2^q0. */
  lemma IntegerPartBelow(z: nat, iq: seq<int>, q0: int, n: int, zf: int)
    requires q0 <= 0 && Digits(iq)
    requires z % (8 * Pow2(-q0)) == n * Pow2(-q0) + zf && 0 <= n < 8 && 0 <= zf < Pow2(-q0)
    ensures SplitMod8(z * BPow(|iq|) + LittleEnd(iq), Unit(|iq|, q0), n, Fraction(zf, iq))
  {
    var p, b, l := Pow2(-q0), BPow(|iq|), LittleEnd(iq);
    var u := Unit(|iq|, q0);
    UnitBelow(|iq|, q0);
    LittleEndBound(iq);
    var m := z / (8 * p);
    EightsOut(z, p, n, zf, m);
    BelowArith(z, p, b, l, n, zf, m);
    SplitIntro(z * b + l, u, n, zf * b + l, m);
  }

  /** The leading digit d gives its top part i to the integer and keeps d - i * g. */
  lemma LeadingDigit(iq: seq<int>, k: nat, i: int, g: nat, rest: seq<int>)
    requires |iq| == k + 1 && Digits(iq) && g <= B
    requires 0 <= i && i * g <= iq[k] < (i + 1) * g && rest == iq[k := iq[k] - i * g]
    ensures Digits(rest)
    ensures LittleEnd(iq) == i * (g * BPow(k)) + LittleEnd(rest)
    ensures 0 <= LittleEnd(rest) < g * BPow(k)
  {
    var low, d := iq[..k], iq[k];
    var e := d - i * g;
    var l, b := LittleEnd(low), BPow(k);
    assert LittleEnd(iq) == l + d * b;
    assert LittleEnd(rest) == l + e * b by { assert rest[..k] == low; }
    LittleEndBound(low);
    LeadingArith(l, d, i, g, b, e);
  }

  lemma LeadingArith(l: int, d: int, i: int, g: nat, b: nat, e: int)
    requires 0 <= l < b && 0 <= i && i * g <= d < (i + 1) * g && e == d - i * g
    ensures 0 <= e < g
    ensures l + d * b == i * (g * b) + (l + e * b)
    ensures 0 <= l + e * b < g * b
  {
    assert (i + 1) * g == i * g + g;
    assert d * b == (i * g) * b + e * b;
    Reassoc(i, g, b);
    TopDigitBound(l, e, g, b);
  }

  lemma AboveArith(z: nat, h: nat, u: nat, i: int, l: int)
    requires (h == 2 || h == 4) && 0 <= i < h && 0 <= l < u
    ensures SplitMod8(z * (h * u) + (i * u + l), u, (z * h) % 8 + i, l)
  {
    var w := z * h;
    var m, n := w / 8, w % 8 + i;
    TopBits(z, h, i);
    Reassoc(z, h, u);
    assert w * u + i * u == (8 * m + n) * u;
    SplitIntro(z * (h * u) + (i * u + l), u, n, l, m);
  }

  /** Lines 206-210, for q0 > 0: the top q0 bits of the leading digit belong to n. */
  lemma IntegerPartAbove(z: nat, iq: seq<int>, q0: int, i: int, rest: seq<int>)
    requires 0 < q0 < 3 && iq != [] && Digits(iq)
    requires 0 <= i && i * Pow2(24 - q0) <= iq[|iq| - 1] < (i + 1) * Pow2(24 - q0)
    requires rest == iq[|iq| - 1 := iq[|iq| - 1] - i * Pow2(24 - q0)]
    ensures Digits(rest)
    ensures SplitMod8(z * BPow(|iq|) + LittleEnd(iq), Unit(|iq|, q0), (z * Pow2(q0)) % 8 + i, Fraction(0, rest))
  {
    var k := |iq| - 1;
    var g, h := Pow2(24 - q0), Pow2(q0);
    UnitAbove(|iq|, q0);
    assert h == 2 || h == 4 by { assert Pow2(1) == 2 && Pow2(2) == 4; }
    assert g <= B by { MulMono(1, h, g); }
    LeadingDigit(iq, k, i, g, rest);
    assert i < h by { if i >= h { MulMono(h, i, g); assert false; } }
    AboveArith(z, h, Unit(|iq|, q0), i, LittleEnd(rest));
  }

  lemma TopDigitBound(l: int, d: int, g: int, b: int)
    requires 0 <= l < b && 0 <= d < g
    ensures 0 <= l + d * b < g * b
  {
    MulMono(d + 1, g, b);
    MulMono(0, d, b);
    assert (d + 1) * b == d * b + b;
  }

  lemma TopBits(z: nat, h: nat, i: nat)
    requires (h == 2 || h == 4) && i < h
    ensures (z * h) % 8 + i < 8
  {
  }

  /** A number l + d * b is at least half of 2 g * b exactly when its leading digit is at least g. */
  lemma HalfTest(l: int, d: int, g: nat, b: nat)
    requires 0 <= l < b
    ensures d >= g <==> 2 * (l + d * b) >= (2 * g) * b
  {
    assert (2 * g) * b == 2 * (g * b);
    if d >= g { MulMono(g, d, b); } else { MulMono(d + 1, g, b); assert (d + 1) * b == d * b + b; }
  }

  /** What lines 200-212 leave: n, the top part zf, the digits, and ih > 0 exactly when the
      fraction is at least one half. */
  ghost predicate IntegerTaken(v: int, q0: int, n: int, zf: int, ih: int, iq: seq<int>)
  {
    && iq != [] && q0 < 3 && Digits(iq)
    && SplitMod8(v, Unit(|iq|, q0), n, Fraction(zf, iq))
    && (if q0 < 0 then 0 <= zf < Pow2(-q0) && (ih == 0 || ih == 2) else zf == 0 && (ih == 0 || ih == 1))
    && (ih > 0 <==> 2 * Fraction(zf, iq) >= Unit(|iq|, q0))
  }

  /** The double z is zf * 2^q0 exactly. */
  ghost predicate TopHolds(z: Double, zf: int, q0: int)
  {
    && !Neg(z) && Finite(z)
    && if q0 >= -1074 then Mag(z) == zf * Pow2(1074 + q0) else Mag(z) * Pow2(-1074 - q0) == zf
  }

  /** The double z is zf * 2^q0, rounded once if that is no whole number of units. */
  ghost predicate TopRounded(z: Double, zf: int, q0: int)
  {
    if q0 >= 0 then zf == 0 && Holds(z, 0, 1074)
    else if q0 >= -1074 then Holds(z, zf, 1074 + q0)
    else zf >= 0 && z == Make(false, RoundCode(zf, -1074 - q0))
  }

  /** When the rounding changes nothing. */
  lemma TopExact(z: Double, zf: int, q0: int)
    requires TopRounded(z, zf, q0) && 0 <= zf < 0x4_0000_0000_0000
    ensures TopHolds(z, zf, q0) <==> q0 >= -1074 || zf % Pow2(-1074 - q0) == 0
  {
    if q0 < -1074 { RoundedTop(z, zf, -1074 - q0); }
  }

  lemma RoundedTop(z: Double, zf: nat, k: nat)
    requires zf < 0x4_0000_0000_0000 && z == Make(false, RoundCode(zf, k))
    ensures Finite(z) && (Mag(z) * Pow2(k) == zf <==> zf % Pow2(k) == 0)
  {
    var p := Pow2(k);
    RoundedSmall(zf, k);
    MagOrder(Code(z), TWO52);
    if zf % p == 0 {
      var g := zf / p;
      assert zf == g * p;
      assert 0 <= g <= zf by { DivShrinks(zf, k); }
      RoundExact(zf, k, g);
    } else if Mag(z) * p == zf {
      DivModUnique(zf, p, Mag(z), 0);
      assert false;
    }
  }

  /** Integer part modulo 8 and fraction of v units of 2^-k. */
  ghost function Octal(v: int, k: nat): (n: int) { (v % (8 * Pow2(k))) / Pow2(k) }
  ghost function Rest(v: int, k: nat): (f: int) { (v % (8 * Pow2(k))) % Pow2(k) }

  /** Lines 200-212. */
  method TakeInteger(z: Double, q0: i32, iq: array<int>, ghost v: int)
    returns (n: int, y: Double, ih: int, ghost zf: int)
    requires iq.Length > 0 && Digits(iq[..]) && -0x8000_0000 < q0 < 3
    requires Holds(z, v, 1074) && v < 0x4_0000_0000_0000
    modifies iq
    ensures IntegerTaken(v * BPow(iq.Length) + LittleEnd(old(iq[..])), q0, n, zf, ih, iq[..])
    ensures TopRounded(y, zf, q0) && 0 <= zf <= v
    ensures q0 < -1071 ==> zf == v && ih == 0
  {
    n, y, zf := ScaledWhole(z, q0, v);
    if q0 > 0 {
      n, ih := TakeAbove(n, q0, iq, v);
    } else {
      ih := TakeBelow(n, y, q0, iq, v, zf);
    }
  }

  /** Lines 201-204. */
  method ScaledWhole(z: Double, q0: i32, ghost v: int) returns (n: i32, y: Double, ghost zf: int)
    requires Holds(z, v, 1074) && v < 0x4_0000_0000_0000 && -0x8000_0000 < q0 < 3
    ensures q0 > 0 ==> n == (v * Pow2(q0)) % 8
    ensures q0 <= 0 ==> n == Octal(v, -q0) && zf == Rest(v, -q0)
    ensures q0 < 0 ==> (FAtMost(HALF, y) <==> 2 * zf >= Pow2(-q0))
    ensures TopRounded(y, zf, q0) && 0 <= zf <= v
    ensures q0 < -1071 ==> zf == v && 2 * zf < Pow2(-q0)
  {
    y := ScaleTop(z, q0, v);
    if q0 < -1071 { FarBelowHalf(y); }
    n, y := Whole(y, if q0 > 0 then v * Pow2(q0) else v, if q0 > 0 then 0 else -q0);
    zf := 0;
    if q0 <= 0 {
      SmallRest(v, -q0);
      zf := Rest(v, -q0);
      if q0 < -1071 { TinyRest(v, -q0); } else if q0 < 0 { AtLeastHalf(y, zf, -q0); }
    }
  }

  /** Lines 202-204: the integer part modulo 8, and the rest. */
  method Whole(z: Double, ghost v: int, ghost k: nat) returns (n: i32, y: Double)
    requires Fractional(z) || (k <= 1071 && Holds(z, v, 1074 - k))
    ensures k <= 1071 && Holds(z, v, 1074 - k) ==>
              n == Octal(v, k) && Holds(y, Rest(v, k), 1074 - k)
    ensures Fractional(z) ==> n == 0 && y == z
  {
    y := TrimEights(z, v, k);
    n, y := TakeWhole(y, v % (8 * Pow2(k)), k);
  }

  lemma TinyRest(v: nat, k: nat)
    requires v < 0x4_0000_0000_0000 && k > 1071
    ensures Octal(v, k) == 0 && Rest(v, k) == v && 2 * v < Pow2(k)
  {
    var p := Pow2(k);
    assert v < p && 2 * v < p by { Pow2Mono(52, k); Pow2Values(); }
    assert v % (8 * p) == v by { DivModUnique(v, 8 * p, 0, v); }
    DivModUnique(v, p, 0, v);
  }

  lemma SmallRest(v: nat, k: nat)
    ensures 0 <= Rest(v, k) <= v
  {
    var p := Pow2(k);
    var r := v % (8 * p);
    QuotientBracket(v, 8 * p);
    QuotientBracket(r, p);
    MulMono(0, v / (8 * p), 8 * p);
    MulMono(0, r / p, p);
  }

  /** Lines 206-210. */
  method TakeAbove(n0: int, q0: int, iq: array<int>, ghost z: nat) returns (n: int, ih: int)
    requires iq.Length > 0 && Digits(iq[..]) && 0 < q0 < 3 && n0 == (z * Pow2(q0)) % 8
    modifies iq
    ensures IntegerTaken(z * BPow(iq.Length) + LittleEnd(old(iq[..])), q0, n, 0, ih, iq[..])
  {
    var k := iq.Length - 1;
    ghost var was := iq[..];
    var g := Pow2(24 - q0);
    var i := iq[k] / g;
    n := n0 + i;
    assert i * g <= iq[k] < (i + 1) * g && 0 <= i by { QuotientBracket(iq[k], g); }
    IntegerPartAbove(z, was, q0, i, was[k := was[k] - i * g]);
    iq[k] := iq[k] - i * g;
    assert iq[..] == was[k := was[k] - i * g];
    var half := Pow2(23 - q0);
    ih := iq[k] / half;
    LeadingHalf(iq[..], q0, ih);
  }

  lemma QuotientBracket(d: nat, g: nat)
    requires g > 0
    ensures 0 <= d / g && (d / g) * g <= d < (d / g + 1) * g
    ensures d % g == d - (d / g) * g
  {
    var i := d / g;
    assert d == i * g + d % g;
    if i < 0 { MulMono(i, -1, g); assert false; }
    assert (i + 1) * g == i * g + g;
  }

  /** Lines 209 and 211: the bit below the integer part, in the leading digit. */
  lemma LeadingHalf(iq: seq<int>, q0: int, ih: int)
    requires iq != [] && 0 <= q0 < 3 && Digits(iq) && ih == iq[|iq| - 1] / Pow2(23 - q0)
    requires LittleEnd(iq) < Unit(|iq|, q0)
    ensures ih == 0 || ih == 1
    ensures ih > 0 <==> 2 * Fraction(0, iq) >= Unit(|iq|, q0)
  {
    var k := |iq| - 1;
    LittleEndBound(iq[..k]);
    LeadingUnit(|iq|, q0);
    HalfBit(LittleEnd(iq[..k]), iq[k], Pow2(23 - q0), BPow(k), ih);
  }

  lemma HalfBit(l: int, d: nat, half: nat, b: nat, ih: int)
    requires 0 <= l < b && half > 0 && ih == d / half && l + d * b < (2 * half) * b
    ensures ih == 0 || ih == 1
    ensures ih > 0 <==> 2 * (l + d * b) >= (2 * half) * b
  {
    HalfTest(l, d, half, b);
    QuotientBracket(d, half);
    assert d < 2 * half by { if d >= 2 * half { MulMono(2 * half, d, b); assert false; } }
    if ih >= 2 { MulMono(2, ih, half); assert false; }
  }

  lemma LeadingUnit(jz: nat, q0: int)
    requires jz > 0 && 0 <= q0 < 3
    ensures Unit(jz, q0) == (2 * Pow2(23 - q0)) * BPow(jz - 1)
  {
    BPowIsPow2(jz - 1);
    Pow2Add(24 - q0, 24 * (jz - 1));
  }

  /** Lines 211-212. */
  method TakeBelow(n: int, y: Double, q0: int, iq: array<int>, ghost z: nat, ghost zf: int) returns (ih: int)
    requires iq.Length > 0 && Digits(iq[..]) && q0 <= 0
    requires n == Octal(z, -q0) && zf == Rest(z, -q0)
    requires q0 < 0 ==> (FAtMost(HALF, y) <==> 2 * zf >= Pow2(-q0))
    ensures IntegerTaken(z * BPow(iq.Length) + LittleEnd(iq[..]), q0, n, zf, ih, iq[..])
    ensures q0 < 0 ==> (ih > 0 <==> 2 * zf >= Pow2(-q0))
  {
    BelowParts(z, Pow2(-q0), n, zf);
    IntegerPartBelow(z, iq[..], q0, n, zf);
    ih := 0;
    if q0 == 0 {
      ih := iq[iq.Length - 1] / 0x80_0000;
      assert Pow2(23) == 0x80_0000 by { assert Pow2(24) == 2 * Pow2(23); Pow2Values(); }
      LeadingHalf(iq[..], 0, ih);
    } else {
      if FAtMost(HALF, y) { ih := 2; }
      TopHalf(iq[..], q0, zf);
    }
  }

  lemma BelowParts(z: nat, p: nat, n: int, zf: int)
    requires p > 0 && n == (z % (8 * p)) / p && zf == (z % (8 * p)) % p
    ensures z % (8 * p) == n * p + zf && 0 <= n < 8 && 0 <= zf < p
  {
    var r := z % (8 * p);
    QuotientBracket(r, p);
    if n >= 8 { MulMono(8, n, p); assert false; }
  }

  lemma TopHalf(iq: seq<int>, q0: int, zf: int)
    requires q0 < 0 && Digits(iq)
    ensures 2 * zf >= Pow2(-q0) <==> 2 * Fraction(zf, iq) >= Unit(|iq|, q0)
  {
    LittleEndBound(iq);
    UnitBelow(|iq|, q0);
    HalfTest(LittleEnd(iq), zf, Pow2(-q0 - 1), BPow(|iq|));
  }

  // ---- lines 214-236: one minus the fraction ----

  /** Lines 216-223: the digits of BPow - LittleEnd, from the least significant end; zero stays
      zero. `carry` says that a nonzero digit was met. */
  method Complement(iq: array<int>) returns (carry: int)
    requires Digits(iq[..])
    modifies iq
    ensures Digits(iq[..])
    ensures carry == if LittleEnd(old(iq[..])) == 0 then 0 else 1
    ensures LittleEnd(iq[..]) == if carry == 0 then 0 else BPow(iq.Length) - LittleEnd(old(iq[..]))
  {
    ghost var was := iq[..];
    carry := 0;
    for i := 0 to iq.Length
      invariant Digits(iq[..i])
      invariant iq[i..] == was[i..]
      invariant carry == if LittleEnd(was[..i]) == 0 then 0 else 1
      invariant LittleEnd(iq[..i]) == if carry == 0 then 0 else BPow(i) - LittleEnd(was[..i])
    {
      ghost var done, prev := iq[..i], was[..i];
      var j := iq[i];
      assert j == was[i] && iq[i + 1..] == was[i + 1..];
      if carry == 0 {
        if j != 0 {
          carry := 1;
          iq[i] := 0x100_0000 - j;
        }
      } else {
        iq[i] := 0xff_ffff - j;
      }
      assert iq[..i + 1] == done + [iq[i]] && was[..i + 1] == prev + [j];
      ComplementStep(done, prev, j, iq[i]);
    }
    assert iq[..iq.Length] == iq[..] && was[..iq.Length] == was;
  }

  lemma ComplementStep(done: seq<int>, prev: seq<int>, j: int, d: int)
    requires |done| == |prev| && Digits(prev) && 0 <= j < B
    requires LittleEnd(done) == if LittleEnd(prev) == 0 then 0 else BPow(|prev|) - LittleEnd(prev)
    requires d == if LittleEnd(prev) != 0 then 0xff_ffff - j else if j != 0 then B - j else 0
    ensures LittleEnd(prev + [j]) == 0 <==> LittleEnd(prev) == 0 && j == 0
    ensures LittleEnd(done + [d])
         == if LittleEnd(prev + [j]) == 0 then 0 else BPow(|prev| + 1) - LittleEnd(prev + [j])
  {
    LittleEndBound(prev);
    LittleEndAppend(done, d);
    LittleEndAppend(prev, j);
    ComplementDigit(LittleEnd(prev), j, BPow(|prev|));
  }

  lemma ComplementDigit(l: int, j: int, b: nat)
    requires 0 <= l < b && 0 <= j < B
    ensures (B - j) * b == B * b - j * b
    ensures (b - l) + (0xff_ffff - j) * b == B * b - (l + j * b)
    ensures l + j * b == 0 <==> l == 0 && j == 0
  {
    MulMono(0, j, b);
    if j > 0 { MulMono(1, j, b); }
  }

  /** The mask of lines 225-230 reduces the digits modulo one. */
  lemma MaskLeading(iq: seq<int>, q0: int, masked: seq<int>)
    requires 0 < q0 < 3 && iq != [] && Digits(iq)
    requires masked == iq[|iq| - 1 := iq[|iq| - 1] % Pow2(24 - q0)]
    ensures Digits(masked)
    ensures LittleEnd(masked) == LittleEnd(iq) % Unit(|iq|, q0)
  {
    var k := |iq| - 1;
    var g, d := Pow2(24 - q0), iq[k];
    var i := d / g;
    var u := g * BPow(k);
    assert Unit(|iq|, q0) == u && g <= B by { UnitAbove(|iq|, q0); MulMono(1, Pow2(q0), g); }
    QuotientBracket(d, g);
    assert masked == iq[k := d - i * g];
    LeadingDigit(iq, k, i, g, masked);
    DivModUnique(LittleEnd(iq), u, i, LittleEnd(masked));
  }

  lemma MaskWord(d: int, q0: int)
    requires 0 <= d < B && 0 < q0 < 3
    ensures And(d, if q0 == 1 then 0x7f_ffff else 0x3f_ffff) == d % Pow2(24 - q0)
  {
    assert Pow2(23) == 0x80_0000 && Pow2(22) == 0x40_0000 by {
      Pow2Values();
      assert Pow2(24) == 2 * Pow2(23) && Pow2(23) == 2 * Pow2(22);
    }
    AndLowMask(d, d / Pow2(24 - q0), d % Pow2(24 - q0), 24 - q0);
  }

  lemma FlipBelow(zf: int, p: int, b: nat, l: int, carry: int)
    requires carry == if l == 0 then 0 else 1
    ensures (p - zf - carry) * b + (if carry == 0 then 0 else b - l) == p * b - (zf * b + l)
  {
    assert (p - zf - carry) * b == p * b - zf * b - carry * b;
  }

  lemma FlipAbove(b: nat, h: nat, u: nat, l: int)
    requires b == h * u && h > 0 && 0 < l < u
    ensures (b - l) % u == u - l
  {
    assert b - l == (h - 1) * u + (u - l);
    DivModUnique(b - l, u, h - 1, u - l);
  }

  /** Lines 225-230: the integer bits of the leading digit are cleared. */
  method MaskTop(iq: array<int>, q0: int)
    requires 0 < q0 < 3 && iq.Length > 0 && Digits(iq[..])
    modifies iq
    ensures Digits(iq[..]) && LittleEnd(iq[..]) == LittleEnd(old(iq[..])) % Unit(iq.Length, q0)
    ensures BPow(iq.Length) == Pow2(q0) * Unit(iq.Length, q0)
  {
    var k := iq.Length - 1;
    ghost var flipped := iq[..];
    MaskWord(iq[k], q0);
    if q0 == 1 { iq[k] := And(iq[k], 0x7f_ffff); } else { iq[k] := And(iq[k], 0x3f_ffff); }
    MaskLeading(flipped, q0, iq[..]);
    UnitAbove(iq.Length, q0);
  }

  /** Lines 215-235: the fraction f becomes 1 - f and n goes up by one. */
  method Flip(iq: array<int>, q0: int, n0: int, z0: Double, ih: int, ghost f0: int, ghost v: int)
    returns (n: int, z: Double, ghost zf: int)
    requires ih > 0 && IntegerTaken(v, q0, n0, f0, ih, iq[..])
    requires TopRounded(z0, f0, q0) && f0 < 0x4_0000_0000_0000
    modifies iq
    ensures n == n0 + 1 && Digits(iq[..])
    ensures Fraction(zf, iq[..]) == Unit(iq.Length, q0) - Fraction(f0, old(iq[..]))
    ensures TopRounded(z, zf, q0) && 0 <= zf <= f0
  {
    ghost var was := iq[..];
    n, z, zf := n0 + 1, z0, f0;
    if q0 < 0 {
      FlipIsNear(was, q0, f0);
      z, zf := FlipTop(iq, q0, z0, f0);
      SmallerTop(f0, was, zf, iq[..]);
    } else {
      NoTop(was);
      FlipDigits(iq, q0);
      NoTop(iq[..]);
    }
  }

  /** A top part of at least one half is not far below one. */
  lemma FlipIsNear(iq: seq<int>, q0: int, f0: int)
    requires q0 < 0 && Digits(iq) && f0 < 0x4_0000_0000_0000 && 2 * Fraction(f0, iq) >= Unit(|iq|, q0)
    ensures q0 >= -1071
  {
    TopHalf(iq, q0, f0);
    if q0 < -1071 { Pow2Mono(52, -q0); Pow2Values(); assert false; }
  }

  lemma SmallerTop(f: int, was: seq<int>, g: int, iq: seq<int>)
    requires |was| == |iq| && Digits(was) && Digits(iq) && Fraction(g, iq) <= Fraction(f, was)
    ensures g <= f
  {
    LittleEndBound(was);
    LittleEndBound(iq);
    var b := BPow(|iq|);
    assert (f + 1) * b == f * b + b;
    if g > f { MulMono(f + 1, g, b); assert false; }
  }

  lemma NoTop(iq: seq<int>)
    ensures Fraction(0, iq) == LittleEnd(iq)
  {
  }

  /** For q0 >= 0 the whole fraction is in the digits. */
  method FlipDigits(iq: array<int>, q0: int)
    requires 0 <= q0 < 3 && iq.Length > 0 && Digits(iq[..]) && 0 < LittleEnd(iq[..]) < Unit(iq.Length, q0)
    modifies iq
    ensures Digits(iq[..]) && LittleEnd(iq[..]) == Unit(iq.Length, q0) - LittleEnd(old(iq[..]))
  {
    ghost var l, b, u := LittleEnd(iq[..]), BPow(iq.Length), Unit(iq.Length, q0);
    var carry := Complement(iq);
    if q0 > 0 {
      MaskTop(iq, q0);
      FlipAbove(b, Pow2(q0), u, l);
    } else {
      UnitBelow(iq.Length, q0);
    }
  }

  /** For q0 < 0 the top part is subtracted from one and the carry of the digits from that. */
  method FlipTop(iq: array<int>, q0: int, z0: Double, ghost f0: int) returns (z: Double, ghost zf: int)
    requires -1071 <= q0 < 0 && iq.Length > 0 && Digits(iq[..])
    requires Holds(z0, f0, 1074 + q0) && f0 < Pow2(-q0) && 2 * Fraction(f0, iq[..]) >= Unit(iq.Length, q0)
    requires f0 < 0x4_0000_0000_0000
    modifies iq
    ensures Digits(iq[..]) && Fraction(zf, iq[..]) == Unit(iq.Length, q0) - Fraction(f0, old(iq[..]))
    ensures Holds(z, zf, 1074 + q0) && 0 <= zf <= Pow2(-q0)
  {
    ghost var l, p := LittleEnd(iq[..]), Pow2(-q0);
    TopHalf(iq[..], q0, f0);
    var carry := Complement(iq);
    z := OneMinus(z0, q0, carry, f0);
    zf := p - f0 - (if carry != 0 then 1 else 0);
    UnitBelow(iq.Length, q0);
    FlipBelow(f0, p, BPow(iq.Length), l, carry);
  }

  // ---- the pass as a whole ----

  /** n units plus the signed fraction. */
  ghost function Reduced(n: int, u: int, ih: int, f: int): (g: int) { n * u + (if ih == 0 then f else -f) }

  /** m and the signed fraction (negative when ih > 0) give v / u modulo 8, and the fraction
      kept is at most one half. */
  ghost predicate NearestMod8(v: int, u: nat, m: int, ih: int, f: int)
    requires u > 0
  {
    && 0 <= m < 8 && 0 <= f && 2 * f <= u
    && (v - Reduced(m, u, ih, f)) % (8 * u) == 0
  }

  lemma NearestIntro(v: int, u: nat, n: int, f: int, ih: int)
    requires u > 0 && SplitMod8(v, u, n, f) && (ih > 0 <==> 2 * f >= u) && ih >= 0
    ensures ih == 0 ==> NearestMod8(v, u, n % 8, ih, f)
    ensures ih > 0 ==> NearestMod8(v, u, (n + 1) % 8, ih, u - f)
  {
    var t := 8 * u;
    var k := v / t;
    assert v == k * t + (n * u + f);
    if ih == 0 {
      DivModUnique(v - (n * u + f), t, k, 0);
    } else {
      var c := if n == 7 then 1 else 0;
      var m := n + 1 - 8 * c;
      assert m * u == n * u + u - c * t;
      assert v - (m * u - (u - f)) == (k + c) * t;
      DivModUnique(v - (m * u - (u - f)), t, k + c, 0);
    }
  }

  /** Lines 193-236, one pass over columns c[0..jz]. */
  method Pass(q: seq<Double>, jz: nat, q0: i32, ghost c: seq<int>)
    returns (n: int, ih: int, z: Double, iq: array<int>, ghost zf: int)
    requires 0 < jz && |q| == jz + 1 && -0x8000_0000 < q0 < 3 && Carries(q, c)
    requires forall i :: 0 <= i <= jz ==> 0 <= c[i] < 0x3_0000_0000_0000
    ensures fresh(iq) && iq.Length == jz && Digits(iq[..])
    ensures NearestMod8(BigEnd(c), Unit(jz, q0), n % 8, ih, Fraction(zf, iq[..]))
    ensures TopRounded(z, zf, q0) && 0 <= zf <= BigEnd(c) / BPow(jz) && zf < 0x4_0000_0000_0000
    ensures q0 < -1071 ==> zf == BigEnd(c) / BPow(jz)
  {
    ghost var v;
    iq, z, v := Distill(q, jz, c);
    LittleEndBound(iq[..]);
    DivModUnique(BigEnd(c), BPow(jz), v, LittleEnd(iq[..]));
    n, z, ih, zf := TakeInteger(z, q0, iq, v);
    NearestIntro(BigEnd(c), Unit(jz, q0), n, Fraction(zf, iq[..]), ih);
    if ih > 0 {
      n, z, zf := Flip(iq, q0, n, z, ih, zf, BigEnd(c));
    }
  }

  /** The skipped leading columns are a multiple of 8. */
  lemma SkippedIsMultiple(c: int, jz: nat, q0: int) returns (m: int)
    requires -21 <= q0 <= 24 * jz
    ensures c * BPow(jz + 1) == m * (8 * Unit(jz, q0))
  {
    var u, r := Unit(jz, q0), Pow2(21 + q0);
    assert BPow(jz + 1) == r * (8 * u) by {
      BPowIsPow2(jz + 1);
      Pow2Add(21 + q0, 24 * jz - q0 + 3);
      assert Pow2(24 * jz - q0 + 3) == 8 * u by { Pow2Add(24 * jz - q0, 3); assert Pow2(3) == 8; }
    }
    m := c * r;
    Reassoc(c, r, 8 * u);
  }

  lemma NearestShift(v: int, w: int, u: nat, k: int, m: int, ih: int, f: int)
    requires u > 0 && w == k * (8 * u) + v && NearestMod8(v, u, m, ih, f)
    ensures NearestMod8(w, u, m, ih, f)
  {
    ModAddMul(v - Reduced(m, u, ih, f), k, 8 * u);
  }

  // ---- against the full product ----

  /** The argument, read as three digits whatever its length, and table digits 0..m. */
  ghost function Argument(x: seq<int>): (v: int) { (At(x, 0) * B + At(x, 1)) * B + At(x, 2) }

  ghost function TableTo(t: seq<int>, m: int): (v: int)
    decreases m + 1
  {
    if m < 0 then 0 else TableTo(t, m - 1) * B + At(t, m)
  }

  /** Table digits are taken most significant first, and none outside the table. */
  lemma TableDigits(t: seq<int>, m: int)
    ensures m < 0 ==> TableTo(t, m) == 0
    ensures 0 <= m < |t| ==> TableTo(t, m) == TableTo(t, m - 1) * B + t[m]
    ensures m >= |t| ==> TableTo(t, m) == TableTo(t, m - 1) * B
  {
  }

  /** The products that no column of the code covers. */
  ghost function Tail(x: seq<int>, t: seq<int>, m: int): (v: int)
  {
    (At(x, 1) * At(t, m) + At(x, 2) * At(t, m - 1)) * B + At(x, 2) * At(t, m)
  }

  lemma ConvOf3(x: seq<int>, t: seq<int>, k: int)
    requires 1 <= |x| <= 3
    ensures Conv(x, t, k) == At(x, 0) * At(t, k) + At(x, 1) * At(t, k - 1) + At(x, 2) * At(t, k - 2)
  {
    assert ConvTo(x, t, k, 0) == 0;
    assert ConvTo(x, t, k, 1) == x[0] * At(t, k);
    if |x| > 1 { assert ConvTo(x, t, k, 2) == x[0] * At(t, k) + x[1] * At(t, k - 1); }
  }

  lemma {:induction false} ProductSplit(x: seq<int>, t: seq<int>, m: int)
    requires 1 <= |x| <= 3 && m >= -1
    ensures Argument(x) * TableTo(t, m) == Columns(x, t, m) * (B * B) + Tail(x, t, m)
    decreases m + 1
  {
    if m >= 0 {
      ProductSplit(x, t, m - 1);
      ConvOf3(x, t, m);
      ProductStep(At(x, 0), At(x, 1), At(x, 2), At(t, m), At(t, m - 1), At(t, m - 2),
                  TableTo(t, m - 1), Columns(x, t, m - 1));
    }
  }

  lemma ProductStep(a: int, b: int, c: int, t0: int, t1: int, t2: int, r: int, k: int)
    requires ((a * B + b) * B + c) * r == k * (B * B) + ((b * t1 + c * t2) * B + c * t1)
    ensures ((a * B + b) * B + c) * (r * B + t0)
         == (k * B + (a * t0 + b * t1 + c * t2)) * (B * B) + ((b * t0 + c * t1) * B + c * t0)
  {
    var w := (a * B + b) * B + c;
    assert w * (r * B + t0) == (w * r) * B + w * t0;
    assert w * t0 == (a * t0) * (B * B) + (b * t0) * B + c * t0;
  }

  lemma TailBound(x: seq<int>, t: seq<int>, m: int)
    requires Digits(x) && Digits(t)
    ensures 0 <= Tail(x, t, m) < 0x200_0001 * (B * B)
    ensures Tail(x, t, m) == 0 <==> NoTail(x, t, m)
  {
    DigitProduct(At(x, 1), At(t, m));
    DigitProduct(At(x, 2), At(t, m - 1));
    DigitProduct(At(x, 2), At(t, m));
    ProductZero(At(x, 1), At(t, m));
    ProductZero(At(x, 2), At(t, m - 1));
    ProductZero(At(x, 2), At(t, m));
  }

  lemma ProductZero(a: int, b: int)
    ensures a * b == 0 <==> a == 0 || b == 0
  {
  }

  /** Every digit product beyond the last column is zero. */
  ghost predicate NoTail(x: seq<int>, t: seq<int>, m: int)
  {
    && (At(x, 1) == 0 || At(t, m) == 0)
    && (At(x, 2) == 0 || (At(t, m - 1) == 0 && At(t, m) == 0))
  }

  /** The product of x and table digits 0..m, less what n and the fraction account for, modulo 8. */
  ghost function Missed(x: seq<int>, t: seq<int>, m: nat, u: nat, n: int, ih: int, f: int): (r: int)
    requires u > 0
  {
    (Argument(x) * TableTo(t, m) - Reduced(n, u, ih, f) * (B * B)) % ((8 * u) * (B * B))
  }

  /** What n and the fraction miss of the product of x and the table cut off at digit m is
      exactly the tail: less than 2^25 + 1 units of the last digit, and nothing at all if and
      only if every product beyond the last column is zero. */
  lemma ProductMod8(x: seq<int>, t: seq<int>, m: nat, u: nat, n: int, ih: int, f: int)
    requires 1 <= |x| <= 3 && Digits(x) && Digits(t)
    requires u >= 0x100_0000_0000 && NearestMod8(Columns(x, t, m), u, n, ih, f)
    ensures Missed(x, t, m, u, n, ih, f) == Tail(x, t, m)
    ensures 0 <= Missed(x, t, m, u, n, ih, f) < 0x200_0001 * (B * B)
    ensures Missed(x, t, m, u, n, ih, f) == 0 <==> NoTail(x, t, m)
    ensures (8 * u) * (B * B) > 0 && Tail(x, t, m)
         == (Argument(x) * TableTo(t, m) - (n * u + (if ih == 0 then f else -f)) * (B * B)) % ((8 * u) * (B * B))
  {
    ProductSplit(x, t, m);
    TailBound(x, t, m);
    Residue(Argument(x) * TableTo(t, m), Columns(x, t, m), Reduced(n, u, ih, f), 8 * u, Tail(x, t, m), B * B);
  }

  lemma Residue(p: int, c: int, g: int, w: nat, tail: int, bb: nat)
    requires w > 0 && bb > 0 && w * bb > 0 && (c - g) % w == 0
    requires p == c * bb + tail && 0 <= tail < w * bb
    ensures (p - g * bb) % (w * bb) == tail
  {
    var k := (c - g) / w;
    assert c - g == k * w;
    assert (c - g) * bb == k * (w * bb) by { Reassoc(k, w, bb); }
    DivModUnique(p - g * bb, w * bb, k, tail);
  }

  lemma UnitLarge(jz: nat, q0: int)
    requires jz >= 2 && q0 < 3
    ensures Unit(jz, q0) >= 0x100_0000_0000
  {
    Pow2Mono(40, 24 * jz - q0);
    assert Pow2(40) == 0x100_0000_0000 by { Pow2Add(20, 20); Pow2Values(); }
  }

  // ---- the kernel ----

  /** Columns 0..m have at most m + 2 digits. */
  lemma ColumnsBound(x: seq<int>, t: seq<int>, m: nat)
    requires 1 <= |x| <= 3 && Digits(x) && Digits(t)
    ensures 0 <= Columns(x, t, m) < (B * B) * BPow(m)
  {
    ProductSplit(x, t, m);
    TailBound(x, t, m);
    TableBound(t, m);
    ColumnsPositive(x, t, m);
    var a, v, c, b := Argument(x), TableTo(t, m), Columns(x, t, m), BPow(m);
    assert a * v < (B * B) * (B * (B * b)) by {
      MulMono(a, B * B * B - 1, v);
      MulMonoStrict(v, B * b, B * B * B);
    }
    MulCancel((B * B) * b, c, B * B);
  }

  lemma {:induction false} TableBound(t: seq<int>, m: nat)
    requires Digits(t)
    ensures 0 <= TableTo(t, m) < B * BPow(m)
    decreases m
  {
    if m > 0 { TableBound(t, m - 1); }
  }

  lemma {:induction false} ColumnsPositive(x: seq<int>, t: seq<int>, m: int)
    requires Digits(x) && Digits(t)
    ensures Columns(x, t, m) >= 0
    decreases m + 1
  {
    if m >= 0 {
      ColumnsPositive(x, t, m - 1);
      ConvBound(x, t, m, |x|);
    }
  }

  /** Lines 182-236: the pass over columns jv .. jv+jz speaks for all columns 0 .. jv+jz. */
  method AllColumns(x: seq<Double>, t: seq<int>, jv: nat, jz: nat, q0: i32, ghost d: seq<int>)
    returns (n: int, ih: int, z: Double, iq: array<int>, ghost zf: int)
    requires Carries(x, d) && 1 <= |x| <= 3 && Digits(d) && Digits(t) && 0 < jz && jv + jz < |t|
    requires -0x8000_0000 < q0 < 3 && (jv > 0 ==> q0 >= -21)
    ensures fresh(iq) && iq.Length == jz && Digits(iq[..])
    ensures NearestMod8(Columns(d, t, jv + jz), Unit(jz, q0), n % 8, ih, Fraction(zf, iq[..]))
    ensures TopRounded(z, zf, q0) && 0 <= zf < B * B
    ensures q0 < -1071 ==> zf == Columns(d, t, jz) / BPow(jz)
  {
    var q := FillColumns(x, d, t, jv, jz);
    ghost var c := ColumnsOf(d, t, jv, jz);
    ColumnsSmall(c, d, t, jv);
    ColumnsSplit(d, t, jv, c);
    n, ih, z, iq, zf := Pass(q[..], jz, q0, c);
    TopSmall(zf, iq[..], q0);
    if jv > 0 {
      ghost var k := SkippedIsMultiple(Columns(d, t, jv - 1), jz, q0);
      NearestShift(BigEnd(c), Columns(d, t, jv + jz), Unit(jz, q0), k, n % 8, ih, Fraction(zf, iq[..]));
    } else {
      ColumnsBound(d, t, jz);
      QuotientBelow(BigEnd(c), B * B, BPow(jz));
    }
  }

  /** With table digits skipped, the top part has at most 21 bits. */
  lemma TopSmall(zf: int, iq: seq<int>, q0: int)
    requires q0 < 3 && iq != [] && Digits(iq) && 2 * Fraction(zf, iq) <= Unit(|iq|, q0) && (q0 >= 0 ==> zf == 0)
    ensures q0 >= -21 ==> zf < B * B
  {
    if -21 <= q0 < 0 {
      var p, b := Pow2(-q0), BPow(|iq|);
      assert p <= B by { Pow2Mono(-q0, 24); Pow2Values(); }
      LittleEndBound(iq);
      UnitBelow(|iq|, q0);
      TopArith(zf, p, b, LittleEnd(iq));
    }
  }

  lemma TopArith(zf: int, p: nat, b: nat, l: nat)
    requires b > 0 && 2 * (zf * b + l) <= p * b
    ensures zf <= p
  {
    if zf > p { MulMono(p, zf, b); assert false; }
  }

  ghost function ColumnsOf(d: seq<int>, t: seq<int>, jv: nat, jz: nat): (c: seq<int>)
    ensures |c| == jz + 1 && forall i :: 0 <= i <= jz ==> c[i] == Conv(d, t, jv + i)
  {
    seq(jz + 1, i requires 0 <= i => Conv(d, t, jv + i))
  }

  /** Every column is far below 2^53. */
  lemma ColumnsSmall(c: seq<int>, d: seq<int>, t: seq<int>, jv: nat)
    requires 1 <= |d| <= 3 && Digits(d) && Digits(t)
    requires forall i :: 0 <= i < |c| ==> c[i] == Conv(d, t, jv + i)
    ensures forall i :: 0 <= i < |c| ==> 0 <= c[i] < 0x3_0000_0000_0000
  {
    forall i | 0 <= i < |c| ensures 0 <= c[i] < 0x3_0000_0000_0000 { ConvBound(d, t, jv + i, |d|); }
  }

  /** Lines 173-236: from the digits d of x and the table to n & 7 and the signed fraction. The
      double z holds the top part of the fraction exactly if and only if e0 is at least -1050 or
      that part, which is then the leading two digits of the columns, has enough trailing zeros;
      otherwise scalbn has rounded it. */
  method Kernel(x: seq<Double>, e0: i32, t: seq<int>, jz: nat, ghost d: seq<int>)
    returns (n: int, ih: int, z: Double, iq: array<int>, jv: nat, q0: i32, ghost zf: int)
    requires Carries(x, d) && 1 <= |x| <= 3 && Digits(d) && Digits(t) && jz >= 2
    requires e0 - 24 > -0x8000_0000 && jz + Max(0, TruncQuot(e0 - 3, 24)) < |t|
    ensures jv == Max(0, TruncQuot(e0 - 3, 24)) && q0 == e0 - 24 * (jv + 1) && q0 < 3 && jv + jz < |t|
    ensures fresh(iq) && iq.Length == jz && Digits(iq[..])
    ensures NearestMod8(Columns(d, t, jv + jz), Unit(jz, q0), n, ih, Fraction(zf, iq[..]))
    ensures Missed(d, t, jv + jz, Unit(jz, q0), n, ih, Fraction(zf, iq[..])) == Tail(d, t, jv + jz)
    ensures TopRounded(z, zf, q0) && 0 <= zf < B * B
    ensures TopHolds(z, zf, q0) <==> TopFits(d, e0, t, jz)
  {
    jv, q0 := FirstDigit(e0);
    n, ih, z, iq, zf := AllColumns(x, t, jv, jz, q0, d);
    TopExact(z, zf, q0);
    n := n % 8;                              // n & 7
    UnitLarge(jz, q0);
    ProductMod8(d, t, jv + jz, Unit(jz, q0), n, ih, Fraction(zf, iq[..]));
  }

  ghost predicate TopFits(d: seq<int>, e0: int, t: seq<int>, jz: nat)
  {
    e0 >= -1050 || (Columns(d, t, jz) / BPow(jz)) % Pow2(-1050 - e0) == 0
  }

  /** A pass that does not meet the product: with the first digits of the code's own table, and
      an argument whose second digit is 1, the last column leaves out 1 * 0xc0db62. */
  method ProductNotMet() returns (n: int, ih: int, iq: array<int>, q0: int, ghost zf: int)
    ensures q0 == -19 && iq.Length == 4
    ensures Missed([0x80_0000, 1], [0xa2_f983, 0x6e_4e44, 0x15_29fc, 0x27_57d1, 0xf5_34dd, 0xc0_db62], 5,
                   Unit(4, q0), n, ih, Fraction(zf, iq[..])) == 0xc0_db62 * B
  {
    var t := [0xa2_f983, 0x6e_4e44, 0x15_29fc, 0x27_57d1, 0xf5_34dd, 0xc0_db62];
    ghost var d := [0x80_0000, 1];
    SecondDigit(d, t);
    var z, jv;
    n, ih, z, iq, jv, q0, zf := Kernel([FromInt(0x80_0000), FromInt(1)], 29, t, 4, d);
  }

  lemma SecondDigit(d: seq<int>, t: seq<int>)
    requires |d| == 2 && d[1] == 1 && |t| == 6
    ensures Tail(d, t, 5) == t[5] * B
  {
    assert At(d, 2) == 0;
  }

  /** A pass whose top part is rounded: at e0 = -1051 with the odd top part 0xa2f983. */
  method TopNotHeld() returns (z: Double, q0: int, ghost zf: int)
    ensures q0 == -1075 && TopRounded(z, zf, q0) && !TopHolds(z, zf, q0)
  {
    ghost var d := [1];
    var t := [0xa2_f983, 0x6e_4e44, 0x15_29fc];
    var n, ih, iq, jv;
    n, ih, z, iq, jv, q0, zf := Kernel([FromInt(1)], -1051, t, 2, d);
    OddTop(d, t);
  }

  lemma OddTop(d: seq<int>, t: seq<int>)
    requires d == [1] && t == [0xa2_f983, 0x6e_4e44, 0x15_29fc]
    ensures Columns(d, t, 2) / BPow(2) == 0xa2_f983 && !TopFits(d, -1051, t, 2)
  {
    ConvOf3(d, t, 0);
    ConvOf3(d, t, 1);
    ConvOf3(d, t, 2);
    assert Columns(d, t, 0) == 0xa2_f983;
    assert Columns(d, t, 1) == 0xa2_f983 * B + 0x6e_4e44;
    assert BPow(1) == B && BPow(2) == B * B;
    DivModUnique(Columns(d, t, 2), BPow(2), 0xa2_f983, 0x6e_4e44 * B + 0x15_29fc);
  }

  // ---- lines 238-242: is the fraction too small? ----

  /** The leading digits are zero exactly when the number is small. */
  lemma {:induction false} LeadingZeros(iq: seq<int>, k: nat)
    requires Digits(iq) && k <= |iq|
    ensures LittleEnd(iq) < BPow(k) <==> forall i :: k <= i < |iq| ==> iq[i] == 0
    decreases |iq|
  {
    if k == |iq| {
      LittleEndBound(iq);
    } else {
      var j := |iq| - 1;
      var low := iq[..j];
      LeadingZeros(low, k);
      LittleEndBound(low);
      if iq[j] > 0 { MulMono(1, iq[j], BPow(j)); BPowMono(k, j); }
      assert forall i :: k <= i < j ==> low[i] == iq[i];
    }
  }

  lemma {:induction false} BPowMono(a: nat, b: nat)
    requires a <= b
    ensures BPow(a) <= BPow(b)
    decreases b
  {
    if a < b { BPowMono(a, b - 1); }
  }

  lemma SmallFraction(zf: int, iq: seq<int>, k: nat)
    requires zf >= 0 && Digits(iq) && k <= |iq|
    ensures Fraction(zf, iq) < BPow(k) <==> zf == 0 && forall i :: k <= i < |iq| ==> iq[i] == 0
  {
    LeadingZeros(iq, k);
    LittleEndBound(iq);
    if zf > 0 { MulMono(1, zf, BPow(|iq|)); BPowMono(k, |iq|); }
  }

  /** Lines 239-242. */
  method NeedsMore(z: Double, iq: seq<int>, jk: nat) returns (again: bool)
    requires jk <= |iq| && Digits(iq)
    ensures again <==> FEqual(z, ZERO) && forall i :: jk <= i < |iq| ==> iq[i] == 0
  {
    again := false;
    if FEqual(z, ZERO) {
      var j: nat := 0;
      for i := |iq| downto jk
        invariant j == 0 <==> forall a :: i <= a < |iq| ==> iq[a] == 0
      {
        OrBounds(j, iq[i]);
        j := Or(j, iq[i]);
      }
      again := j == 0;
    }
  }

  // ---- lines 255-267: the fraction as digits only ----

  lemma TopZero(z: Double, zf: int, q0: int)
    requires TopHolds(z, zf, q0)
    ensures FEqual(z, ZERO) <==> zf == 0
  {
    ZeroHolds(1074);
    if q0 >= -1074 { MulCancel(zf, 0, Pow2(1074 + q0)); } else { MulCancel(Mag(z), 0, Pow2(-1074 - q0)); }
  }

  /** Lines 256-258: zero digits at the leading end are dropped. */
  method DropZeros(iq: seq<int>, p0: int) returns (r: seq<int>, q0: int)
    requires Digits(iq) && exists i :: 0 <= i < |iq| && iq[i] != 0
    ensures Digits(r) && r != [] && r[|r| - 1] != 0 && LittleEnd(r) == LittleEnd(iq)
    ensures q0 - 24 * (|r| - 1) == p0 - 24 * |iq|
  {
    var jz := |iq| - 1;
    q0 := p0 - 24;
    assert iq[..jz + 1] == iq;
    while iq[jz] == 0
      invariant 0 <= jz < |iq| && q0 == p0 - 24 * (|iq| - jz)
      invariant exists i :: 0 <= i <= jz && iq[i] != 0
      invariant LittleEnd(iq[..jz + 1]) == LittleEnd(iq)
      decreases jz
    {
      assert iq[..jz + 1][..jz] == iq[..jz];
      jz, q0 := jz - 1, q0 - 24;
    }
    r := iq[..jz + 1];
  }

  /** The leading digit is not zero and all are in range, but that it may be 2^24 if `full`. */
  ghost predicate Leads(r: seq<int>, full: bool)
  {
    && r != [] && Digits(r[..|r| - 1]) && 0 < r[|r| - 1] <= B
    && (r[|r| - 1] == B ==> full)
  }

  /** Lines 260-266: the top part becomes one or two digits. */
  method TopDigits(iq: seq<int>, z: Double, p0: i32, ghost zf: int) returns (r: seq<int>, q0: int)
    requires Digits(iq) && -0x8000_0000 < p0 < 0 && TopHolds(z, zf, p0) && 0 < zf <= B * B
    ensures Leads(r, zf == B * B) && LittleEnd(r) == Fraction(zf, iq)
    ensures q0 - 24 * (|r| - 1) == p0 - 24 * |iq|
  {
    var w := ScaleBack(z, p0, zf);
    AtLeast24(w, zf);
    if FAtMost(TWO24, w) {
      var lo, hi := TwoDigits(w, zf);
      AppendTwo(iq, lo, hi);
      r, q0 := iq + [lo] + [hi], p0 + 24;
      assert r[..|r| - 1] == iq + [lo];
    } else {
      var lo := OneDigit(w, zf);
      LittleEndAppend(iq, lo);
      r, q0 := iq + [lo], p0;
      assert r[..|r| - 1] == iq;
    }
  }

  lemma AppendTwo(iq: seq<int>, lo: int, hi: int)
    ensures LittleEnd(iq + [lo] + [hi]) == Fraction(hi * B + lo, iq)
  {
    LittleEndAppend(iq, lo);
    LittleEndAppend(iq + [lo], hi);
    var b := BPow(|iq|);
    assert (hi * B + lo) * b == hi * (B * b) + lo * b;
  }

  /** `z = scalbn(z, -q0)` */
  method ScaleBack(z: Double, p0: i32, ghost zf: int) returns (w: Double)
    requires -0x8000_0000 < p0 < 0 && TopHolds(z, zf, p0) && 0 <= zf <= B * B
    ensures Holds(w, zf, 1074)
  {
    w := Scalbn.Scalbn(z, -p0);
    BackExact(z, p0, zf, w);
  }

  lemma BackExact(z: Double, p0: int, zf: int, w: Double)
    requires p0 < 0 && TopHolds(z, zf, p0) && 0 <= zf <= B * B && w == Make(false, Scalbn.RoundAt(Mag(z), -p0))
    ensures Holds(w, zf, 1074)
  {
    var c := CodeOf(zf, 1074);
    assert c < INF by { BelowTop(zf, c, 1074); }
    assert Mag(z) * Pow2(-p0) == MagAt(c) by { BackToUnits(Mag(z), zf, p0, 1074); }
    assert Scalbn.RoundAt(Mag(z), -p0) == c by { UpExact(Mag(z), -p0, c); }
  }

  lemma UpExact(m: nat, j: nat, c: nat)
    requires c <= INF && m * Pow2(j) == MagAt(c)
    ensures Scalbn.RoundAt(m, j) == c
  {
    RoundExact(m * Pow2(j), 0, c);
  }

  lemma BackToUnits(m: nat, zf: int, p0: int, w: nat)
    requires p0 < 0
    requires if w + p0 >= 0 then m == zf * Pow2(w + p0) else m * Pow2(-(w + p0)) == zf
    ensures m * Pow2(-p0) == zf * Pow2(w)
  {
    if w + p0 >= 0 {
      Pow2Add(w + p0, -p0);
      Reassoc(zf, Pow2(w + p0), Pow2(-p0));
    } else {
      var k := -(w + p0);
      Pow2Add(k, w);
      Reassoc(m, Pow2(k), Pow2(w));
    }
  }

  /** Lines 255-267: digits and exponent that hold the same fraction, with no leading zero. */
  method Chop(iq: seq<int>, z: Double, p0: i32, ghost zf: int) returns (r: seq<int>, q0: int)
    requires Digits(iq) && -0x8000_0000 < p0 && TopHolds(z, zf, p0) && 0 <= zf <= B * B && (p0 >= 0 ==> zf == 0)
    requires zf == 0 ==> exists i :: 0 <= i < |iq| && iq[i] != 0
    ensures Leads(r, zf == B * B) && LittleEnd(r) == Fraction(zf, iq)
    ensures q0 - 24 * (|r| - 1) == p0 - 24 * |iq|
  {
    TopZero(z, zf, p0);
    if FEqual(z, ZERO) {
      NoTop(iq);
      r, q0 := DropZeros(iq, p0);
    } else {
      r, q0 := TopDigits(iq, z, p0, zf);
    }
  }

  // ---- line 243: how many more terms ----

  /** The search for a nonzero digit below jk; not `inside` when it would go on to iq[-1]. */
  method SearchTerms(iq: seq<int>, jk: nat) returns (k: nat, inside: bool)
    requires jk <= |iq|
    ensures inside <==> exists i :: 0 <= i < jk && iq[i] != 0
    ensures inside ==> 1 <= k <= jk && iq[jk - k] != 0 && forall i :: jk - k < i < jk ==> iq[i] == 0
  {
    k := 1;
    while k <= jk && iq[jk - k] == 0
      invariant 1 <= k <= jk + 1
      invariant forall i :: jk - k < i < jk ==> iq[i] == 0
    {
      k := k + 1;
    }
    inside := k <= jk;
  }

  /** The terms asked for are the digits the fraction is short of jk + 1. */
  method MoreTerms(iq: seq<int>, jk: nat, ghost zf: int) returns (k: nat, inside: bool)
    requires Digits(iq) && jk <= |iq| && zf >= 0 && Fraction(zf, iq) < BPow(jk)
    ensures inside <==> Fraction(zf, iq) > 0
    ensures inside ==> 1 <= k <= jk && BPow(jk - k) <= Fraction(zf, iq) < BPow(jk - k + 1)
  {
    SmallFraction(zf, iq, jk);
    SmallFraction(zf, iq, 0);
    FractionPositive(zf, iq);
    k, inside := SearchTerms(iq, jk);
    if inside {
      SmallFraction(zf, iq, jk - k);
      SmallFraction(zf, iq, jk - k + 1);
    }
  }

  lemma FractionPositive(zf: int, iq: seq<int>)
    requires zf >= 0 && Digits(iq)
    ensures Fraction(zf, iq) >= 0
  {
    LittleEndBound(iq);
    MulMono(0, zf, BPow(|iq|));
  }

  // ---- what z holds after a rounding ----

  /** The top part that z does hold: zf itself, or the multiple of 2^(-1074-q0) it was rounded to. */
  lemma HeldTop(z: Double, zf: int, q0: int) returns (zr: int)
    requires TopRounded(z, zf, q0) && 0 <= zf < B * B
    ensures TopHolds(z, zr, q0) && 0 <= zr <= B * B && (q0 >= 0 ==> zr == 0)
    ensures zr == zf <==> TopHolds(z, zf, q0)
  {
    if q0 >= -1074 {
      zr := zf;
      TopExact(z, zf, q0);
    } else {
      var k := -1074 - q0;
      RoundedTop(z, zf, k);
      RoundedBound(zf, k);
      zr := Mag(z) * Pow2(k);
    }
  }

  lemma RoundedBound(zf: nat, k: nat)
    requires zf < B * B
    ensures 0 <= MagAt(RoundCode(zf, k)) * Pow2(k) <= B * B
  {
    var r := RoundCode(zf, k);
    assert Pow2(48) == B * B by { Pow2Values(); }
    if k <= 48 {
      var c := Pow2(48 - k);
      assert c * Pow2(k) == B * B by { Pow2Add(48 - k, k); }
      assert c <= B * B by { Pow2Mono(48 - k, 48); }
      RoundAtMost(zf, k, c);
      assert MagAt(r) == r;
      MulMono(r, c, Pow2(k));
      MulMono(0, r, Pow2(k));
    } else {
      Pow2Mono(48, k);
      RoundUnderflow(zf, k);
    }
  }

  /** Lines 173-267 for one value of jz. The fraction f is what the columns give, g what z and the
      digits hold; they are one number if and only if scalbn did not round the top part. Either
      g has at most jk digits, and the code goes back for `more` terms, or g is exactly the digits
      r, the leading one with weight 2^q1. */
  method Chunks(x: seq<Double>, e0: i32, t: seq<int>, jk: nat, jz: nat, ghost d: seq<int>)
    returns (again: bool, more: nat, inside: bool, n: int, ih: int, r: seq<int>, q1: int, q0: int, m: nat,
             ghost f: int, ghost g: int)
    requires Carries(x, d) && 1 <= |x| <= 3 && Digits(d) && Digits(t) && 2 <= jk <= jz
    requires e0 - 24 > -0x8000_0000 && jz + Max(0, TruncQuot(e0 - 3, 24)) < |t|
    ensures m == jz + Max(0, TruncQuot(e0 - 3, 24)) && q0 == e0 - 24 * (m - jz + 1) && q0 < 3
    ensures NearestMod8(Columns(d, t, m), Unit(jz, q0), n, ih, f)
    ensures Missed(d, t, m, Unit(jz, q0), n, ih, f) == Tail(d, t, m)
    ensures g == f <==> TopFits(d, e0, t, jz)
    ensures again <==> g < BPow(jk)
    ensures again ==> (inside <==> g > 0)
    ensures again && inside ==> 1 <= more <= jk && BPow(jk - more) <= g < BPow(jk - more + 1)
    ensures !again ==>
      && Leads(r, g != f) && LittleEnd(r) == g
      && q1 - 24 * (|r| - 1) == q0 - 24 * jz
  {
    var z, iq, jv, p0;
    ghost var zf;
    n, ih, z, iq, jv, p0, zf := Kernel(x, e0, t, jz, d);
    ghost var zr := HeldTop(z, zf, p0);
    m, q0, f, g := jv + jz, p0, Fraction(zf, iq[..]), Fraction(zr, iq[..]);
    SameFraction(zf, zr, iq[..]);
    TopZero(z, zr, p0);
    SmallFraction(zr, iq[..], jk);
    again := NeedsMore(z, iq[..], jk);
    more, inside, r, q1 := 0, true, [], 0;
    if again {
      more, inside := MoreTerms(iq[..], jk, zr);
    } else {
      r, q1 := Chop(iq[..], z, p0, zr);
    }
  }

  lemma SameFraction(a: int, b: int, iq: seq<int>)
    ensures Fraction(a, iq) == Fraction(b, iq) <==> a == b
  {
    MulCancel(a, b, BPow(|iq|));
  }

  /** A pass whose search leaves the digits: with a table of zeros the fraction is zero. */
  method SearchLeaves() returns (again: bool, more: nat, inside: bool)
    ensures again && !inside
  {
    ghost var d := [1];
    var t := [0, 0, 0, 0, 0];
    var n, ih, r, q1, q0, m;
    ghost var f, g;
    again, more, inside, n, ih, r, q1, q0, m, f, g := Chunks([FromInt(1)], 0, t, 4, 4, d);
    ZeroColumns(d, t, 4);
    ZeroFraction(Unit(4, q0), n, ih, f);
  }

  lemma {:induction false} ZeroColumns(d: seq<int>, t: seq<int>, m: int)
    requires |d| == 1 && forall i :: 0 <= i < |t| ==> t[i] == 0
    ensures Columns(d, t, m) == 0
    decreases m + 1
  {
    if m >= 0 {
      ZeroColumns(d, t, m - 1);
      ConvOf3(d, t, m);
    }
  }

  lemma ZeroFraction(u: nat, n: int, ih: int, f: int)
    requires u > 0 && NearestMod8(0, u, n, ih, f)
    ensures f == 0
  {
    var g := Reduced(n, u, ih, f);
    var k := (0 - g) / (8 * u);
    assert g == -k * (8 * u);
    var h := if ih == 0 then f else -f;
    var a := -8 * k - n;
    assert h == a * u;
    if a > 0 { MulMono(1, a, u); assert false; }
    if a < 0 { MulMono(a, -1, u); assert false; }
  }
}
