/** The floating operations of bench/tools/fdlibm/k_rem_pio2.c, lines 186-267, on doubles that
    hold integers, or integers times 2^q0. None of them rounds, unless q0 is below -1074. */
module KernelSteps {
  import opened Arith
  import opened Words
  import opened Ieee
  import opened Float
  import opened Exact
  import Scalbn
  import Floor

  const TWO24: Double := Double(0x4170_0000, 0)
  const TWON24: Double := Double(0x3e70_0000, 0)
  const EIGHTH: Double := Double(0x3fc0_0000, 0)
  const EIGHT: Double := Double(0x4020_0000, 0)

  /** Line 188: `fw += x[j] * f[jx+i-j]` */
  method AddProduct(fw: Double, x: Double, f: Double, ghost c: int, ghost a: int, ghost b: int)
    returns (r: Double)
    requires Holds(fw, c, 1074) && Holds(x, a, 1074) && Holds(f, b, 1074)
    requires 0 <= a * b && c + a * b < 2 * TWO52
    ensures Holds(r, c + a * b, 1074)
  {
    var p := FMul(x, f);
    ProductHolds(x, a, 1074, f, b, 1074, a * b, 1074);
    SumHolds(fw, c, p, a * b, 1074);
    r := FAdd(fw, p);
  }

  // ---- lines 195-197 ----

  /** An integer times a power of two. */
  lemma TimesPower(c: Double, a: nat, z: Double, g: int)
    requires Holds(c, 1, a) && Holds(z, g, 1074)
    ensures Holds(FMul(c, z), g, a)
  {
    ProductHolds(c, 1, a, z, g, 1074, g, a);
  }

  method Times24(z: Double, ghost g: int) returns (p: Double)
    requires Holds(z, g, 1074) && g * 0x100_0000 < 2 * TWO52
    ensures Holds(p, g * 0x100_0000, 1074)
  {
    PowerHolds(TWO24, 1046);
    TimesPower(TWO24, 1098, z, g);
    p := FMul(TWO24, z);
    assert Pow2(24) == 0x100_0000 by { Pow2Values(); }
    Rescale(p, g, 1098, 24, g * 0x100_0000);
  }

  lemma Over24(z: Double, v: int, y: Double)
    requires Holds(z, v, 1074) && v < 0x4_0000_0000_0000 && y == FMul(TWON24, z)
    ensures Holds(y, v, 1050) && FitsInt(y) && Truncate(y) == v / 0x100_0000
  {
    PowerHolds(TWON24, 998);
    ProductHolds(TWON24, 1, 1050, z, v, 1074, v, 1050);
    Pow2Values();
    TruncateIs(y, v, 1050, 24);
  }

  /** `fw = (double)((int)(twon24*z))` */
  method Quotient24(z: Double, ghost v: int) returns (fw: Double, ghost g: int)
    requires Holds(z, v, 1074) && v < 0x4_0000_0000_0000
    ensures g == v / 0x100_0000 && 0 <= g && Holds(fw, v / 0x100_0000, 1074)
  {
    var y := FMul(TWON24, z);
    Over24(z, v, y);
    g := v / 0x100_0000;
    fw := FromInt(Truncate(y));
  }

  /** `(int) z` of a number of one digit, or 2^24. */
  method OneDigit(z: Double, ghost v: int) returns (d: i32)
    requires Holds(z, v, 1074) && v <= 0x100_0000
    ensures d == v
  {
    TruncateIs(z, v, 1074, 0);
    d := Truncate(z);
  }

  /** `(int)(z-two24*fw)` */
  method LowDigit(z: Double, fw: Double, ghost v: int) returns (d: i32)
    requires Holds(z, v, 1074) && v < 0x4_0000_0000_0000 && Holds(fw, v / 0x100_0000, 1074)
    ensures d == v - 0x100_0000 * (v / 0x100_0000)
  {
    ghost var g := v / 0x100_0000;
    var p := Times24(fw, g);
    DifferenceHolds(z, v, p, g * 0x100_0000, 1074);
    d := OneDigit(FSub(z, p), v - g * 0x100_0000);
  }

  /** One turn of the distillation: a digit comes off and the carry joins the next column. */
  method DistillDigit(z: Double, qj: Double, ghost v: int, ghost c: int) returns (d: i32, y: Double)
    requires Holds(z, v, 1074) && Holds(qj, c, 1074) && v < 0x4_0000_0000_0000 && c < 0x3_0000_0000_0000
    ensures d == v - 0x100_0000 * (v / 0x100_0000)
    ensures Holds(y, c + v / 0x100_0000, 1074)
  {
    var fw, g := Quotient24(z, v);
    d := LowDigit(z, fw, v);
    SumHolds(qj, c, fw, g, 1074);
    y := FAdd(qj, fw);
  }

  // ---- lines 261-265 ----

  /** `z >= two24` */
  lemma AtLeast24(z: Double, v: int)
    requires Holds(z, v, 1074)
    ensures FAtMost(TWO24, z) <==> v >= 0x100_0000
  {
    assert Mag(TWO24) == 0x100_0000 * Pow2(1074) by {
      PowerHolds(TWO24, 1046);
      Pow2Add(24, 1074);
      Pow2Values();
    }
    MulCancel(0x100_0000, v, Pow2(1074));
  }

  /** A top part of two digits is taken apart as in the distillation. */
  method TwoDigits(z: Double, ghost v: int) returns (lo: i32, hi: i32)
    requires Holds(z, v, 1074) && v <= 0x1_0000_0000_0000
    ensures v == hi * 0x100_0000 + lo && 0 <= lo < 0x100_0000 && 0 <= hi <= 0x100_0000
    ensures v >= 0x100_0000 ==> hi > 0
    ensures v < 0x1_0000_0000_0000 ==> hi < 0x100_0000
  {
    var fw, g := Quotient24(z, v);
    lo := LowDigit(z, fw, v);
    hi := OneDigit(fw, g);
  }

  // ---- lines 201-204 ----

  /** scalbn does not round a number that stays in range. */
  lemma ScalbnExact(z: Double, s: int, u: nat, n: int, y: Double)
    requires Holds(z, s, u) && 0 <= u + n <= 1100 && y == Make(Neg(z), Scalbn.RoundAt(Mag(z), n))
    ensures Holds(y, s, u + n)
  {
    var c := CodeOf(s, u + n);
    BelowTop(s, c, u + n);
    if n >= 0 {
      Pow2Add(u, n);
      Reassoc(s, Pow2(u), Pow2(n));
      RoundExact(Mag(z) * Pow2(n), 0, c);
    } else {
      Pow2Add(u + n, -n);
      Reassoc(s, Pow2(u + n), Pow2(-n));
      RoundExact(Mag(z), -n, c);
    }
  }

  /** Line 201: `z = scalbn(z, q0)`. Below -1074 the result is rounded once. */
  method ScaleTop(z: Double, q0: i32, ghost v: int) returns (y: Double)
    requires Holds(z, v, 1074) && v < 0x4_0000_0000_0000 && q0 < 3
    ensures -1074 <= q0 <= 0 ==> Holds(y, v, 1074 + q0)
    ensures q0 > 0 ==> Holds(y, v * Pow2(q0), 1074)
    ensures q0 < -1074 ==> y == Make(false, RoundCode(v, -1074 - q0))
    ensures q0 < -1071 ==> !Neg(y) && Mag(y) < TWO52
  {
    y := Scalbn.Scalbn(z, q0);
    if q0 < -1074 {
      RoundScale(v, -1074 - q0, 1074);
      RoundedSmall(v, -1074 - q0);
    } else {
      ScalbnExact(z, v, 1074, q0, y);
      if q0 > 0 { ScaledUp(y, v, q0); }
      if q0 < -1071 { FewUnits(v, 1074 + q0); }
    }
  }

  lemma ScaledUp(y: Double, v: int, q0: int)
    requires 0 < q0 < 3 && 0 <= v < 0x4_0000_0000_0000 && Holds(y, v, 1074 + q0)
    ensures Holds(y, v * Pow2(q0), 1074)
  {
    assert Pow2(q0) <= 4 by { Pow2Mono(q0, 2); assert Pow2(2) == 4; }
    MulMono(Pow2(q0), 4, v);
    MulMono(0, v, Pow2(q0));
    Rescale(y, v, 1074 + q0, q0, v * Pow2(q0));
  }

  lemma RoundedSmall(v: nat, k: nat)
    requires v < 0x4_0000_0000_0000
    ensures MagAt(RoundCode(v, k)) < TWO52
  {
    MulMono(1, Pow2(k), v);
    RoundAtMost(v, k, v);
  }

  lemma FewUnits(v: int, u: nat)
    requires 0 <= v < 0x4_0000_0000_0000 && u <= 2
    ensures v * Pow2(u) < TWO52
  {
    assert Pow2(u) <= 4 by { Pow2Mono(u, 2); assert Pow2(2) == 4; }
    MulMono(Pow2(u), 4, v);
  }

  lemma FloorHolds(y: Double, v: int, m: nat, e: Double)
    requires m <= 1074 && Holds(y, v, 1074 - m) && Floor.IsFloor(y, e)
    ensures Holds(e, v / Pow2(m), 1074)
  {
    var o, g := Pow2(1074), v / Pow2(m);
    assert Mag(y) / o == g by { QuotientIs(y, v, 1074 - m, m); }
    assert 0 <= g <= v by { DivShrinks(v, m); }
    FloorQuotient(Mag(y), Mag(e), o);
  }

  lemma FloorQuotient(a: nat, e: nat, o: nat)
    requires o > 0 && e % o == 0 && e <= a < e + o
    ensures e == (a / o) * o
  {
    var k := e / o;
    assert e == k * o;
    DivModUnique(a, o, k, a - e);
  }

  /** z is a positive number below one. */
  ghost predicate Fractional(z: Double) { !Neg(z) && Mag(z) < Pow2(1074) }

  lemma FractionalFinite(z: Double, w: nat)
    requires Fractional(z) && w == 1074
    ensures Finite(z)
  {
    var e := w - 52;
    MagShift(TWO52, e);
    Pow2Add(52, e);
    Pow2Values();
    MagOrder(Code(z), TWO52 + e * TWO52);
  }

  /** `z * 0.125` of a number below one may round, but stays below one. */
  lemma EighthFractional(z: Double, y: Double, w: nat)
    requires Fractional(z) && w == 1074 && y == FMul(z, EIGHTH)
    ensures Fractional(y)
  {
    FractionalFinite(z, w);
    assert Mag(EIGHTH) == Pow2(w - 3) by { PowerHolds(EIGHTH, w - 55); }
    var n, c := Mag(z) * Mag(EIGHTH), Code(EIGHTH);
    assert 0 <= n <= MagAt(c) * Pow2(w) by {
      MulMono(Mag(z), Pow2(w), Mag(EIGHTH));
      MulMono(0, Mag(z), Mag(EIGHTH));
    }
    var r := RoundCode(n, w);
    assert MagAt(r) <= MagAt(c) by { RoundAtMost(n, w, c); MagOrder(c, r); }
    MulRounds(z, EIGHTH, n, r);
    Pow2Mono(w - 3, w);
  }

  lemma FloorFractional(y: Double, e: Double)
    requires Fractional(y) && Floor.IsFloor(y, e)
    ensures e == ZERO
  {
    DivModUnique(Mag(e), Pow2(1074), 0, Mag(e));
    MagOrder(Code(e), 0);
    SameBits(e, ZERO);
  }

  lemma EightZeros()
    ensures FMul(EIGHT, ZERO) == ZERO
  {
    RoundExact(0, 1074, 0);
    MulRounds(EIGHT, ZERO, 0, 0);
  }

  lemma LessZero(z: Double)
    requires Finite(z) && !Neg(z)
    ensures FSub(z, ZERO) == z
  {
    SubExact(z, ZERO, Code(z));
    SameBits(FSub(z, ZERO), z);
  }

  /** Line 202: `z -= 8.0 * floor(z * 0.125)`, z counting units of 2^-k. A number below one
      is left as it is. */
  method TrimEights(z: Double, ghost v: int, ghost k: nat) returns (y: Double)
    requires Fractional(z) || (k <= 1071 && Holds(z, v, 1074 - k))
    ensures k <= 1071 && Holds(z, v, 1074 - k) ==> Holds(y, v % (8 * Pow2(k)), 1074 - k)
    ensures Fractional(z) ==> y == z
  {
    var w := FMul(z, EIGHTH);
    var e := Floor.Floor(w);
    var p := FMul(EIGHT, e);
    y := FSub(z, p);
    if k <= 1071 && Holds(z, v, 1074 - k) { EightsGo(z, v, k, w, e, p); }
    if Fractional(z) {
      EighthFractional(z, w, 1074);
      FractionalFinite(w, 1074);
      FloorFractional(w, e);
      EightZeros();
      FractionalFinite(z, 1074);
      LessZero(z);
    }
  }

  lemma EightsGo(z: Double, v: int, k: nat, w: Double, e: Double, p: Double)
    requires k <= 1071 && Holds(z, v, 1074 - k) && w == FMul(z, EIGHTH) && p == FMul(EIGHT, e)
    requires Finite(w) ==> Floor.IsFloor(w, e)
    ensures Holds(FSub(z, p), v % (8 * Pow2(k)), 1074 - k)
  {
    EighthHolds(z, v, k);
    FloorHolds(w, v, k + 3, e);
    EightHolds(e, v / Pow2(k + 3));
    LessEights(z, v, k, p);
  }

  lemma EighthHolds(z: Double, v: int, k: nat)
    requires k <= 1071 && Holds(z, v, 1074 - k)
    ensures Holds(FMul(z, EIGHTH), v, 1071 - k)
  {
    PowerHolds(EIGHTH, 1019);
    ProductHolds(z, v, 1074 - k, EIGHTH, 1, 1071, v, 1071 - k);
  }

  lemma EightHolds(e: Double, g: int)
    requires Holds(e, g, 1074)
    ensures Holds(FMul(EIGHT, e), g, 1077)
  {
    PowerHolds(EIGHT, 1025);
    TimesPower(EIGHT, 1077, e, g);
  }

  lemma LessEights(z: Double, v: int, k: nat, p: Double)
    requires k <= 1071 && Holds(z, v, 1074 - k) && Holds(p, v / Pow2(k + 3), 1077)
    ensures Holds(FSub(z, p), v % (8 * Pow2(k)), 1074 - k)
  {
    var m := Pow2(k + 3);
    assert m == 8 * Pow2(k) by { Pow2Add(3, k); assert Pow2(3) == 8; }
    DivMod(v, m);
    LessMultiple(z, v, 1074 - k, p, v / m, k + 3, v % m);
  }

  /** Subtracting g times 2^k leaves the rest f. */
  lemma LessMultiple(z: Double, v: int, u: nat, p: Double, g: int, k: nat, f: int)
    requires Holds(z, v, u) && u + k <= 1100 && Holds(p, g, u + k) && v == g * Pow2(k) + f && f >= 0
    ensures Holds(FSub(z, p), f, u)
  {
    var m := g * Pow2(k);
    Rescale(p, g, u + k, k, m);
    DifferenceHolds(z, v, p, m, u);
  }

  lemma DivMod(v: int, m: nat)
    requires m > 0
    ensures v == (v / m) * m + v % m && 0 <= v % m
  {
  }

  /** Lines 203-204: `n = (int) z; z -= (double) n`. The conversion is in range. */
  method TakeWhole(z: Double, ghost r: int, ghost k: nat) returns (n: i32, y: Double)
    requires Fractional(z) || (k <= 1071 && Holds(z, r, 1074 - k) && r < 8 * Pow2(k))
    ensures k <= 1071 && Holds(z, r, 1074 - k) && r < 8 * Pow2(k) ==>
              n == r / Pow2(k) && Holds(y, r % Pow2(k), 1074 - k)
    ensures Fractional(z) ==> n == 0 && y == z
  {
    if Fractional(z) { FractionalParts(z); }
    if k <= 1071 && Holds(z, r, 1074 - k) && r < 8 * Pow2(k) { WholeParts(z, r, k); }
    n := Truncate(z);
    y := FSub(z, FromInt(n));
  }

  lemma WholeParts(z: Double, r: int, k: nat)
    requires k <= 1071 && Holds(z, r, 1074 - k) && r < 8 * Pow2(k)
    ensures FitsInt(z) && Truncate(z) == r / Pow2(k)
    ensures Holds(FSub(z, FromInt(Truncate(z))), r % Pow2(k), 1074 - k)
  {
    MulMono(8, SIGN, Pow2(k));
    TruncateIs(z, r, 1074 - k, k);
    DivMod(r, Pow2(k));
    LessMultiple(z, r, 1074 - k, FromInt(Truncate(z)), r / Pow2(k), k, r % Pow2(k));
  }

  lemma FractionalParts(z: Double)
    requires Fractional(z)
    ensures FitsInt(z) && Truncate(z) == 0 && FSub(z, FromInt(0)) == z
  {
    DivModUnique(Mag(z), Pow2(1074), 0, Mag(z));
    FractionalFinite(z, 1074);
    ZeroHolds(1074);
    MagOrder(Code(FromInt(0)), 0);
    SameBits(FromInt(0), ZERO);
    LessZero(z);
  }

  // ---- lines 212 and 232-235 ----

  /** `z >= 0.5` */
  lemma AtLeastHalf(z: Double, f: int, k: nat)
    requires 1 <= k <= 1074 && Holds(z, f, 1074 - k)
    ensures FAtMost(HALF, z) <==> 2 * f >= Pow2(k)
  {
    var h, u := Pow2(k - 1), Pow2(1074 - k);
    assert Mag(HALF) == h * u by {
      PowerHolds(HALF, 1021);
      Pow2Add(k - 1, 1074 - k);
    }
    MulCancel(h, f, u);
  }

  lemma FarBelowHalf(z: Double)
    requires !Neg(z) && Mag(z) < TWO52
    ensures Fractional(z) && !FAtMost(HALF, z)
  {
    PowerHolds(HALF, 1021);
    Pow2Values();
    Pow2Mono(52, 1073);
    Pow2Mono(52, 1074);
  }

  /** `z = one - z; if (carry != 0) z -= scalbn(one, q0)` */
  method OneMinus(z: Double, q0: int, carry: int, ghost f: int) returns (y: Double)
    requires -1071 <= q0 < 0 && Holds(z, f, 1074 + q0) && f < Pow2(-q0) < 2 * TWO52
    ensures Holds(y, Pow2(-q0) - f - (if carry != 0 then 1 else 0), 1074 + q0)
  {
    OneHolds(q0);
    ghost var p := Pow2(-q0);
    DifferenceHolds(ONE, p, z, f, 1074 + q0);
    y := FSub(ONE, z);
    if carry != 0 { y := LessUnit(y, q0, p - f); }
  }

  lemma OneHolds(q0: int)
    requires -1071 <= q0 < 0 && Pow2(-q0) < 2 * TWO52
    ensures Holds(ONE, 1, 1074) && Holds(ONE, Pow2(-q0), 1074 + q0)
  {
    PowerHolds(ONE, 1022);
    Rescale(ONE, 1, 1074, -q0, Pow2(-q0));
  }

  method LessUnit(z: Double, q0: int, ghost f: int) returns (y: Double)
    requires -1071 <= q0 < 0 && f >= 1 && Holds(z, f, 1074 + q0)
    ensures Holds(y, f - 1, 1074 + q0)
  {
    var w := UnitAt(q0);
    DifferenceHolds(z, f, w, 1, 1074 + q0);
    y := FSub(z, w);
  }

  /** `scalbn(one, q0)` */
  method UnitAt(q0: int) returns (w: Double)
    requires -1071 <= q0 < 0
    ensures Holds(w, 1, 1074 + q0)
  {
    PowerHolds(ONE, 1022);
    w := Scalbn.Scalbn(ONE, q0);
    ScalbnExact(ONE, 1, 1074, q0, w);
  }
}
