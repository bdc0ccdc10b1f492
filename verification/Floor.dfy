/** floor, ceil and modf, and the parity of an integral double in pow. */
module Floor {
  import opened Arith
  import opened Words
  import opened Ieee
  import opened Float
  import opened Integral

  const MINUS_ONE: Double := Double(0xbff0_0000, 0)

  lemma OneMag(w: nat)
    requires w == 1074
    ensures Mag(ONE) == Mag(MINUS_ONE) == Pow2(w)
  {
    assert Code(ONE) == Code(MINUS_ONE) == TWO52 + (w - 52) * TWO52;
    MagShift(TWO52, w - 52);
    Pow2Add(52, w - 52);
    Pow2Values();
  }

  // ---- what floor and ceil mean ----

  ghost predicate Integer(z: Double) { Finite(z) && Mag(z) % One() == 0 }

  /** The greatest integer not above x, with the sign bit of x. */
  ghost predicate IsFloor(x: Double, z: Double)
  {
    Integer(z) && Neg(z) == Neg(x) && Value(z) <= Value(x) < Value(z) + One()
  }

  /** The least integer not below x, with the sign bit of x. */
  ghost predicate IsCeil(x: Double, z: Double)
  {
    Integer(z) && Neg(z) == Neg(x) && Value(z) - One() < Value(x) <= Value(z)
  }

  lemma CeilIsFloor(x: Double, z: Double)
    ensures IsCeil(x, z) <==> IsFloor(Negate(x), Negate(z))
  {
    NegateValue(x);
    NegateValue(z);
  }

  lemma CloseMultiples(a: nat, b: nat, o: nat)
    requires o > 0 && a % o == 0 && b % o == 0 && a < b + o && b < a + o
    ensures a == b
  {
    var p, q := a / o, b / o;
    assert a == p * o && b == q * o;
    if p < q { MulMono(p + 1, q, o); assert false; }
    if q < p { MulMono(q + 1, p, o); assert false; }
  }

  lemma FloorUnique(x: Double, z: Double, z': Double)
    requires IsFloor(x, z) && IsFloor(x, z')
    ensures z == z'
  {
    CloseMultiples(Mag(z), Mag(z'), One());
    MagOrder(Code(z), Code(z'));
    SameBits(z, z');
  }

  lemma CeilUnique(x: Double, z: Double, z': Double)
    requires IsCeil(x, z) && IsCeil(x, z')
    ensures z == z'
  {
    CloseMultiples(Mag(z), Mag(z'), One());
    MagOrder(Code(z), Code(z'));
    SameBits(z, z');
  }

  /** Away from zero for one sign, towards zero for the other. */
  lemma SteppedDouble(x: Double, z: Double, t: nat, up: bool)
    requires 1023 <= Code(x) / TWO52 && 1 <= t == FractionBits(Code(x))
    requires Neg(z) == Neg(x) && Code(z) == Stepped(Code(x), Pow2(t), up)
    ensures up == Neg(x) ==> IsFloor(x, z)
    ensures up != Neg(x) ==> IsCeil(x, z)
  {
    SteppedMag(Code(x), t, up, 1074);
    SteppedFinite(Code(x), t, up);
  }

  lemma AlreadyInteger(x: Double)
    requires Finite(x) && Code(x) / TWO52 >= 1075
    ensures IsFloor(x, x) && IsCeil(x, x)
  {
    Large(Code(x), 1074);
  }

  lemma BelowOne(x: Double)
    requires Code(x) / TWO52 < 1023
    ensures Mag(x) < One()
    ensures Mag(x) == 0 <==> Code(x) == 0
  {
    Small(Code(x), 1074);
    MagOrder(0, Code(x));
  }

  /** Between two neighbouring integers, zero and plus or minus one. */
  lemma NextToZero(x: Double, z: Double)
    requires Mag(x) < One() && Finite(z) && Neg(z) == Neg(x)
    ensures Mag(z) == (if Neg(x) && Mag(x) != 0 then One() else 0) ==> IsFloor(x, z)
    ensures Mag(z) == (if !Neg(x) && Mag(x) != 0 then One() else 0) ==> IsCeil(x, z)
  {
    DivModUnique(One(), One(), 1, 0);
  }

  lemma ZeroMag(z: Double)
    requires Code(z) == 0
    ensures Mag(z) == 0
  {
  }

  // ---- floor ----

  method FloorSmall(x: Double) returns (z: Double)
    requires Code(x) / TWO52 < 1023
    ensures IsFloor(x, z)
  {
    HighWord(x);
    BelowOne(x);
    z := x;
    if HugePlusPositive(x) {
      if ToInt(x.hi) >= 0 {
        z := ZERO;
      } else if !WordsZero(x.hi, x.lo) {
        z := MINUS_ONE;
      }
    }
    if Code(z) == 0 { ZeroMag(z); } else { OneMag(1074); }
    NextToZero(x, z);
  }

  method Floor(x: Double) returns (z: Double)
    ensures IsNaN(x) ==> z == NAN
    ensures IsInf(x) ==> z == x
    ensures Finite(x) ==> IsFloor(x, z)
  {
    CodeFields(x);
    HighWord(x);
    var j0 := Exponent(x.hi);
    if j0 < 20 {
      if j0 < 0 {
        z := FloorSmall(x);
      } else {
        z := StepHigh(x, j0, ToInt(x.hi) < 0);
        SteppedDouble(x, z, 52 - j0, Neg(x));
      }
    } else if j0 > 51 {
      if j0 == 0x400 { return FAdd(x, x); }
      AlreadyInteger(x);
      z := x;
    } else {
      z := StepLow(x, j0, ToInt(x.hi) < 0);
      SteppedDouble(x, z, 52 - j0, Neg(x));
    }
  }

  // ---- ceil ----

  method CeilSmall(x: Double) returns (z: Double)
    requires Code(x) / TWO52 < 1023
    ensures IsCeil(x, z)
  {
    HighWord(x);
    BelowOne(x);
    z := x;
    if HugePlusPositive(x) {
      if ToInt(x.hi) < 0 {
        z := Double(0x8000_0000, 0);
      } else if !BothZero(x.hi, x.lo) {
        z := ONE;
      }
    }
    if Code(z) == 0 { ZeroMag(z); } else { OneMag(1074); }
    NextToZero(x, z);
  }

  method Ceil(x: Double) returns (z: Double)
    ensures IsNaN(x) ==> z == NAN
    ensures IsInf(x) ==> z == x
    ensures Finite(x) ==> IsCeil(x, z)
  {
    CodeFields(x);
    HighWord(x);
    var j0 := Exponent(x.hi);
    if j0 < 20 {
      if j0 < 0 {
        z := CeilSmall(x);
      } else {
        z := StepHigh(x, j0, ToInt(x.hi) > 0);
        SteppedDouble(x, z, 52 - j0, !Neg(x));
      }
    } else if j0 > 51 {
      if j0 == 0x400 { return FAdd(x, x); }
      AlreadyInteger(x);
      z := x;
    } else {
      z := StepLow(x, j0, ToInt(x.hi) > 0);
      SteppedDouble(x, z, 52 - j0, !Neg(x));
    }
  }

  // ---- modf ----

  /** The signed integral part and the signed fraction that remains. */
  ghost predicate IsModf(x: Double, f: Double, i: Double)
  {
    && Integer(i) && Finite(f)
    && Neg(i) == Neg(f) == Neg(x)
    && Mag(f) < One()
    && Value(x) == Value(i) + Value(f)
  }

  lemma ModfUnique(x: Double, f: Double, i: Double, f': Double, i': Double)
    requires IsModf(x, f, i) && IsModf(x, f', i')
    ensures f == f' && i == i'
  {
    CloseMultiples(Mag(i), Mag(i'), One());
    MagOrder(Code(i), Code(i'));
    MagOrder(Code(f), Code(f'));
    SameBits(i, i');
    SameBits(f, f');
  }

  /** The integral part is the floor of a positive and the ceiling of a negative number. */
  lemma ModfAgrees(x: Double, f: Double, i: Double)
    requires IsModf(x, f, i)
    ensures if Neg(x) then IsCeil(x, i) else IsFloor(x, i)
  {
  }

  /** ceil(x) is -floor(-x), bit for bit. */
  method CeilAgainstFloor(x: Double) returns (c: Double, f: Double)
    ensures !IsNaN(x) ==> c == Negate(f)
  {
    c := Ceil(x);
    f := Floor(Negate(x));
    if Finite(x) {
      CeilIsFloor(x, c);
      FloorUnique(Negate(x), Negate(c), f);
      SameBits(c, Negate(f));
    } else if IsInf(x) {
      SameBits(c, Negate(f));
    }
  }

  /** `x - *iptr` is exact. */
  lemma FractionExact(x: Double, i: Double, t: nat, w: nat)
    requires 1023 <= Code(x) / TWO52 && 1 <= t == FractionBits(Code(x)) && w == 1074
    requires Code(x) % Pow2(t) != 0 && Neg(i) == Neg(x) && Code(i) == Cleared(Code(x), Pow2(t))
    ensures IsModf(x, FSub(x, i), i)
  {
    var c, r := Code(x), Code(x) % Pow2(t);
    assert i.hi >= 0;
    SteppedDouble(x, i, t, false);
    assert Mag(x) - Mag(i) == r * Pow2(w - t) by { Truncated(c, t, w); Parts(c, t, w); }
    assert 0 < r < Pow2(t) <= TWO52 by { Pow2Mono(t, 52); Pow2Values(); }
    var d := CodeOf(r, w - t);
    MagOrder(d, c);
    SubExact(x, i, d);
    Vanishes(r, Pow2(w - t));
  }

  /** `__HI(x) &= 0x80000000; __LO(x) = 0` */
  function SignedZero(x: Double): (z: Double)
    ensures Code(z) == 0 && Neg(z) == Neg(x)
  {
    Double(SignOf(x.hi), 0)
  }

  lemma NoFraction(x: Double, i: Double)
    requires Integer(x) && i == x
    ensures IsModf(x, SignedZero(x), i)
  {
  }

  method ModfHigh(x: Double, j0: nat) returns (f: Double, i: Double)
    requires j0 < 20 && Code(x) / TWO52 == j0 + 1023
    ensures IsModf(x, f, i)
  {
    ghost var u := 20 - j0;
    assert Code(x) % Pow2(52 - j0) == (x.hi % Pow2(u)) * TWO32 + x.lo by { LowBitsHigh(x, u); }
    var m := HighFraction(j0);
    if BothZero(Under(x.hi, m, u), x.lo) {
      SteppedDouble(x, x, 52 - j0, false);
      NoFraction(x, x);
      return SignedZero(x), x;
    }
    i := Double(Over(x.hi, m, u), 0);
    StepHighWords(x, u, false, x.hi, i.hi);
    FractionExact(x, i, 52 - j0, 1074);
    f := FSub(x, i);
  }

  method ModfLow(x: Double, j0: nat) returns (f: Double, i: Double)
    requires 20 <= j0 <= 51 && Code(x) / TWO52 == j0 + 1023
    ensures IsModf(x, f, i)
  {
    ghost var v := 52 - j0;
    assert Code(x) % Pow2(v) == x.lo % Pow2(v) by { LowBitsLow(x, v); }
    var m := LowFraction(j0);
    if Under(x.lo, m, v) == 0 {
      SteppedDouble(x, x, v, false);
      NoFraction(x, x);
      return SignedZero(x), x;
    }
    i := Double(x.hi, Over(x.lo, m, v));
    StepLowWords(x, v, false, x.hi, x.lo, i.lo);
    FractionExact(x, i, v, 1074);
    f := FSub(x, i);
  }

  lemma TimesOne(x: Double, w: nat)
    requires Finite(x) && w == 1074
    ensures FMul(x, ONE) == x
  {
    OneMag(w);
    var n := Mag(x) * Mag(ONE);
    RoundExact(n, w, Code(x));
    MulRounds(x, ONE, n, Code(x));
    SameBits(x, Make(Neg(x), Code(x)));
  }

  method ModfLarge(x: Double) returns (f: Double, i: Double)
    requires Code(x) / TWO52 >= 1075
    ensures IsNaN(x) ==> i == NAN
    ensures IsInf(x) ==> i == x
    ensures !Finite(x) ==> f == SignedZero(x)
    ensures Finite(x) ==> IsModf(x, f, i)
  {
    i, f := FMul(x, ONE), SignedZero(x);
    if Finite(x) {
      TimesOne(x, 1074);
      AlreadyInteger(x);
      NoFraction(x, i);
    } else if IsInf(x) {
      SameBits(x, Make(Neg(x), INF));
    }
  }

  method Modf(x: Double) returns (f: Double, i: Double)
    ensures IsNaN(x) ==> i == NAN
    ensures IsInf(x) ==> i == x
    ensures !Finite(x) ==> f == SignedZero(x)
    ensures Finite(x) ==> IsModf(x, f, i)
  {
    CodeFields(x);
    var j0 := Exponent(x.hi);
    if j0 < 20 {
      if j0 < 0 {
        BelowOne(x);
        f, i := x, SignedZero(x);
        ZeroMag(i);
      } else {
        f, i := ModfHigh(x, j0);
      }
    } else if j0 > 51 {
      f, i := ModfLarge(x);
    } else {
      f, i := ModfLow(x, j0);
    }
  }

  /** The integral part of modf is floor(x) of a positive and ceil(x) of a negative x, bit for bit. */
  method ModfAgainstFloor(x: Double) returns (i: Double, z: Double)
    ensures !IsNaN(x) ==> i == z
    ensures IsNaN(x) ==> IsNaN(i) && IsNaN(z)
  {
    var f;
    f, i := Modf(x);
    if Neg(x) { z := Ceil(x); } else { z := Floor(x); }
    if Finite(x) {
      ModfAgrees(x, f, i);
      if Neg(x) { CeilUnique(x, i, z); } else { FloorUnique(x, i, z); }
    }
  }

  // ---- the integer test of pow ----

  /** 0: not an integer, 1: an odd integer, 2: an even integer. */
  ghost function Kind(m: nat): (k: nat)
  {
    if m % One() != 0 then 0 else if (m / One()) % 2 == 1 then 1 else 2
  }

  /** `j = w >> n; if ((j << n) == w) yisint = 2 - (j & 1)` */
  method ShiftTest(w: u32, n: nat) returns (k: nat)
    requires n < 32
    ensures k == if w % Pow2(n) != 0 then 0 else 2 - (w / Pow2(n)) % 2
  {
    ShrIsDiv(w, n);
    var j := Shr(w, n);
    ghost var p := Pow2(n);
    assert w == j * p + w % p;
    ShlExact(j, n, j * p);
    MaskOdd(j);
    if Shl(j, n) == w { k := 2 - And(j, 1); } else { k := 0; }
  }

  lemma KindOfCode(c: nat, t: nat, w: nat)
    requires 1023 <= c / TWO52 && t == FractionBits(c) && w == 1074
    ensures Kind(MagAt(c)) == if c % Pow2(t) != 0 then 0 else 2 - (c / Pow2(t)) % 2
  {
    Parts(c, t, w);
    Vanishes(c % Pow2(t), Pow2(w - t));
    Parity(c, t, w);
  }

  lemma KindLow(y: Double, t: nat)
    requires t < 32
    ensures Code(y) % Pow2(t) == y.lo % Pow2(t)
    ensures (Code(y) / Pow2(t)) % 2 == (y.lo / Pow2(t)) % 2
  {
    var h, p, q := y.hi % SIGN, Pow2(t), Pow2(31 - t);
    assert p * (2 * q) == TWO32 by { Pow2Add(t, 32 - t); Pow2Values(); }
    FactorOut(h, p, q, TWO32);
    LowParity(Code(y), y.lo, h * q, p);
  }

  lemma FactorOut(h: int, p: int, q: int, s: int)
    requires p * (2 * q) == s
    ensures h * s == (2 * (h * q)) * p
  {
    Reassoc(h, 2 * q, p);
    Doubled(h, q);
  }

  lemma LowParity(c: int, l: int, r: int, p: nat)
    requires p > 0 && c == l + (2 * r) * p
    ensures c % p == l % p && (c / p) % 2 == (l / p) % 2
  {
    ModAddMul(l, 2 * r, p);
    SameParity(l / p, c / p, 2 * r);
  }

  lemma KindHigh(y: Double, u: nat)
    requires u <= 20
    ensures Code(y) % Pow2(32 + u) == 0 <==> (y.hi % SIGN) % Pow2(u) == 0 && y.lo == 0
    ensures y.lo == 0 ==> Code(y) / Pow2(32 + u) == (y.hi % SIGN) / Pow2(u)
  {
    LowBitsHigh(y, u);
    SignMultiple(y.hi, u);
    Pow2Add(u, 32);
    Pow2Values();
    if y.lo == 0 { MulDivMod(y.hi % SIGN, Pow2(u), TWO32); }
  }

  lemma KindSmall(y: Double)
    requires 0 < Code(y) && Code(y) / TWO52 < 1023
    ensures Kind(Mag(y)) == 0
  {
    BelowOne(y);
    DivModUnique(Mag(y), One(), 0, Mag(y));
  }

  method KindFromLow(y: Double, e: nat) returns (k: nat)
    requires 20 < e <= 52 && Code(y) / TWO52 == e + 1023
    ensures k == Kind(Mag(y))
  {
    k := ShiftTest(y.lo, 52 - e);
    KindLow(y, 52 - e);
    KindOfCode(Code(y), 52 - e, 1074);
  }

  method KindFromHigh(y: Double, iy: u32, e: nat) returns (k: nat)
    requires e <= 20 && Code(y) / TWO52 == e + 1023 && iy == y.hi % SIGN
    ensures k == Kind(Mag(y))
  {
    k := 0;
    if y.lo == 0 { k := ShiftTest(iy, 20 - e); }
    KindHigh(y, 20 - e);
    KindOfCode(Code(y), 52 - e, 1074);
  }

  lemma FieldRange(y: Double, iy: u32)
    requires iy == y.hi % SIGN
    ensures Code(y) / TWO52 == iy / 0x10_0000 == (iy % SIGN) / 0x10_0000
    ensures iy >= 0x4340_0000 <==> Code(y) / TWO52 >= 1076
    ensures iy >= 0x3ff0_0000 <==> Code(y) / TWO52 >= 1023
  {
    CodeFields(y);
  }

  lemma KindLarge(y: Double)
    requires Code(y) / TWO52 >= 1076
    ensures Kind(Mag(y)) == 2
  {
    Large(Code(y), 1074);
  }

  /** `yisint`, for the y that reach it: neither zero nor a NaN. */
  method IntegerKind(hx: u32, y: Double) returns (k: nat)
    requires !IsNaN(y) && !IsZero(y)
    ensures hx < SIGN ==> k == 0
    ensures hx >= SIGN && IsInf(y) ==> k == 2
    ensures hx >= SIGN && Finite(y) ==> k == Kind(Mag(y))
  {
    k := 0;
    if hx >= SIGN {
      var iy := AbsHigh(y.hi);
      FieldRange(y, iy);
      if iy >= 0x4340_0000 {
        KindLarge(y);
        k := 2;
      } else if iy >= 0x3ff0_0000 {
        var e: int := ExponentField(iy) - 0x3ff;
        if e > 20 { k := KindFromLow(y, e); } else { k := KindFromHigh(y, iy, e); }
      } else {
        KindSmall(y);
      }
    }
  }
}
