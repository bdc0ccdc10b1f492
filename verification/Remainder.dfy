/** bench/tools/fdlibm/e_remainder.c: the IEEE remainder, built on fmod. */
module Remainder {
  import opened Arith
  import opened Words
  import opened Ieee
  import opened Float
  import Fmod

  /** r = a - k p for the integer k nearest a / p, the even one if two are as near:
      section 5.1 of IEEE 754-1985. */
  ghost predicate IsRemainder(a: int, p: int, r: int, k: int)
  {
    && r == a - k * p
    && 2 * Abs(r) <= Abs(p)
    && (2 * Abs(r) == Abs(p) ==> k % 2 == 0)
  }

  /** That determines k, and so r. */
  lemma RemainderUnique(a: int, p: int, r: int, k: int, s: int, j: int)
    requires p != 0 && IsRemainder(a, p, r, k) && IsRemainder(a, p, s, j)
    ensures k == j && r == s
  {
    assert r - s == (j - k) * p;
    AbsMul(j - k, p);
    if j != k { FarApart(r, s, Abs(p), Abs(j - k)); }
  }

  lemma FarApart(r: int, s: int, p: nat, d: nat)
    requires p > 0 && d > 0 && 2 * Abs(r) <= p && 2 * Abs(s) <= p && Abs(r - s) == d * p
    ensures d == 1 && 2 * Abs(r) == p && 2 * Abs(s) == p
  {
    MulMono(1, d, p);
    if d >= 2 { MulMono(2, d, p); }
  }

  lemma AbsMul(a: int, b: int)
    ensures Abs(a * b) == Abs(a) * Abs(b)
  {
    if a >= 0 && b >= 0 {
    } else if a >= 0 {
      assert a * b == -(a * Abs(b));
    } else if b >= 0 {
      assert a * b == -(Abs(a) * b);
    } else {
      assert a * b == Abs(a) * Abs(b);
    }
  }

  // ---- exactness of the floating steps ----

  lemma HalfIs(e: nat)
    requires e == 1021
    ensures Mag(HALF) == Pow2(e + 52)
  {
    assert Code(HALF) == TWO52 + e * TWO52;
    MagShift(TWO52, e);
    assert Pow2(e + 52) == TWO52 * Pow2(e) by { Pow2Add(52, e); Pow2Values(); }
  }

  lemma HalfProduct(m: nat, e: nat)
    requires e == 1021
    ensures Mag(HALF) * (2 * m) == m * Pow2(e + 53)
  {
    HalfIs(e);
    var w := Pow2(e + 52);
    assert Pow2(e + 53) == 2 * w;
    assert w * (2 * m) == m * (2 * w);
  }

  lemma HalfExact(p: Double)
    requires Finite(p) && Code(p) >= 2 * TWO52
    ensures Finite(FMul(HALF, p)) && 2 * Value(FMul(HALF, p)) == Value(p)
  {
    var c := Code(p) - TWO52;
    HalfProduct(MagAt(c), 1021);
    RoundExact(Mag(HALF) * Mag(p), 1074, c);
  }

  /** Subtraction within a factor of two is exact, and an exact zero is positive. */
  lemma CloseSub(x: Double, p: Double)
    requires Finite(x) && Finite(p) && !Neg(x) && !Neg(p)
    requires Mag(p) <= 2 * Mag(x) && Mag(x) <= 2 * Mag(p)
    ensures Finite(FSub(x, p)) && Value(FSub(x, p)) == Value(x) - Value(p)
    ensures Neg(FSub(x, p)) <==> Value(x) < Value(p)
  {
    var a, b := Code(x), Code(p);
    MagOrder(a, b);
    var c;
    if b <= a { c := Sterbenz(a, b); } else { c := Sterbenz(b, a); }
    SubExact(x, p, c);
  }

  // ---- lines 60-76 ----

  /** What is left of a in [0, 2p) after at most two subtractions of p. */
  function Halve(a: int, p: int): (v: int)
  {
    if 2 * a <= p then a else if 2 * (a - p) < p then a - p else a - 2 * p
  }

  lemma SmallCode(c: nat)
    requires MagAt(c) < 4 * TWO52
    ensures c < 3 * TWO52
  {
    assert MagAt(2 * TWO52) == 2 * TWO52;
    MagOrder(c, 3 * TWO52);
  }

  /** Lines 63-67: the comparison x+x > p, for a p so small that 0.5*p could round. */
  method ReduceSmall(x: Double, p: Double) returns (r: Double)
    requires Finite(x) && Finite(p) && !Neg(x) && !Neg(p) && Mag(x) < 2 * Mag(p)
    requires Code(p) < 2 * TWO52
    ensures Finite(r) && Value(r) == Halve(Value(x), Value(p))
    ensures IsZero(r) ==> !Neg(r)
  {
    r := x;
    assert Mag(p) == Code(p);
    SmallCode(Code(x));
    DoubleExact(r);
    if FLess(p, FAdd(r, r)) {
      CloseSub(r, p);
      r := FSub(r, p);
      SmallCode(Code(r));
      DoubleExact(r);
      if FAtMost(p, FAdd(r, r)) {
        CloseSub(r, p);
        r := FSub(r, p);
      }
    }
  }

  lemma NotAboveInf(x: Double, p: Double)
    requires Finite(x) && IsInf(p) && !Neg(p)
    ensures !FLess(FMul(HALF, p), x)
  {
    MagOrder(Code(x), INF);
  }

  /** Lines 69-73. */
  method ReduceLarge(x: Double, p: Double) returns (r: Double)
    requires Finite(x) && 2 * TWO52 <= Code(p) <= INF && !Neg(x) && !Neg(p) && Mag(x) < 2 * Mag(p)
    ensures IsInf(p) ==> r == x
    ensures Finite(p) ==> Finite(r) && Value(r) == Halve(Value(x), Value(p)) && (IsZero(r) ==> !Neg(r))
  {
    r := x;
    var half := FMul(HALF, p);
    if IsInf(p) { NotAboveInf(x, p); } else { HalfExact(p); }
    if FLess(half, r) {
      CloseSub(r, p);
      r := FSub(r, p);
      if FAtMost(half, r) {
        CloseSub(r, p);
        r := FSub(r, p);
      }
    }
  }

  /** The subtractions leave the remainder of any x whose remainder modulo 2p they start from. */
  lemma HalveIsRemainder(x: nat, p: nat) returns (k: int)
    requires p > 0
    ensures IsRemainder(x, p, Halve(x % (2 * p), p), k)
  {
    var a, m := x % (2 * p), x / (2 * p);
    var v := Halve(a, p);
    var i := if v == a then 0 else if v == a - p then 1 else 2;
    k := 2 * m + i;
    assert k * p == m * (2 * p) + i * p;
    assert x == m * (2 * p) + a;
  }

  lemma SignedRemainder(a: int, p: int, r: int, k: int)
    requires IsRemainder(a, p, r, k)
    ensures IsRemainder(-a, p, -r, -k) && IsRemainder(a, -p, r, -k)
  {
    assert (-k) * p == -(k * p) && (-k) * (-p) == k * p;
  }

  lemma SignedHalve(x: Double, p: Double, v: int) returns (k: int)
    requires Mag(p) > 0 && v == Halve(Mag(x) % (2 * Mag(p)), Mag(p))
    ensures IsRemainder(Value(x), Value(p), if Neg(x) then -v else v, k)
  {
    k := HalveIsRemainder(Mag(x), Mag(p));
    if Neg(x) {
      SignedRemainder(Mag(x), Mag(p), v, k);
      k := -k;
    }
    if Neg(p) {
      SignedRemainder(Value(x), Mag(p), if Neg(x) then -v else v, k);
      k := -k;
    }
  }

  /** Line 75: `__HI(x) ^= sx` */
  function RestoreSign(r: Double, sx: u32): (z: Double)
    requires sx == 0 || sx == SIGN
    ensures Value(z) == if sx == 0 then Value(r) else -Value(r)
    ensures Code(z) == Code(r) && Neg(z) == (Neg(r) != (sx != 0))
  {
    var h: u32 := FlipSign(r.hi, sx);
    FlippedWord(r.hi, sx, h);
    Double(h, r.lo)
  }

  lemma FlippedWord(h: u32, sx: u32, g: u32)
    requires sx == 0 || sx == SIGN
    requires g == if sx == 0 then h else if h < SIGN then h + SIGN else h - SIGN
    ensures g % SIGN == h % SIGN && (g >= SIGN) == ((h >= SIGN) != (sx != 0))
  {
  }

  lemma BelowInf(x: Double, p: Double)
    requires Finite(x) && Code(p) >= INF - TWO52
    ensures Mag(x) < 2 * Mag(p)
  {
    MagOrder(Code(x), INF);
    assert MagAt(INF) == 2 * MagAt(INF - TWO52);
    if Code(p) > INF - TWO52 { MagOrder(INF - TWO52, Code(p)); }
  }

  lemma ZeroTimes(r: Double)
    requires Finite(r)
    ensures IsZero(FMul(ZERO, r)) && Value(FMul(ZERO, r)) == 0 && Neg(FMul(ZERO, r)) == Neg(r)
  {
    RoundExact(0, 1074, 0);
  }

  /** Line 59: x mod 2p; where p+p would overflow, |x| is below 2p already. */
  method ModTwice(x: Double, p: Double, hp: u32) returns (r: Double)
    requires Finite(x) && 0 < Code(p) <= INF && hp == p.hi % SIGN
    ensures Mag(p) > 0 && Finite(r) && Neg(r) == Neg(x) && Mag(r) == Mag(x) % (2 * Mag(p))
    ensures IsInf(p) ==> r == x
  {
    HighWord(p);
    MagOrder(0, Code(p));
    if hp <= 0x7fdf_ffff {
      DoubleExact(p);
      r := Fmod.Fmod(x, FAdd(p, p));
    } else {
      BelowInf(x, p);
      DivModUnique(Mag(x), 2 * Mag(p), 0, Mag(x));
      r := x;
    }
  }

  /** Lines 61-76. */
  method Nearest(r: Double, p: Double, hp: u32, sx: u32, ghost x: Double) returns (z: Double)
    requires Finite(r) && Code(p) <= INF && Mag(p) > 0 && hp == p.hi % SIGN
    requires Mag(r) == Mag(x) % (2 * Mag(p)) && sx == if Neg(x) then SIGN else 0
    ensures IsInf(p) ==> Code(z) == Code(r) && Neg(z) == Neg(x)
    ensures Finite(p) ==> Finite(z) && (IsZero(z) ==> Neg(z) == Neg(x))
    ensures Finite(p) ==> exists k :: IsRemainder(Value(x), Value(p), Value(z), k)
  {
    HighWord(p);
    var a, q := FAbs(r), FAbs(p);
    if hp < 0x0020_0000 {
      a := ReduceSmall(a, q);
    } else {
      a := ReduceLarge(a, q);
    }
    if Finite(p) {
      ghost var k := SignedHalve(x, p, Value(a));
    }
    z := RestoreSign(a, sx);
  }

  /** `((hx-hp)|(lx-lp)) == 0` */
  predicate EqualWords(hx: u32, lx: u32, hp: u32, lp: u32)
    ensures EqualWords(hx, lx, hp, lp) <==> hx == hp && lx == lp
  {
    BothZero(Wrap(hx - hp), Wrap(lx - lp))
  }

  /** Lines 59-76, once the exceptional operands are gone. */
  method Reduce(x: Double, p: Double, hx: u32, lx: u32, hp: u32, lp: u32, sx: u32) returns (z: Double)
    requires Finite(x) && 0 < Code(p) <= INF && sx == if Neg(x) then SIGN else 0
    requires hx == x.hi % SIGN && lx == x.lo && hp == p.hi % SIGN && lp == p.lo
    ensures IsInf(p) ==> z == x
    ensures Finite(p) ==> Finite(z) && (IsZero(z) ==> Neg(z) == Neg(x))
    ensures Finite(p) ==> exists k :: IsRemainder(Value(x), Value(p), Value(z), k)
  {
    var r := ModTwice(x, p, hp);
    if EqualWords(hx, lx, hp, lp) {
      ZeroTimes(r);
      SameWords(x, p);
      ghost var k := SignedHalve(x, p, 0);
      z := FMul(ZERO, r);
      assert Value(z) == 0;
      assert IsRemainder(Value(x), Value(p), Value(z), k);
      return;
    }
    z := Nearest(r, p, hp, sx, x);
    if IsInf(p) { SameBits(z, x); }
  }

  lemma SameWords(x: Double, p: Double)
    requires x.hi % SIGN == p.hi % SIGN && x.lo == p.lo && Mag(p) > 0
    ensures Code(x) == Code(p) && Halve(Mag(x) % (2 * Mag(p)), Mag(p)) == 0
  {
    DivModUnique(Mag(x), 2 * Mag(p), 0, Mag(x));
  }

  /** __ieee754_remainder: x - n p for the integer n nearest x / p, ties to even. */
  method Remainder(x: Double, p: Double) returns (z: Double, ghost n: int)
    ensures !Finite(x) || IsZero(p) || IsNaN(p) ==> IsNaN(z)
    ensures Finite(x) && IsInf(p) ==> z == x
    ensures Finite(x) && Finite(p) && !IsZero(p) ==>
      && Finite(z) && (IsZero(z) ==> Neg(z) == Neg(x))
      && Value(z) == Value(x) - n * Value(p)
      && 2 * Abs(Value(z)) <= Abs(Value(p))
      && (2 * Abs(Value(z)) == Abs(Value(p)) ==> n % 2 == 0)
      && IsRemainder(Value(x), Value(p), Value(z), n)
  {
    HighWord(x);
    HighWord(p);
    n := 0;
    var hx: u32, lx: u32, hp: u32, lp: u32 := AbsHigh(x.hi), x.lo, AbsHigh(p.hi), p.lo;
    var sx := SignOf(x.hi);
    if BothZero(hp, lp) { return NAN, 0; }
    if hx >= 0x7ff0_0000 || (hp >= 0x7ff0_0000 && !BothZero(hp - 0x7ff0_0000, lp)) { return NAN, 0; }
    z := Reduce(x, p, hx, lx, hp, lp, sx);
    if Finite(p) { n :| IsRemainder(Value(x), Value(p), Value(z), n); }
  }
}
