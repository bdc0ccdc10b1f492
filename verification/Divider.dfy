/** models/insns/div.h: the cycle-counted shift-subtract divider, reference for DIV and DIVU. */
module Divider {
  import opened Arith
  import opened Words

  // ---- what DIV and DIVU are ----

  predicate Overflows(signed: bool, a: u32, b: u32) { signed && a == SIGN && b == 0xffff_ffff }

  /** Section 7.2 of the RISC-V Unprivileged ISA manual, version 20191213. */
  function RiscvDiv(signed: bool, a: u32, b: u32): (q: u32)
  {
    if b == 0 then 0xffff_ffff
    else if Overflows(signed, a, b) then SIGN
    else if signed then Wrap(TruncQuot(ToInt(a), ToInt(b)))
    else Wrap(TruncQuot(a, b))
  }

  /** The operand the subtractor works on. */
  function MagnitudeOf(signed: bool, x: u32): (m: u32)
    ensures m == if signed then Abs(ToInt(x)) else x
  {
    if signed && SignBit(x) then Minus(x) else x
  }

  /** With the magnitude it makes up the operand; it is the sign bit of a signed word. */
  predicate Negative(signed: bool, x: u32)
    ensures Negative(signed, x) <==> signed && SignBit(x)
    ensures var m: int := MagnitudeOf(signed, x);
            (if signed then ToInt(x) else x) == if Negative(signed, x) then -m else m
  {
    signed && ToInt(x) < 0
  }

  /** Normalisation shifts: the least k with b 2^k >= a or b 2^k >= 2^31. */
  function Shifts(a: nat, b: nat): (k: nat)
    decreases if b == 0 || a <= b then 0 else a - b
  {
    if b == 0 || a <= b || b >= SIGN then 0 else 1 + Shifts(a, 2 * b)
  }

  lemma {:induction false} ShiftsLeast(a: nat, b: nat, k: nat)
    requires b > 0
    ensures Shifts(a, b) <= k <==> b * Pow2(k) >= a || b * Pow2(k) >= SIGN
    decreases k
  {
    if a <= b || b >= SIGN {
      MulMono(1, Pow2(k), b);
    } else if k > 0 {
      ShiftsLeast(a, 2 * b, k - 1);
      assert b * Pow2(k) == (2 * b) * Pow2(k - 1);
    }
  }

  /** A divider never needs more than 31 shifts. */
  lemma ShiftsBound(a: nat, b: nat)
    requires b > 0
    ensures Shifts(a, b) <= 31
  {
    Pow2Values();
    MulMono(1, b, Pow2(31));
    ShiftsLeast(a, b, 31);
  }

  function Cycles(signed: bool, a: u32, b: u32): (c: nat)
  {
    if b == 0 || Overflows(signed, a, b) then 1
    else 2 * Shifts(MagnitudeOf(signed, a), MagnitudeOf(signed, b)) + 5
  }

  lemma CyclesBound(signed: bool, a: u32, b: u32)
    ensures 1 <= Cycles(signed, a, b) <= 67
  {
    if b != 0 { ShiftsBound(MagnitudeOf(signed, a), MagnitudeOf(signed, b)); }
  }

  /** One cycle for the special cases; otherwise 2k + 5 for the least sufficient shift k. */
  lemma CyclesMean(signed: bool, a: u32, b: u32)
    ensures b == 0 || (signed && a == 0x8000_0000 && b == 0xffff_ffff) ==> Cycles(signed, a, b) == 1
    ensures b != 0 && !(signed && a == 0x8000_0000 && b == 0xffff_ffff) ==>
      && Cycles(signed, a, b) % 2 == 1
      && forall k: nat :: Cycles(signed, a, b) <= 2 * k + 5 <==>
           || MagnitudeOf(signed, b) * Pow2(k) >= MagnitudeOf(signed, a)
           || MagnitudeOf(signed, b) * Pow2(k) >= 0x8000_0000
  {
    if b != 0 {
      forall k: nat
        ensures Shifts(MagnitudeOf(signed, a), MagnitudeOf(signed, b)) <= k <==>
          || MagnitudeOf(signed, b) * Pow2(k) >= MagnitudeOf(signed, a)
          || MagnitudeOf(signed, b) * Pow2(k) >= 0x8000_0000
      {
        ShiftsLeast(MagnitudeOf(signed, a), MagnitudeOf(signed, b), k);
      }
    }
  }

  // ---- the two loops ----

  lemma MagnitudePositive(signed: bool, b: u32)
    requires b != 0
    ensures MagnitudeOf(signed, b) > 0
  {
  }

  /** `sign ? -result : result` */
  function FixSign(sign: bool, result: u32): (q: u32) { if sign then Minus(result) else result }

  /** The number a word stands for. */
  function Operand(signed: bool, x: u32): (v: int)
    ensures signed ==> v == ToInt(x)
    ensures !signed ==> v == x
  {
    if signed then ToInt(x) else x
  }

  /** Dividing |a| by |b| and fixing the sign is the RISC-V quotient: the operands are related by
      the quotient and a remainder that is zero or signed as a. */
  lemma SignedQuotient(signed: bool, a: u32, b: u32, q: u32, r: nat)
    requires b != 0 && !(signed && a == 0x8000_0000 && b == 0xffff_ffff) && r < MagnitudeOf(signed, b)
    requires MagnitudeOf(signed, a) == q * MagnitudeOf(signed, b) + r
    ensures var s := FixSign(Negative(signed, a) != Negative(signed, b), q);
            && RiscvDiv(signed, a, b) == s
            && Operand(signed, a)
            == Operand(signed, s) * Operand(signed, b) + (if Operand(signed, a) < 0 then -(r as int) else r)
  {
    var x, y := Operand(signed, a), Operand(signed, b);
    var t: int := if Negative(signed, a) != Negative(signed, b) then -(q as int) else q;
    assert Abs(x) / Abs(y) == q by { DivModUnique(MagnitudeOf(signed, a), MagnitudeOf(signed, b), q, r); }
    assert TruncQuot(x, y) == t;
    QuotientFits(signed, a, b, q, r);
    SignedLaw(x, y, q, r, t);
  }

  /** The signed quotient of two words is a word, outside the overflowing division. */
  lemma QuotientFits(signed: bool, a: u32, b: u32, q: u32, r: nat)
    requires b != 0 && !(signed && a == 0x8000_0000 && b == 0xffff_ffff) && r < MagnitudeOf(signed, b)
    requires MagnitudeOf(signed, a) == q * MagnitudeOf(signed, b) + r
    ensures var sign := Negative(signed, a) != Negative(signed, b);
            Operand(signed, FixSign(sign, q)) == if sign then -(q as int) else q
  {
    var sign := Negative(signed, a) != Negative(signed, b);
    if signed {
      assert q < SIGN || (q == SIGN && sign) by {
        if q >= SIGN { LargeQuotient(MagnitudeOf(signed, a), q, MagnitudeOf(signed, b), r); }
      }
      SignFixed(sign, q);
    }
  }

  lemma SignFixed(sign: bool, q: u32)
    requires q < SIGN || (q == SIGN && sign)
    ensures ToInt(FixSign(sign, q)) == if sign then -(q as int) else q
  {
  }

  /** Only the overflowing division has a quotient magnitude that is not representable. */
  lemma QuotientMagnitude(signed: bool, a: u32, b: u32, q: u32, r: nat)
    requires b != 0 && !Overflows(signed, a, b) && r < MagnitudeOf(signed, b)
    requires MagnitudeOf(signed, a) == q * MagnitudeOf(signed, b) + r
    ensures MagnitudeOf(signed, FixSign(Negative(signed, a) != Negative(signed, b), q)) == q
  {
    if signed && q >= SIGN {
      LargeQuotient(MagnitudeOf(signed, a), q, MagnitudeOf(signed, b), r);
    }
  }

  lemma LargeQuotient(m: nat, q: nat, d: nat, r: nat)
    requires m == q * d + r && m <= SIGN <= q && d > 0
    ensures m == q == SIGN && d == 1
  {
    MulMono(1, d, q);
    if d >= 2 { MulMono(2, d, q); }
  }

  /** One subtraction: the quotient bit joins the result without touching the bits above. */
  lemma TakeBit(a: u32, b: u32, result: u32, dividend: u32, k: nat, h: nat)
    requires result == h * Pow2(k + 1) && b > 0
    requires a == result * b + dividend
    ensures result == (2 * h) * Pow2(k)
    ensures dividend >= b * Pow2(k) ==>
      && Or(result, Pow2(k)) == result + Pow2(k) == (2 * h + 1) * Pow2(k) < TWO32
      && a == (result + Pow2(k)) * b + (dividend - b * Pow2(k))
  {
    OrDisjoint(result, h, Pow2(k), k + 1);
    BitArith(a, b, result, dividend, Pow2(k), h);
  }

  lemma BitArith(a: u32, b: u32, result: u32, dividend: u32, p: nat, h: nat)
    requires result == h * (2 * p) && b > 0 && a == result * b + dividend
    ensures result == (2 * h) * p && result + p == (2 * h + 1) * p
    ensures dividend >= b * p ==> result + p < TWO32 && a == (result + p) * b + (dividend - b * p)
  {
    var s: int := result + p;
    assert s * b == result * b + p * b;
    if dividend >= b * p { MulMono(1, b, s); }
  }

  class DivModel {
    const isSigned: bool
    var statCycles: nat

    constructor (signed: bool)
      ensures isSigned == signed && statCycles == 0
    {
      isSigned, statCycles := signed, 0;
    }

    /** Lines 64-69: double divisor and order until the divisor covers the dividend. */
    method Normalize(dividend: u32, b: u32) returns (divisor: u32, order: u32, ghost k: nat)
      requires b > 0
      modifies this`statCycles
      ensures k == Shifts(dividend, b) <= 31
      ensures divisor == b * Pow2(k) && order == Pow2(k)
      ensures dividend <= divisor || divisor >= SIGN
      ensures statCycles == old(statCycles) + k
    {
      divisor, order, k := b, 1, 0;
      ShiftsBound(dividend, b);
      while dividend > divisor && !SignBit(divisor)
        invariant divisor == b * Pow2(k) && order == Pow2(k) && 0 < divisor
        invariant k + Shifts(dividend, divisor) == Shifts(dividend, b)
        invariant statCycles == old(statCycles) + k
        decreases Shifts(dividend, divisor)
      {
        Doubled(b, Pow2(k));
        assert order < SIGN by { Pow2Values(); Pow2Mono(k, 30); }
        ShlOne(order);
        ShlOne(divisor);
        order := Shl(order, 1);
        divisor := Shl(divisor, 1);
        k := k + 1;
        statCycles := statCycles + 1;
      }
    }

    /** Lines 77-102: subtract and shift back. */
    method Subtract(a: u32, b: u32, d0: u32, o0: u32, ghost k0: nat) returns (result: u32, dividend: u32)
      requires b > 0 && d0 == b * Pow2(k0) && o0 == Pow2(k0) && a < 2 * d0
      modifies this`statCycles
      ensures a == result * b + dividend && dividend < b
      ensures statCycles == old(statCycles) + k0 + 1
    {
      result, dividend := 0, a;
      var divisor, order := d0, o0;
      ghost var k: nat, h: nat := k0, 0;
      while true
        invariant divisor == b * Pow2(k) && order == Pow2(k)
        invariant result == h * Pow2(k + 1)
        invariant a == result * b + dividend && dividend < 2 * (b * Pow2(k))
        invariant statCycles + k == old(statCycles) + k0
        decreases k
      {
        TakeBit(a, b, result, dividend, k, h);
        if dividend >= divisor {
          dividend := dividend - divisor;
          result := Or(result, order);
          h := 2 * h + 1;
        } else {
          h := 2 * h;
        }
        divisor := divisor / 2;
        order := order / 2;
        statCycles := statCycles + 1;
        if order == 0 { break; }
        assert b * Pow2(k) == 2 * (b * Pow2(k - 1)) by { Doubled(b, Pow2(k - 1)); }
        k := k - 1;
      }
    }

    /** stepdiv: quotient and remainder magnitude. */
    method StepDiv(a: u32, b: u32) returns (quotient: u32, rem: u32)
      modifies this`statCycles
      ensures quotient == RiscvDiv(isSigned, a, b)
      ensures b == 0 ==> quotient == 0xffff_ffff && rem == a
      ensures isSigned && a == 0x8000_0000 && b == 0xffff_ffff ==> quotient == 0x8000_0000 && rem == 0
      ensures b != 0 && !isSigned ==> a == quotient * b + rem && rem < b
      ensures b != 0 && isSigned && !(a == 0x8000_0000 && b == 0xffff_ffff) ==>
        && ToInt(a) == ToInt(quotient) * ToInt(b) + (if ToInt(a) < 0 then -(rem as int) else rem)
        && rem < Abs(ToInt(b))
        && Abs(ToInt(a)) == Abs(ToInt(quotient)) * Abs(ToInt(b)) + rem
      ensures statCycles == old(statCycles) + Cycles(isSigned, a, b)
      ensures b == 0 || (isSigned && a == 0x8000_0000 && b == 0xffff_ffff) ==> statCycles == old(statCycles) + 1
      ensures b != 0 && !(isSigned && a == 0x8000_0000 && b == 0xffff_ffff) ==>
        && (statCycles - old(statCycles)) % 2 == 1
        && forall k: nat :: statCycles - old(statCycles) <= 2 * k + 5 <==>
             || MagnitudeOf(isSigned, b) * Pow2(k) >= MagnitudeOf(isSigned, a)
             || MagnitudeOf(isSigned, b) * Pow2(k) >= 0x8000_0000
    {
      CyclesMean(isSigned, a, b);
      statCycles := statCycles + 1;
      if b == 0 { return 0xffff_ffff, a; }
      if isSigned && b == 0xffff_ffff && a == SIGN { return SIGN, 0; }
      var sign := Negative(isSigned, a) != Negative(isSigned, b);
      var dividend := MagnitudeOf(isSigned, a);
      statCycles := statCycles + 1;
      var d := MagnitudeOf(isSigned, b);
      MagnitudePositive(isSigned, b);
      statCycles := statCycles + 1;
      var divisor, order, k := Normalize(dividend, d);
      var result;
      result, rem := Subtract(dividend, d, divisor, order, k);
      SignedQuotient(isSigned, a, b, result, rem);
      QuotientMagnitude(isSigned, a, b, result, rem);
      quotient := FixSign(sign, result);
      statCycles := statCycles + 1;
    }

    /** internalCheck and check: the comparison with the native division never fails, and what the
        two agree on is the truncating quotient. */
    method Check(a: u32, b: u32) returns (ok: bool, ghost native: u32, ghost stepped: u32)
      modifies this`statCycles
      ensures ok && native == stepped
      ensures b == 0 ==> native == 0xffff_ffff
      ensures isSigned && a == 0x8000_0000 && b == 0xffff_ffff ==> native == 0x8000_0000
      ensures b != 0 && !isSigned ==> native == a / b
      ensures b != 0 && isSigned && !(a == 0x8000_0000 && b == 0xffff_ffff) ==>
        var s := ToInt(a) - ToInt(native) * ToInt(b);
        Abs(s) < Abs(ToInt(b)) && (s > 0 ==> ToInt(a) > 0) && (s < 0 ==> ToInt(a) < 0)
      ensures statCycles == old(statCycles) + Cycles(isSigned, a, b)
    {
      var overflow := isSigned && a == SIGN && b == 0xffff_ffff;
      var result: u32 := if overflow then 0x8000_0000
                         else if b == 0 then 0xffff_ffff
                         else if isSigned then Wrap(TruncQuot(ToInt(a), ToInt(b))) else Wrap(TruncQuot(a, b));
      var checkDiv, checkRem := StepDiv(a, b);
      native, stepped := result, checkDiv;
      if b != 0 && !isSigned { DivModUnique(a, b, checkDiv, checkRem); }
      if result != checkDiv {
        checkDiv, checkRem := StepDiv(a, b);
        return false, native, stepped;
      }
      ok := true;
    }
  }
}
