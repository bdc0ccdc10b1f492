/** bench/tools/fdlibm/s_nextafter.c: the neighbour of x on the side of y. */
module NextAfter {
  import opened Words
  import opened Ieee
  import opened Float

  // ---- what the neighbour is ----

  predicate Between(a: int, v: int, b: int) { a < v < b || b < v < a }

  /** z lies from x towards y, not past y, and no double lies strictly between x and z. */
  ghost predicate IsNext(x: Double, y: Double, z: Double)
  {
    && !IsNaN(z)
    && (Value(x) < Value(y) ==> Value(x) < Value(z) <= Value(y))
    && (Value(x) > Value(y) ==> Value(x) > Value(z) >= Value(y))
    && forall d: Double | !IsNaN(d) :: !Between(Value(x), Value(d), Value(z))
  }

  lemma ValueOrder(x: Double, y: Double)
    ensures Neg(x) == Neg(y) ==> (Code(x) < Code(y) <==> Mag(x) < Mag(y))
    ensures Neg(x) == Neg(y) ==> (Code(x) == Code(y) <==> Value(x) == Value(y))
    ensures Value(x) == 0 <==> Code(x) == 0
    ensures Value(y) == 0 <==> Code(y) == 0
  {
    MagOrder(Code(x), Code(y));
    MagOrder(Code(x), 0);
    MagOrder(Code(y), 0);
  }

  /** Doubles of one sign with consecutive codes have nothing between them. */
  lemma Consecutive(x: Double, z: Double, d: Double)
    requires Neg(x) == Neg(z) && Code(z) == Code(x) + 1
    ensures !Between(Value(x), Value(d), Value(z))
  {
    ValueOrder(x, z);
    ValueOrder(x, d);
    ValueOrder(d, z);
  }

  lemma ConsecutiveIsNext(x: Double, y: Double, z: Double)
    requires !IsNaN(x) && !IsNaN(y) && !IsNaN(z) && Value(x) != Value(y) && Neg(x) == Neg(z)
    requires Shrinks(x, y) ==> Code(x) == Code(z) + 1
    requires !Shrinks(x, y) ==> Code(z) == Code(x) + 1
    ensures IsNext(x, y, z)
  {
    forall d: Double | !IsNaN(d) ensures !Between(Value(x), Value(d), Value(z)) {
      if Shrinks(x, y) { Consecutive(z, x, d); } else { Consecutive(x, z, d); }
    }
    assert !Between(Value(x), Value(y), Value(z));
    ValueOrder(x, z);
  }

  /** y is on the side of zero, seen from x. */
  ghost predicate Shrinks(x: Double, y: Double)
  {
    if Neg(x) then Value(x) < Value(y) else Value(y) < Value(x)
  }

  /** There is one neighbour, up to the sign of zero. */
  lemma NextUnique(x: Double, y: Double, z: Double, z': Double)
    requires !IsNaN(x) && Value(x) != Value(y) && IsNext(x, y, z) && IsNext(x, y, z')
    ensures Value(z) == Value(z')
    ensures Neg(z) == Neg(z') ==> z == z'
  {
    assert !Between(Value(x), Value(z), Value(z'));
    assert !Between(Value(x), Value(z'), Value(z));
    if Neg(z) == Neg(z') {
      ValueOrder(z, z');
      SameBits(z, z');
    }
  }

  // ---- the word tests ----

  /** `ix >= 0x7ff00000 && ((ix - 0x7ff00000) | lx) != 0` */
  predicate NanWords(ix: u32, lx: u32)
    ensures NanWords(ix, lx) <==> Wide(ix, lx) > INF
  {
    ix >= 0x7ff0_0000 && !BothZero(ix - 0x7ff0_0000, lx)
  }

  /** `hx > hy || (hx == hy && lx > ly)` on signed high words, and `hy >= 0 ||` it for negative x */
  predicate TestShrinks(x: Double, y: Double)
  {
    var hx, hy := ToInt(x.hi), ToInt(y.hi);
    var above := hx > hy || (hx == hy && x.lo > y.lo);
    if hx >= 0 then above else hy >= 0 || above
  }

  lemma SignedWord(h: u32)
    ensures h % SIGN == h - (if h < SIGN then 0 else SIGN)
    ensures ToInt(h) == h - (if h < SIGN then 0 else TWO32)
  {
  }

  lemma WordOrder(x: Double, y: Double)
    requires Neg(x) == Neg(y)
    ensures Code(x) > Code(y) <==> ToInt(x.hi) > ToInt(y.hi) || (x.hi == y.hi && x.lo > y.lo)
  {
    SignedWord(x.hi);
    SignedWord(y.hi);
  }

  lemma TestIsShrinks(x: Double, y: Double)
    requires Code(x) != 0
    ensures TestShrinks(x, y) <==> Shrinks(x, y)
  {
    ValueOrder(x, y);
    HighWord(x);
    HighWord(y);
    if Neg(x) == Neg(y) { ValueOrder(y, x); WordOrder(x, y); }
  }

  /** `if (lx == 0) hx -= 1; lx -= 1` */
  function Decrement(x: Double): (z: Double)
    requires Code(x) != 0
    ensures Neg(z) == Neg(x) && Code(x) == Code(z) + 1
  {
    if x.lo == 0 then Double(x.hi - 1, 0xffff_ffff) else Double(x.hi, x.lo - 1)
  }

  /** `lx += 1; if (lx == 0) hx += 1` */
  function Increment(x: Double): (z: Double)
    requires Code(x) < INF
    ensures Neg(z) == Neg(x) && Code(z) == Code(x) + 1
  {
    var l := Wrap(x.lo + 1);
    if l == 0 then Double(x.hi + 1, l) else Double(x.hi, l)
  }

  // ---- nextafter ----

  lemma EqualNonZero(s: Double, z: Double)
    requires FEqual(s, z) && Code(z) != 0
    ensures s == z
  {
    ValueOrder(s, z);
    SameBits(s, z);
  }

  lemma LeastIsNext(x: Double, y: Double, z: Double)
    requires Code(x) == 0 && !IsNaN(y) && Value(x) != Value(y) && Code(z) == 1 && Neg(z) == Neg(y)
    ensures IsNext(x, y, z)
  {
    var o := Make(Neg(y), 0);
    ValueOrder(o, x);
    ValueOrder(y, x);
    ConsecutiveIsNext(o, y, z);
  }

  method FromZero(x: Double, y: Double) returns (z: Double)
    requires Code(x) == 0 && !IsNaN(y) && Value(x) != Value(y)
    ensures IsNext(x, y, z) && Code(z) == 1 && Neg(z) == Neg(y)
  {
    z := Double(SignOf(y.hi), 1);
    LeastIsNext(x, y, z);
    var s := FMul(z, z);
    if FEqual(s, z) {
      EqualNonZero(s, z);
      z := s;
    }
  }

  method FromNonZero(x: Double, y: Double) returns (z: Double)
    requires Code(x) != 0 && !IsNaN(x) && !IsNaN(y) && Value(x) != Value(y)
    ensures IsNext(x, y, z) && Neg(z) == Neg(x)
  {
    TestIsShrinks(x, y);
    if TestShrinks(x, y) {
      z := Decrement(x);
    } else {
      InfiniteIsLast(x, y);
      z := Increment(x);
    }
    ConsecutiveIsNext(x, y, z);
    HighWord(z);
    if ExponentFull(z.hi) {
      DoubleExact(x);
      SameBits(z, FAdd(x, x));
      return FAdd(x, x);
    }
    if ExponentField(z.hi) == 0 {
      // raises the underflow flag; z is returned on either outcome
      var s := FMul(x, x);
      if !FEqual(s, x) { return; }
    }
  }

  lemma InfiniteIsLast(x: Double, y: Double)
    requires !IsNaN(x) && !IsNaN(y) && Code(x) != 0 && !Shrinks(x, y) && Value(x) != Value(y)
    ensures Code(x) < INF
  {
    ValueOrder(x, y);
    if Neg(x) == Neg(y) { ValueOrder(y, x); }
  }

  method Next(x: Double, y: Double) returns (z: Double)
    ensures IsNaN(x) || IsNaN(y) ==> z == NAN
    ensures !IsNaN(x) && !IsNaN(y) && Value(x) == Value(y) ==> z == x
    ensures !IsNaN(x) && !IsNaN(y) && Value(x) != Value(y) ==>
              IsNext(x, y, z) && Neg(z) == (if IsZero(x) then Neg(y) else Neg(x))
  {
    HighWord(x);
    HighWord(y);
    if NanWords(AbsHigh(x.hi), x.lo) || NanWords(AbsHigh(y.hi), y.lo) { return FAdd(x, y); }
    if FEqual(x, y) { return x; }
    if BothZero(AbsHigh(x.hi), x.lo) {
      z := FromZero(x, y);
    } else {
      z := FromNonZero(x, y);
    }
  }

  /** Stepping back towards x undoes the step. */
  lemma StepBack(x: Double, y: Double, z: Double, b: Double)
    requires !IsNaN(x) && !IsNaN(y) && Value(x) != Value(y)
    requires IsNext(x, y, z) && IsNext(z, x, b)
    ensures Value(z) != Value(x) && Value(b) == Value(x)
  {
    assert !Between(Value(x), Value(b), Value(z));
  }

  /** nextafter(nextafter(x, y), x) is x itself; only a zero can come back with another sign,
      and it does so when its sign differs from that of y. */
  method ThereAndBack(x: Double, y: Double) returns (b: Double)
    requires !IsNaN(x) && !IsNaN(y) && Value(x) != Value(y)
    ensures b == x <==> !IsZero(x) || Neg(x) == Neg(y)
    ensures Value(b) == Value(x)
  {
    var z := Next(x, y);
    b := Next(z, x);
    StepBack(x, y, z, b);
    ValueOrder(b, x);
    ValueOrder(z, x);
    if Neg(b) == Neg(x) { SameBits(b, x); }
  }
}
