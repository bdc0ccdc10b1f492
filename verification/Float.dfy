/** The floating operations the sources apply to whole doubles, in the default rounding
    mode: the exact result, rounded once to nearest even. */
module Float {
  import opened Arith
  import opened Words
  import opened Ieee

  function Negate(d: Double): (r: Double)
    ensures Code(r) == Code(d) && Neg(r) == !Neg(d)
  {
    Double(if d.hi < SIGN then d.hi + SIGN else d.hi - SIGN, d.lo)
  }

  function FAbs(d: Double): (r: Double)
    ensures Code(r) == Code(d) && !Neg(r)
  {
    Double(d.hi % SIGN, d.lo)
  }

  /** v / 2^k units, rounded; `neg` is the sign an exact zero gets. */
  function RoundValue(v: int, k: nat, neg: bool): (r: Double)
  {
    Make(v < 0 || (v == 0 && neg), RoundCode(Abs(v), k))
  }

  function FAdd(x: Double, y: Double): (r: Double)
  {
    if IsNaN(x) || IsNaN(y) then NAN
    else if IsInf(x) then (if IsInf(y) && Neg(x) != Neg(y) then NAN else x)
    else if IsInf(y) then y
    else RoundValue(Value(x) + Value(y), 0, Neg(x) && Neg(y))
  }

  lemma AddRounds(x: Double, y: Double, v: int, r: Double)
    requires Finite(x) && Finite(y) && !Neg(x) && v == Value(x) + Value(y) && r == RoundValue(v, 0, false)
    ensures FAdd(x, y) == r
  {
  }

  function FSub(x: Double, y: Double): (r: Double) { FAdd(x, Negate(y)) }

  function FMul(x: Double, y: Double): (r: Double)
  {
    if IsNaN(x) || IsNaN(y) then NAN
    else if IsInf(x) || IsInf(y) then
      (if IsZero(x) || IsZero(y) then NAN else Make(Neg(x) != Neg(y), INF))
    else Make(Neg(x) != Neg(y), RoundCode(Mag(x) * Mag(y), 1074))
  }

  lemma MulRounds(x: Double, y: Double, n: nat, c: nat)
    requires Finite(x) && Finite(y) && n == Mag(x) * Mag(y) && c == RoundCode(n, 1074)
    ensures FMul(x, y) == Make(Neg(x) != Neg(y), c)
  {
  }

  /** Comparisons; false when an operand is a NaN. */
  predicate FLess(x: Double, y: Double) { !IsNaN(x) && !IsNaN(y) && Value(x) < Value(y) }
  predicate FAtMost(x: Double, y: Double) { !IsNaN(x) && !IsNaN(y) && Value(x) <= Value(y) }
  predicate FEqual(x: Double, y: Double) { !IsNaN(x) && !IsNaN(y) && Value(x) == Value(y) }

  // ---- exactness ----

  lemma AddExact(x: Double, y: Double, c: nat)
    requires Finite(x) && Finite(y) && c <= INF
    requires Abs(Value(x) + Value(y)) == MagAt(c)
    ensures Code(FAdd(x, y)) == c
    ensures Value(FAdd(x, y)) == Value(x) + Value(y)
    ensures Neg(FAdd(x, y)) == (Value(x) + Value(y) < 0 || (Value(x) + Value(y) == 0 && Neg(x) && Neg(y)))
  {
    RoundValueExact(Value(x) + Value(y), Neg(x) && Neg(y), c);
  }

  lemma RoundValueExact(v: int, neg: bool, c: nat)
    requires c <= INF && Abs(v) == MagAt(c)
    ensures var r := RoundValue(v, 0, neg);
            Code(r) == c && Value(r) == v && Neg(r) == (v < 0 || (v == 0 && neg))
  {
    RoundExact(MagAt(c), 0, c);
  }

  lemma NegateValue(d: Double)
    ensures Value(Negate(d)) == -Value(d)
  {
  }

  lemma SubExact(x: Double, y: Double, c: nat)
    requires Finite(x) && Finite(y) && c <= INF
    requires Abs(Value(x) - Value(y)) == MagAt(c)
    ensures Code(FSub(x, y)) == c
    ensures Value(FSub(x, y)) == Value(x) - Value(y)
    ensures Neg(FSub(x, y)) == (Value(x) < Value(y) || (c == 0 && Neg(x) && !Neg(y)))
  {
    NegateValue(y);
    AddExact(x, Negate(y), c);
    MagOrder(c, 0);
  }

  /** A larger code is a whole number of smaller units. */
  lemma InSmallerUnits(a: nat, b: nat) returns (q: nat)
    requires b <= a
    ensures MagAt(a) == q * Pow2(UlpExp(b))
  {
    var ea, eb := UlpExp(a), UlpExp(b);
    MagIsSigTimesUlp(a);
    Pow2Add(ea - eb, eb);
    q := Sig(a) * Pow2(ea - eb);
    assert q * Pow2(eb) == Sig(a) * (Pow2(ea - eb) * Pow2(eb));
  }

  /** Sterbenz: doubles within a factor of two of each other have a representable difference. */
  lemma Sterbenz(a: nat, b: nat) returns (c: nat)
    requires b <= a && MagAt(a) <= 2 * MagAt(b)
    ensures MagAt(c) == MagAt(a) - MagAt(b)
    ensures c <= b
  {
    var q := InSmallerUnits(a, b);
    var u := Pow2(UlpExp(b));
    MagIsSigTimesUlp(b);
    assert MagAt(b) == Sig(b) * u;
    MagOrder(b, a);
    MulCancel(Sig(b), q, u);
    assert (q - Sig(b)) * u == MagAt(a) - MagAt(b);
    MulCancel(q - Sig(b), Sig(b), u);
    c := CodeOf(q - Sig(b), UlpExp(b));
    MagOrder(b, c);
  }

  /** Doubling a finite double is exact unless it overflows. */
  lemma DoubleExact(x: Double)
    requires Finite(x)
    ensures Code(x) < INF - TWO52 ==>
              var d := FAdd(x, x); Finite(d) && Neg(d) == Neg(x) && Value(d) == 2 * Value(x)
    ensures Code(x) >= INF - TWO52 ==> FAdd(x, x) == Make(Neg(x), INF)
  {
    var c := Code(x);
    var d := if c < TWO52 then 2 * c else c + TWO52;
    assert MagAt(d) == 2 * MagAt(c);
    if d <= INF {
      AddExact(x, x, d);
    } else {
      MagOrder(INF, d);
      RoundOverflow(MagAt(d), 0);
    }
  }
}
