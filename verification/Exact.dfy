/** Doubles that hold small integers times a power of two, and the operations that stay
    exact on them. */
module Exact {
  import opened Arith
  import opened Words
  import opened Ieee
  import opened Float

  /** z is s * 2^u units, a 53-bit significand s. */
  ghost predicate Holds(z: Double, s: int, u: nat)
  {
    !Neg(z) && Finite(z) && 0 <= s < 2 * TWO52 && u <= 1100 && Mag(z) == s * Pow2(u)
  }

  /** z is a positive number in the range of `int`. */
  ghost predicate FitsInt(z: Double) { !Neg(z) && Mag(z) < SIGN * Pow2(1074) }

  /** `(int) z` for z >= 0, and `(double) n`. */
  function Truncate(z: Double): (n: i32)
    requires FitsInt(z)
    ensures n >= 0
  {
    QuotientBelow(Mag(z), SIGN, Pow2(1074));
    Mag(z) / Pow2(1074)
  }

  lemma QuotientBelow(m: nat, s: nat, p: nat)
    requires p > 0 && m < s * p
    ensures 0 <= m / p < s
  {
    var q := m / p;
    assert m == q * p + m % p;
    if q < 0 { MulMono(q, -1, p); assert false; }
    if q >= s { MulMono(s, q, p); assert false; }
  }

  function FromInt(n: int): (d: Double)
    requires 0 <= n < 2 * TWO52
    ensures Holds(d, n, 1074)
  {
    BelowTop(n, CodeOf(n, 1074), 1074);
    Make(false, CodeOf(n, 1074))
  }

  lemma BelowTop(m: nat, c: nat, u: nat)
    requires m < 2 * TWO52 && u <= 1100 && MagAt(c) == m * Pow2(u)
    ensures c < INF
  {
    BelowPower(m, c, u, 1200);
  }

  lemma BelowPower(m: nat, c: nat, u: nat, w: nat)
    requires m < 2 * TWO52 && u < w && MagAt(c) == m * Pow2(u)
    ensures c < TWO52 + w * TWO52
  {
    assert MagAt(TWO52 + w * TWO52) == TWO52 * Pow2(w) by { MagShift(TWO52, w); }
    assert m * Pow2(u) < TWO52 * Pow2(w) by {
      Pow2Mono(u, w - 1);
      MulMonoStrict(m, 2 * TWO52, Pow2(u));
    }
    MagOrder(c, TWO52 + w * TWO52);
  }

  lemma ZeroHolds(u: nat)
    requires u <= 1100
    ensures Holds(ZERO, 0, u)
  {
    assert Code(ZERO) == 0;
  }

  /** A power of two, from its words. */
  lemma PowerHolds(z: Double, e: nat)
    requires !Neg(z) && e <= 1048 && Code(z) == TWO52 + e * TWO52
    ensures Holds(z, 1, e + 52)
  {
    MagShift(TWO52, e);
    Pow2Add(52, e);
    Pow2Values();
  }

  /** The same number with a larger integer and a smaller power. */
  lemma Rescale(z: Double, s: int, u: nat, k: nat, t: int)
    requires k <= u && t == s * Pow2(k) < 2 * TWO52 && Holds(z, s, u)
    ensures Holds(z, t, u - k)
  {
    Pow2Add(k, u - k);
    Reassoc(s, Pow2(k), Pow2(u - k));
    MulMono(0, s, Pow2(k));
  }

  lemma SumHolds(x: Double, s: int, y: Double, t: int, u: nat)
    requires Holds(x, s, u) && Holds(y, t, u) && s + t < 2 * TWO52
    ensures Holds(FAdd(x, y), s + t, u)
  {
    var r := s + t;
    var c := CodeOf(r, u);
    BelowTop(r, c, u);
    assert Mag(x) + Mag(y) == MagAt(c) by { Distribute(s, t, Pow2(u)); }
    AddExact(x, y, c);
  }

  lemma DifferenceHolds(x: Double, s: int, y: Double, t: int, u: nat)
    requires Holds(x, s, u) && Holds(y, t, u) && t <= s
    ensures Holds(FSub(x, y), s - t, u)
  {
    var r := s - t;
    var c := CodeOf(r, u);
    BelowTop(r, c, u);
    assert Mag(x) - Mag(y) == MagAt(c) by { Distribute(r, t, Pow2(u)); }
    SubExact(x, y, c);
  }

  lemma Distribute(a: int, b: int, p: int)
    ensures (a + b) * p == a * p + b * p
  {
  }

  lemma ProductHolds(x: Double, s: int, u: nat, y: Double, t: int, v: nat, r: int, w: nat)
    requires Holds(x, s, u) && Holds(y, t, v) && u + v == w + 1074 && w <= 1100 && r == s * t < 2 * TWO52
    ensures Holds(FMul(x, y), r, w)
  {
    MulMono(0, s, t);
    var c := CodeOf(r, w);
    BelowTop(r, c, w);
    var n := Mag(x) * Mag(y);
    assert n == MagAt(c) * Pow2(1074) by { FourProduct(n, s, u, t, v, r, w, 1074); }
    RoundExact(n, 1074, c);
    MulRounds(x, y, n, c);
  }

  lemma FourProduct(n: int, s: int, u: nat, t: int, v: nat, r: int, w: nat, k: nat)
    requires n == (s * Pow2(u)) * (t * Pow2(v)) && r == s * t && u + v == w + k
    ensures n == (r * Pow2(w)) * Pow2(k)
  {
    PowerPairs(u, v, w, k);
    FourFactors(n, s, Pow2(u), t, Pow2(v), r, Pow2(w), Pow2(k));
  }

  lemma PowerPairs(u: nat, v: nat, w: nat, k: nat)
    requires u + v == w + k
    ensures Pow2(u) * Pow2(v) == Pow2(w) * Pow2(k)
  {
    var p, q, a, b, n := Pow2(u), Pow2(v), Pow2(w), Pow2(k), u + v;
    var x := Pow2(n);
    assert x == p * q by { PowerOfSum(u, v, n); }
    assert x == a * b by { PowerOfSum(w, k, n); }
  }

  lemma PowerOfSum(a: nat, b: nat, n: nat)
    requires n == a + b
    ensures Pow2(n) == Pow2(a) * Pow2(b)
  {
    Pow2Add(a, b);
  }

  lemma FourFactors(n: int, s: int, p: int, t: int, q: int, r: int, a: int, b: int)
    requires n == (s * p) * (t * q) && r == s * t && p * q == a * b
    ensures n == (r * a) * b
  {
    assert n == r * (p * q) by { Shuffle(s, p, t, q); }
    Reassoc(r, a, b);
  }

  lemma Shuffle(a: int, b: int, c: int, d: int)
    ensures (a * b) * (c * d) == (a * c) * (b * d)
  {
    assert (a * b) * (c * d) == ((a * b) * c) * d;
    assert (a * b) * c == (a * c) * b;
    assert ((a * c) * b) * d == (a * c) * (b * d);
  }

  lemma QuotientIs(z: Double, s: int, u: nat, k: nat)
    requires Holds(z, s, u) && u + k == 1074
    ensures Mag(z) / Pow2(1074) == s / Pow2(k)
  {
    Pow2Add(k, u);
    MulDivMod(s, Pow2(k), Pow2(u));
  }

  /** Truncation divides by the power of two below one. */
  lemma TruncateIs(z: Double, s: int, u: nat, k: nat)
    requires Holds(z, s, u) && u + k == 1074 && s < SIGN * Pow2(k)
    ensures FitsInt(z) && Truncate(z) == s / Pow2(k)
  {
    QuotientIs(z, s, u, k);
    assert SIGN * Pow2(1074) == (SIGN * Pow2(k)) * Pow2(u) by {
      Pow2Add(k, u);
      Reassoc(SIGN, Pow2(k), Pow2(u));
    }
    MulMonoStrict(s, SIGN * Pow2(k), Pow2(u));
  }
}
