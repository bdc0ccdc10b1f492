/** bench/tools/fdlibm/e_sqrt.c: the bit-by-bit square root on two words. */
module Sqrt {
  import opened Arith
  import opened Words
  import opened Ieee
  import opened Float
  import Scalbn

  /** What the probe `one-tiny`, `one+tiny` finds. `Down` is both toward zero and toward
      minus infinity, which agree on a positive root. */
  datatype Mode = Nearest | Down | Up

  function Sq(a: int): (s: int) { a * a }

  // ---- what a correctly rounded root is ----

  /** What code d may be if c is the rounded root of s. To nearest: the midpoint of c and d
      is on d's side of the root, so c is strictly nearer and there is no tie. Downward: c is
      at or below the root and every greater code is above it. Upward: the mirror image. */
  ghost predicate RootAgainst(s: nat, c: nat, mode: Mode, d: nat)
  {
    match mode
    case Nearest =>
      && (d < c ==> Sq(MagAt(d) + MagAt(c)) < 4 * s)
      && (d > c ==> Sq(MagAt(d) + MagAt(c)) > 4 * s)
    case Down => Sq(MagAt(c)) <= s && (d > c ==> Sq(MagAt(d)) > s)
    case Up => Sq(MagAt(c)) >= s && (d < c ==> Sq(MagAt(d)) < s)
  }

  /** Code c is the square root of s, correctly rounded. */
  ghost predicate RoundedRoot(s: nat, c: nat, mode: Mode)
  {
    forall d: nat :: RootAgainst(s, c, mode, d)
  }

  /** There is one correctly rounded root. */
  lemma RootUnique(s: nat, c: nat, d: nat, mode: Mode)
    requires RoundedRoot(s, c, mode) && RoundedRoot(s, d, mode)
    ensures c == d
  {
    assert RootAgainst(s, c, mode, d);
    assert RootAgainst(s, d, mode, c);
  }

  lemma UlpAround(c: nat)
    requires c > 0
    ensures MagAt(c + 1) == MagAt(c) + Ulp(c) && 0 <= MagAt(c) - Ulp(c) <= MagAt(c - 1)
  {
    MagNext(c);
    MagNext(c - 1);
    UlpMono(c - 1);
    UlpBelow(c);
  }

  /** A root rounded to nearest is less than half a unit in its last place from the exact one. */
  lemma NearestError(s: nat, c: nat, m: nat, u: nat)
    requires c > 0 && RoundedRoot(s, c, Nearest) && m == MagAt(c) && u == Ulp(c)
    ensures (2 * m - u) * (2 * m - u) < 4 * s < (2 * m + u) * (2 * m + u)
  {
    UlpAround(c);
    assert RootAgainst(s, c, Nearest, c - 1) && RootAgainst(s, c, Nearest, c + 1);
    BelowSquare(2 * m - u, MagAt(c - 1) + m, 4 * s);
    AboveSquare(MagAt(c + 1) + m, 2 * m + u, 4 * s);
  }

  /** A root rounded down is less than a unit below the exact one, rounded up less than one above. */
  lemma DownError(s: nat, c: nat, m: nat, u: nat)
    requires c > 0 && RoundedRoot(s, c, Down) && m == MagAt(c) && u == Ulp(c)
    ensures m * m <= s < (m + u) * (m + u)
  {
    UlpAround(c);
    assert RootAgainst(s, c, Down, c + 1);
    AboveSquare(MagAt(c + 1), m + u, s);
  }

  lemma UpError(s: nat, c: nat, m: nat, u: nat)
    requires c > 0 && RoundedRoot(s, c, Up) && m == MagAt(c) && u == Ulp(c)
    ensures (m - u) * (m - u) < s <= m * m
  {
    UlpAround(c);
    assert RootAgainst(s, c, Up, c - 1);
    BelowSquare(m - u, MagAt(c - 1), s);
  }

  lemma BelowSquare(a: nat, b: nat, s: nat)
    requires a <= b && Sq(b) < s
    ensures a * a < s
  {
    SquareMono(a, b);
  }

  lemma AboveSquare(a: nat, b: nat, s: nat)
    requires a == b && Sq(a) > s
    ensures s < b * b
  {
  }

  lemma UlpBelow(c: nat)
    requires c > 0
    ensures Ulp(c) <= MagAt(c)
  {
    MagIsSigTimesUlp(c);
    MulMono(1, Sig(c), Ulp(c));
  }

  // ---- the wide recurrence ----

  /** State of the digit recurrence for floor(sqrt(n)): q holds the bits found so far,
      all multiples of d, and i is the scaled remainder. */
  ghost predicate RootInv(n: nat, i: int, q: nat, d: nat)
  {
    && d > 0
    && i * d == 2 * (n - q * q)
    && q * q <= n < (q + d) * (q + d)
  }

  lemma BitTaken(n: nat, i: int, q: nat, r: nat)
    requires r > 0 && RootInv(n, i, q, 2 * r) && 2 * q + r <= i
    ensures RootInv(n, 2 * (i - (2 * q + r)), q + r, r)
  {
    var t := 2 * q + r;
    RootStep(n, i, q, r, t);
    assert (i - t) * r == i * r - t * r;
    MulMono(t, i, r);
    assert (2 * (i - t)) * r == 2 * ((i - t) * r);
  }

  lemma RootStep(n: nat, i: int, q: nat, r: nat, t: nat)
    requires RootInv(n, i, q, 2 * r) && t == 2 * q + r
    ensures i * r == n - q * q
    ensures (q + r) * (q + r) == q * q + t * r
  {
    assert i * (2 * r) == 2 * (i * r);
  }

  lemma BitSkipped(n: nat, i: int, q: nat, r: nat)
    requires r > 0 && RootInv(n, i, q, 2 * r) && 2 * q + r > i
    ensures RootInv(n, 2 * i, q, r)
  {
    var t := 2 * q + r;
    RootStep(n, i, q, r, t);
    MulMonoStrict(i, t, r);
    assert (2 * i) * r == 2 * (i * r);
  }

  /** The remainder stays small, so its words never overflow. */
  lemma RemainderBound(n: nat, i: int, q: nat, d: nat)
    requires RootInv(n, i, q, d)
    ensures 0 <= i < 4 * q + 2 * d
  {
    assert (q + d) * (q + d) == q * q + (2 * q + d) * d;
    if i < 0 { MulMono(i, -1, d); assert false; }
    assert (4 * q + 2 * d) * d == 2 * ((2 * q + d) * d);
    if i >= 4 * q + 2 * d { MulMono(4 * q + 2 * d, i, d); assert false; }
  }

  /** While the root has at most 54 bits, the remainder fits the two words with room to double. */
  lemma WordBounds(n: nat, i: int, q: nat, d: nat)
    requires RootInv(n, i, q, d) && n < 0x1000_0000_0000_0000_0000_0000_0000 && d <= 0x40_0000_0000_0000
    ensures q < 0x40_0000_0000_0000
    ensures 0 <= i < 0x200_0000_0000_0000
  {
    if q >= 0x40_0000_0000_0000 { SquareMono(0x40_0000_0000_0000, q); assert false; }
    RemainderBound(n, i, q, d);
  }

  // ---- lines 137-153: the high word of the root ----

  /** Lines 144-151: one trial bit r of the high word. */
  method TryHighBit(x0: i32, x1: u32, p0: i32, p: i32, r: u32) returns (ix0: i32, ix1: u32, s0: i32, q: i32)
    requires 0 < r <= 0x20_0000
    requires 0 <= p0 < 0x80_0000 && 0 <= p < 0x40_0000 && 0 <= x0 < 0x200_0000
    ensures if p0 * TWO32 + r * TWO32 <= Wide(x0, x1)
            then q == p + r && s0 == p0 + 2 * r && Wide(ix0, ix1) == 2 * (Wide(x0, x1) - (p0 + r) * TWO32)
            else q == p && s0 == p0 && Wide(ix0, ix1) == 2 * Wide(x0, x1)
  {
    ix0, ix1, s0, q := x0, x1, p0, p;
    var t: i32 := s0 + r;
    if t <= ix0 {
      s0 := t + r;
      ix0 := ix0 - t;
      q := q + r;
    }
    TwiceIsDouble(ix0, ix1);
    ix0, ix1 := TwiceHigh(ix0, ix1), TwiceLow(ix1);
  }

  lemma HighRoom(n: nat, i: int, q: int, d: nat)
    requires 0 <= q && d <= 0x40_0000 && n < 0x1000_0000_0000_0000_0000_0000_0000
    requires RootInv(n, i, q * TWO32, d * TWO32)
    ensures q < 0x40_0000 && 0 <= i < 0x200_0000_0000_0000
  {
    WordBounds(n, i, q * TWO32, d * TWO32);
  }

  method HighStep(x0: i32, x1: u32, p0: i32, p: i32, r: u32, ghost n: nat)
    returns (ix0: i32, ix1: u32, s0: i32, q: i32)
    requires 0 < r <= 0x20_0000 && 0 <= p && p0 == 2 * p && n < 0x1000_0000_0000_0000_0000_0000_0000
    requires RootInv(n, Wide(x0, x1), p * TWO32, (2 * r) * TWO32)
    ensures 0 <= q && s0 == 2 * q && RootInv(n, Wide(ix0, ix1), q * TWO32, r * TWO32)
  {
    ghost var i := Wide(x0, x1);
    HighRoom(n, i, p, 2 * r);
    ix0, ix1, s0, q := TryHighBit(x0, x1, p0, p, r);
    if 2 * (p * TWO32) + r * TWO32 <= i {
      BitTaken(n, i, p * TWO32, r * TWO32);
    } else {
      BitSkipped(n, i, p * TWO32, r * TWO32);
    }
  }

  method HighBits(x0: i32, x1: u32, ghost y: nat) returns (ix0: i32, ix1: u32, s0: i32, q: i32)
    requires 0x10_0000_0000_0000 <= y < 0x40_0000_0000_0000
    requires Wide(x0, x1) == 2 * y
    ensures 0 <= q && s0 == 2 * q
    ensures RootInv(y * 0x40_0000_0000_0000, Wide(ix0, ix1), q * TWO32, TWO32)
  {
    ghost var n := y * 0x40_0000_0000_0000;
    var r: u32 := 0x0020_0000;
    ix0, ix1, s0, q := x0, x1, 0, 0;
    ghost var k: nat := 22;
    assert Pow2(21) == 0x20_0000 by { Pow2Values(); }
    assert Pow2(22) == 2 * Pow2(21);
    while r != 0
      invariant k <= 22 && r == if k == 0 then 0 else Pow2(k - 1)
      invariant 0 <= q && s0 == 2 * q
      invariant RootInv(n, Wide(ix0, ix1), q * TWO32, Pow2(k) * TWO32)
      decreases r
    {
      Pow2Mono(k, 22);
      ix0, ix1, s0, q := HighStep(ix0, ix1, s0, q, r, n);
      r := r / 2;
      k := k - 1;
    }
  }

  // ---- lines 155-170: the low word of the root ----

  /** The two-word comparison, subtraction and addition of one low-word step, on wide values. */
  lemma LowStepWords(s0: i32, s1: u32, ix0: i32, ix1: u32, r: u32)
    requires 0 <= s0 && 0 <= ix0 && r > 0 && s1 + 2 * r <= TWO32
    ensures s0 < ix0 || (s0 == ix0 && s1 + r <= ix1) <==> Wide(s0, s1) + r <= Wide(ix0, ix1)
    ensures Wide(ix0 - s0 - (if ix1 < s1 + r then 1 else 0), Wrap(ix1 - (s1 + r)))
         == Wide(ix0, ix1) - (Wide(s0, s1) + r)
    ensures Wide(if SignBit(s1 + r) && !SignBit(Wrap(s1 + r + r)) then s0 + 1 else s0,
                 Wrap(s1 + r + r))
         == Wide(s0, s1) + 2 * r
  {
  }

  /** The low word of the doubled root is a multiple of the current bit's weight. */
  ghost predicate Aligned(s1: u32, d: nat)
  {
    d > 0 && s1 % d == 0 && TWO32 % d == 0
  }

  lemma AlignedRoom(s1: u32, d: nat)
    requires Aligned(s1, d)
    ensures s1 + d <= TWO32
    ensures Aligned(Wrap(s1 + d), d)
  {
    var g, t := s1 / d, TWO32 / d;
    assert s1 == g * d && TWO32 == t * d;
    if g >= t { MulMono(t, g, d); assert false; }
    MulMono(g + 1, t, d);
    assert (g + 1) * d == s1 + d;
    if s1 + d < TWO32 { ModAddMul(s1, 1, d); } else { ModAddMul(0, 0, d); }
  }

  lemma AlignedHalf(s1: u32, r: nat)
    requires r > 0 && Aligned(s1, 2 * r)
    ensures Aligned(s1, r)
  {
    DivModUnique(s1, r, 2 * (s1 / (2 * r)), 0);
    DivModUnique(TWO32, r, 2 * (TWO32 / (2 * r)), 0);
  }

  ghost predicate LowInv(n: nat, ix0: i32, ix1: u32, s0: i32, s1: u32, q: i32, q1: u32, k: nat)
  {
    && k <= 32 && n < 0x1000_0000_0000_0000_0000_0000_0000
    && 0 <= q && RootInv(n, Wide(ix0, ix1), Wide(q, q1), Pow2(k))
    && 0 <= s0 && Wide(s0, s1) == 2 * Wide(q, q1)
    && Aligned(s1, Pow2(k))
    && q1 + Pow2(k) <= TWO32
  }

  /** Before a step there is room in every word. */
  lemma LowRoom(n: nat, ix0: i32, ix1: u32, s0: i32, s1: u32, q: i32, q1: u32, k: nat)
    requires LowInv(n, ix0, ix1, s0, s1, q, q1, k)
    ensures s1 + Pow2(k) <= TWO32
    ensures 0 <= s0 < 0x80_0000 && 0 <= ix0 < 0x200_0000
  {
    Pow2Values();
    Pow2Mono(k, 32);
    WordBounds(n, Wide(ix0, ix1), Wide(q, q1), Pow2(k));
    AlignedRoom(s1, Pow2(k));
  }

  lemma LowTaken(n: nat, ix0: i32, ix1: u32, s0: i32, s1: u32, q: i32, q1: u32, k: nat, r: nat,
                 y0: i32, y1: u32, t0: i32, t1: u32)
    requires k > 0 && r == Pow2(k - 1) && LowInv(n, ix0, ix1, s0, s1, q, q1, k)
    requires Wide(s0, s1) + r <= Wide(ix0, ix1)
    requires Wide(y0, y1) == 2 * (Wide(ix0, ix1) - (Wide(s0, s1) + r))
    requires t1 == Wrap(s1 + 2 * r) && 0 <= t0 && Wide(t0, t1) == Wide(s0, s1) + 2 * r
    ensures q1 + r < TWO32 && LowInv(n, y0, y1, t0, t1, q, q1 + r, k - 1)
  {
    BitTaken(n, Wide(ix0, ix1), Wide(q, q1), r);
    AlignedRoom(s1, 2 * r);
    AlignedHalf(t1, r);
  }

  lemma LowSkipped(n: nat, ix0: i32, ix1: u32, s0: i32, s1: u32, q: i32, q1: u32, k: nat, r: nat, y0: i32, y1: u32)
    requires k > 0 && r == Pow2(k - 1) && LowInv(n, ix0, ix1, s0, s1, q, q1, k)
    requires Wide(s0, s1) + r > Wide(ix0, ix1)
    requires Wide(y0, y1) == 2 * Wide(ix0, ix1)
    ensures LowInv(n, y0, y1, s0, s1, q, q1, k - 1)
  {
    BitSkipped(n, Wide(ix0, ix1), Wide(q, q1), r);
    AlignedHalf(s1, r);
  }

  /** Lines 157-168: one trial bit r of the low word. */
  method TryLowBit(x0: i32, x1: u32, p0: i32, p1: u32, p: u32, r: u32)
    returns (ix0: i32, ix1: u32, s0: i32, s1: u32, q1: u32)
    requires r > 0 && p1 + 2 * r <= TWO32 && p + r < TWO32
    requires 0 <= p0 < 0x80_0000 && 0 <= x0 < 0x200_0000
    ensures if Wide(p0, p1) + r <= Wide(x0, x1)
            then && q1 == p + r
                 && 0 <= s0 && s1 == Wrap(p1 + 2 * r) && Wide(s0, s1) == Wide(p0, p1) + 2 * r
                 && Wide(ix0, ix1) == 2 * (Wide(x0, x1) - (Wide(p0, p1) + r))
            else q1 == p && s0 == p0 && s1 == p1 && Wide(ix0, ix1) == 2 * Wide(x0, x1)
  {
    ix0, ix1, s0, s1, q1 := x0, x1, p0, p1, p;
    LowStepWords(s0, s1, ix0, ix1, r);
    var t1: u32 := s1 + r;
    var t: i32 := s0;
    if t < ix0 || (t == ix0 && t1 <= ix1) {
      s1 := Wrap(t1 + r);
      if SignBit(t1) && !SignBit(s1) { s0 := s0 + 1; }
      ix0 := ix0 - t;
      if ix1 < t1 { ix0 := ix0 - 1; }
      ix1 := Wrap(ix1 - t1);
      q1 := q1 + r;
    }
    TwiceIsDouble(ix0, ix1);
    ix0, ix1 := TwiceHigh(ix0, ix1), TwiceLow(ix1);
  }

  method LowStep(x0: i32, x1: u32, p0: i32, p1: u32, p: u32, r: u32, ghost n: nat, ghost q: i32, ghost k: nat)
    returns (ix0: i32, ix1: u32, s0: i32, s1: u32, q1: u32)
    requires k > 0 && r == Pow2(k - 1) && LowInv(n, x0, x1, p0, p1, q, p, k)
    ensures LowInv(n, ix0, ix1, s0, s1, q, q1, k - 1)
  {
    LowRoom(n, x0, x1, p0, p1, q, p, k);
    ix0, ix1, s0, s1, q1 := TryLowBit(x0, x1, p0, p1, p, r);
    if Wide(p0, p1) + r <= Wide(x0, x1) {
      LowTaken(n, x0, x1, p0, p1, q, p, k, r, ix0, ix1, s0, s1);
    } else {
      LowSkipped(n, x0, x1, p0, p1, q, p, k, r, ix0, ix1);
    }
  }

  method LowBits(x0: i32, x1: u32, t0: i32, q: i32, ghost n: nat) returns (ix0: i32, ix1: u32, q1: u32)
    requires 0 <= q && t0 == 2 * q && n < 0x1000_0000_0000_0000_0000_0000_0000
    requires RootInv(n, Wide(x0, x1), q * TWO32, TWO32)
    ensures RootInv(n, Wide(ix0, ix1), Wide(q, q1), 1)
  {
    var r: u32 := SIGN;
    var s0: i32, s1: u32 := t0, 0;
    ix0, ix1, q1 := x0, x1, 0;
    ghost var k: nat := 32;
    assert Pow2(32) == TWO32 by { Pow2Values(); }
    while r != 0
      invariant k <= 32 && r == if k == 0 then 0 else Pow2(k - 1)
      invariant LowInv(n, ix0, ix1, s0, s1, q, q1, k)
      decreases r
    {
      ix0, ix1, s0, s1, q1 := LowStep(ix0, ix1, s0, s1, q1, r, n, q, k);
      r := r / 2;
      k := k - 1;
    }
  }

  // ---- from the integer root to the rounded double ----

  /** Half of the 54-bit root q, rounded as the mode asks; `exact` says q is the whole root. */
  function HalfRounded(q: nat, exact: bool, mode: Mode): (p: nat)
  {
    if exact || mode == Down then q / 2
    else if mode == Nearest then (q + 1) / 2
    else q / 2 + 1
  }

  /** Twice the root of s lies in [lo, lo + u). */
  ghost predicate RootIn(s: nat, lo: nat, u: nat) { Sq(lo) <= 4 * s < Sq(lo + u) }

  /** Scaling the integer root q of n by u brackets twice the root of s. */
  lemma ScaleRoot(s: nat, n: nat, q: nat, u: nat)
    requires u > 0 && 4 * s == n * (u * u) && q * q <= n < (q + 1) * (q + 1)
    ensures RootIn(s, q * u, u)
    ensures Sq(q * u) == 4 * s <==> n == q * q
  {
    var w := u * u;
    assert w > 0;
    assert (q * u) * (q * u) == (q * q) * w;
    assert q * u + u == (q + 1) * u;
    assert ((q + 1) * u) * ((q + 1) * u) == ((q + 1) * (q + 1)) * w;
    MulCancel(q * q, n, w);
    MulMonoStrict(n, (q + 1) * (q + 1), w);
  }

  /** The codes around the result: everything above is at least one unit u higher, and
      everything below is lower, by a whole unit unless the significand is 2^52. */
  lemma Neighbours(p: nat, e: nat, d: nat)
    requires TWO52 <= p <= 2 * TWO52
    ensures MagAt(p + e * TWO52) == p * Pow2(e)
    ensures d > p + e * TWO52 ==> MagAt(d) >= MagAt(p + e * TWO52) + Pow2(e)
    ensures d < p + e * TWO52 ==> MagAt(d) < MagAt(p + e * TWO52)
    ensures d < p + e * TWO52 && p > TWO52 ==> MagAt(d) <= MagAt(p + e * TWO52) - Pow2(e)
  {
    var c := p + e * TWO52;
    MagShift(p, e);
    if d > c { MagMono(c, d); }
    if d < c {
      MagMono(d, c);
      if p > TWO52 {
        MagShift(p - 1, e);
        assert (p - 1) * Pow2(e) == p * Pow2(e) - Pow2(e);
        if d < c - 1 { MagMono(d, c - 1); }
      }
    }
  }

  /** Magnitude w is half of lo, or half of lo + u when the root is strictly above lo / 2:
      the midpoint between w and a neighbour m is on the far side of the root. */
  lemma NearestFrom(s: nat, lo: nat, u: nat, w: nat, m: nat)
    requires RootIn(s, lo, u) && (2 * w == lo || (2 * w == lo + u && Sq(lo) < 4 * s))
    ensures m >= w + u ==> Sq(m + w) > 4 * s
    ensures m < w && (2 * w == lo || m + u <= w) ==> Sq(m + w) < 4 * s
  {
    SquareMono(lo + u, m + w);
    SquareMono(m + w, lo);
  }

  lemma DirectedFrom(s: nat, lo: nat, u: nat, m: nat)
    requires RootIn(s, lo, u)
    ensures 2 * m <= lo ==> Sq(m) <= s
    ensures 2 * m >= lo + u ==> Sq(m) > s
    ensures 2 * m < lo || (2 * m == lo && Sq(lo) < 4 * s) ==> Sq(m) < s
    ensures 2 * m == lo && Sq(lo) == 4 * s ==> Sq(m) == s
  {
    assert Sq(2 * m) == 4 * Sq(m);
    SquareMono(2 * m, lo);
    SquareMono(lo + u, 2 * m);
  }

  lemma RootCorrectAt(s: nat, q: nat, exact: bool, e: nat, mode: Mode, d: nat)
    requires 2 * TWO52 <= q < 4 * TWO52 && RootIn(s, q * Pow2(e), Pow2(e))
    requires exact <==> Sq(q * Pow2(e)) == 4 * s
    requires exact ==> q % 2 == 0
    ensures RootAgainst(s, HalfRounded(q, exact, mode) + e * TWO52, mode, d)
  {
    var u, p := Pow2(e), HalfRounded(q, exact, mode);
    var lo := q * u;
    Neighbours(p, e, d);
    var w := p * u;
    Halving(q, p, u);
    match mode
    case Nearest => NearestFrom(s, lo, u, w, MagAt(d));
    case Down => DirectedFrom(s, lo, u, w); DirectedFrom(s, lo, u, MagAt(d));
    case Up => DirectedFrom(s, lo, u, w); DirectedFrom(s, lo, u, MagAt(d));
  }

  lemma Halving(q: nat, p: nat, u: nat)
    ensures q == 2 * p ==> 2 * (p * u) == q * u
    ensures q == 2 * p + 1 ==> 2 * (p * u) == q * u - u
    ensures q + 1 == 2 * p ==> 2 * (p * u) == q * u + u
    ensures q + 2 == 2 * p ==> 2 * (p * u) == q * u + 2 * u
  {
  }

  /** A root computed to 54 bits, rounded to 53 in the given mode, is the correctly rounded root. */
  lemma RootCorrect(s: nat, n: nat, q: nat, e: nat, mode: Mode)
    requires 2 * TWO52 <= q < 4 * TWO52 && q * q <= n < (q + 1) * (q + 1)
    requires 4 * s == n * (Pow2(e) * Pow2(e)) && (n == q * q ==> q % 2 == 0)
    ensures RoundedRoot(s, HalfRounded(q, n == q * q, mode) + e * TWO52, mode)
  {
    ScaleRoot(s, n, q, Pow2(e));
    var c := HalfRounded(q, n == q * q, mode) + e * TWO52;
    forall d: nat ensures RootAgainst(s, c, mode, d) {
      RootCorrectAt(s, q, n == q * q, e, mode, d);
    }
  }

  // ---- lines 117-130: normalisation ----

  /** Lines 120-123, on the wide value w = v * 2^(21 k). */
  lemma ShiftIn21(l: u32)
    ensures Or(0, Shr(l, 11)) == l / 0x800 && Shl(l, 21) == (l % 0x800) * 0x20_0000
    ensures Wide(l / 0x800, (l % 0x800) * 0x20_0000) == l * 0x20_0000
  {
    Pow2Values();
    ShrIsDiv(l, 11);
    ShlIsMul(l, 21);
    MulDivMod(l, 0x800, 0x20_0000);
  }

  /** `ix0 |= (ix1>>11); ix1 <<= 21` for a zero high word */
  method ShiftWords(l: u32) returns (ix0: u32, ix1: u32)
    ensures ix0 < 0x20_0000 && ix1 % 0x20_0000 == 0 && Wide(ix0, ix1) == l * 0x20_0000
  {
    ShiftIn21(l);
    ix0, ix1 := Or(0, Shr(l, 11)), Shl(l, 21);
  }

  method FillHighWord(x0: u32, x1: u32) returns (ix0: u32, ix1: u32, m: i32)
    requires x0 < 0x10_0000 && (x0 > 0 || x1 > 0)
    ensures 0 < ix0 < 0x20_0000 && -42 <= m <= 0
    ensures Wide(ix0, ix1) == Wide(x0, x1) * Pow2(-m)
    ensures ix0 >= 0x10_0000 ==> ix1 % 0x20_0000 == 0
  {
    ix0, ix1, m := x0, x1, 0;
    ghost var v, k := Wide(x0, x1), 0;
    while ix0 == 0
      invariant 0 <= k <= 2 && m == -21 * k && ix0 < 0x20_0000
      invariant k == 0 ==> ix0 == x0 && ix1 == x1
      invariant k == 1 ==> Wide(ix0, ix1) == v * 0x20_0000
      invariant k == 2 ==> Wide(ix0, ix1) == v * 0x400_0000_0000
      invariant k > 0 ==> ix1 % 0x20_0000 == 0
      decreases 2 - k
    {
      assert k < 2;
      m := m - 21;
      ix0, ix1 := ShiftWords(ix1);
      k := k + 1;
    }
    Pow2Values();
    Pow2Add(21, 21);
  }

  /** Line 124: shift the high word alone until bit 20 is set. */
  method ShiftToBit20(x0: u32) returns (ix0: u32, i: nat)
    requires 0 < x0 < 0x20_0000
    ensures i <= 20 && 0x10_0000 <= ix0 < 0x20_0000 && ix0 == x0 * Pow2(i)
  {
    ix0, i := x0, 0;
    Bit20(ix0);
    while And(ix0, 0x0010_0000) == 0
      invariant 0 < ix0 < 0x20_0000 && ix0 == x0 * Pow2(i)
      invariant And(ix0, 0x0010_0000) == 0 <==> ix0 < 0x10_0000
      decreases 0x20_0000 - ix0
    {
      Doubled(x0, Pow2(i));
      ShlOne(ix0);
      ix0 := Shl(ix0, 1);
      i := i + 1;
      Bit20(ix0);
    }
    ShiftCount(x0, i, ix0);
  }

  lemma ShiftCount(x: nat, i: nat, y: nat)
    requires x > 0 && y == x * Pow2(i) < 0x20_0000
    ensures i <= 20
  {
    MulMono(1, x, Pow2(i));
    Pow2Values();
    if i > 20 { Pow2Mono(21, i); assert false; }
  }

  /** Lines 120-128. `masked` says what the machine does with a shift count of 32, which
      C leaves undefined: use count 0, or shift everything out. */
  method NormalizeSubnormal(x0: u32, x1: u32, masked: bool) returns (ix0: u32, ix1: u32, m: i32)
    requires x0 < 0x10_0000 && (x0 > 0 || x1 > 0)
    ensures -61 <= m <= 1
    ensures Wide(0x10_0000 + ix0 % 0x10_0000, ix1) == Wide(x0, x1) * Pow2(1 - m)
  {
    ix0, ix1, m := FillHighWord(x0, x1);
    ghost var z0, e := ix0, -m;
    var i: nat;
    ix0, i := ShiftToBit20(ix0);
    m := m - (i - 1);
    assert 1 - m == e + i;
    if i == 0 {
      assert ix0 == z0;
      SpillIsMasked(ix0, ix1, masked);
      ix0 := Or(ix0, if masked then ix1 else 0);
    } else {
      ShiftedIn(Wide(x0, x1), z0, ix0, ix1, e, i);
      ix0, ix1 := Or(ix0, Shr(ix1, 32 - i)), Shl(ix1, i);
      assert 0x10_0000 + ix0 % 0x10_0000 == ix0;
    }
  }

  lemma ShiftedIn(v: int, z0: u32, y0: u32, z1: u32, e: nat, i: nat)
    requires Wide(z0, z1) == v * Pow2(e)
    requires 0 < i <= 20 && y0 == z0 * Pow2(i) && 0x10_0000 <= y0 < 0x20_0000
    ensures 0x10_0000 <= Or(y0, Shr(z1, 32 - i)) < 0x20_0000
    ensures Wide(Or(y0, Shr(z1, 32 - i)), Shl(z1, i)) == v * Pow2(e + i)
  {
    ShlWide(z0, z1, i);
    ShlStays(z0, z1, i);
    assert Wide(z0, z1) * Pow2(i) == v * Pow2(e + i) by {
      Pow2Add(e, i);
      Reassoc(v, Pow2(e), Pow2(i));
    }
  }

  /** Line 130 masks away whatever a shift by 32 left in the high word. */
  lemma SpillIsMasked(z0: u32, z1: u32, masked: bool)
    requires 0x10_0000 <= z0 < 0x20_0000 && z1 % 0x20_0000 == 0
    ensures 0x10_0000 + Or(z0, if masked then z1 else 0) % 0x10_0000 == z0
    ensures Or(z0, if masked then z1 else 0) < TWO32
  {
    var w: nat := if masked then z1 else 0;
    OrAbove21(z0, w, w / 0x20_0000);
  }

  lemma OrAbove21(z0: nat, w: nat, q: nat)
    requires 0x10_0000 <= z0 < 0x20_0000 && w == q * 0x20_0000
    ensures Or(z0, w) == z0 + w && (z0 + w) % 0x10_0000 == z0 - 0x10_0000
  {
    assert Or(z0, w) == z0 + w by {
      Pow2Values();
      OrDisjoint(w, q, z0, 21);
    }
    var f := z0 - 0x10_0000;
    assert z0 + w == (2 * q + 1) * 0x10_0000 + f;
    DivModUnique(z0 + w, 0x10_0000, 2 * q + 1, f);
  }

  lemma ShlStays(z0: u32, z1: u32, i: nat)
    requires 0 < i <= 20 && 0x10_0000 <= z0 * Pow2(i) < 0x20_0000
    ensures 0x10_0000 <= z0 * Pow2(i) + Shr(z1, 32 - i) < 0x20_0000
  {
    ShlParts(z1, i);
    assert 0x20_0000 == Pow2(21 - i) * Pow2(i) by { Pow2Add(21 - i, i); Pow2Values(); }
    NextMultiple(z0, Pow2(21 - i), Pow2(i));
  }

  lemma NextMultiple(a: nat, b: nat, p: nat)
    requires p > 0 && a * p < b * p
    ensures a * p + p <= b * p
  {
    MulCancel(b, a, p);
    MulMono(a + 1, b, p);
  }

  lemma NormalFromSubnormal(v: nat, x: int, m: int)
    requires 0 < v < TWO52 && TWO52 <= x < 2 * TWO52 && m <= 1 && x == v * Pow2(1 - m)
    ensures MagAt(v) == v && Normal(v, x, m - 1023)
  {
    assert m >= -51 by {
      MulMono(1, v, Pow2(1 - m));
      if m < -51 { Pow2Mono(53, 1 - m); Pow2Values(); assert false; }
    }
    assert TWO52 == Pow2(1 - m) * Pow2(m + 51) by { Pow2Add(1 - m, m + 51); Pow2Values(); }
    Reassoc(v, Pow2(1 - m), Pow2(m + 51));
  }

  method Normalize(x0: u32, x1: u32, masked: bool) returns (ix0: i32, ix1: u32, m: i32)
    requires x0 < 0x7ff0_0000 && (x0 > 0 || x1 > 0)
    ensures Normal(MagAt(Wide(x0, x1)), Wide(ix0, ix1), m)
  {
    var h: u32, l: u32;
    h, l, m := ToNormal(x0, x1, masked);
    m := m - 1023;
    ix0, ix1 := LeadingOne(h), l;
  }

  /** Lines 118-128. */
  method ToNormal(x0: u32, x1: u32, masked: bool) returns (h: u32, l: u32, m: i32)
    requires x0 < 0x7ff0_0000 && (x0 > 0 || x1 > 0)
    ensures Normal(MagAt(Wide(x0, x1)), Wide(0x10_0000 + h % 0x10_0000, l), m - 1023)
  {
    h, l, m := x0, x1, x0 / 0x10_0000;
    assert m == 0 <==> x0 < 0x10_0000;
    if m == 0 {
      h, l, m := NormalizeSubnormal(h, l, masked);
      NormalFromSubnormal(Wide(x0, x1), Wide(0x10_0000 + h % 0x10_0000, l), m);
    } else {
      NormalFromNormal(h, l);
    }
  }

  // ---- lines 131-139: an even exponent ----

  /** s = v * 2^1074 is what the root is taken of; y and h are the significand and halved exponent. */
  lemma EvenExponent(v: nat, x: int, m: int, y: int, h: int)
    requires Normal(v, x, m) && h == m / 2 && y == (if m % 2 == 1 then 2 * x else x)
    ensures -537 <= h <= 511 && TWO52 <= y < 4 * TWO52
    ensures 4 * (v * Pow2(1074)) == (y * 0x40_0000_0000_0000) * (Pow2(h + 1022) * Pow2(h + 1022))
  {
    var a := 2 * h + 1074;
    assert v * TWO52 == y * Pow2(a) by {
      if m % 2 == 1 { assert Pow2(m + 1074) == 2 * Pow2(a); Doubled(x, Pow2(a)); }
    }
    PowerIdentity(h, 1074);
    CrossScale(v, y, Pow2(a), Pow2(1074), 0x40_0000_0000_0000, Pow2(h + 1022) * Pow2(h + 1022), TWO52);
  }

  lemma PowerIdentity(h: int, w: nat)
    requires h >= -537 && w == 1074
    ensures 4 * (Pow2(2 * h + w) * Pow2(w)) == (0x40_0000_0000_0000 * TWO52) * (Pow2(h + 1022) * Pow2(h + 1022))
  {
    var a, b, k := 2 * h + w, h + 1022, 2 * w - 2042;
    Pow2Add(a, w);
    Pow2Add(b, b);
    assert Pow2(k) == 0x40_0000_0000_0000 * TWO52 by { Pow2Add(k - 52, 52); Pow2Values(); }
    Pow2Add(k, b + b);
    assert Pow2(a + w + 2) == 4 * Pow2(a + w);
  }

  lemma CrossScale(v: int, y: int, p: int, w: int, c: int, t: int, k: nat)
    requires k > 0 && v * k == y * p && 4 * (p * w) == (c * k) * t
    ensures 4 * (v * w) == (y * c) * t
  {
    assert (4 * (v * w)) * k == 4 * (w * (v * k));
    assert w * (y * p) == y * (p * w);
    assert 4 * (y * (p * w)) == y * (4 * (p * w));
    assert y * ((c * k) * t) == ((y * c) * t) * k by {
      Reassoc(y, c * k, t);
      Reassoc(y, c, k);
      assert ((y * c) * k) * t == ((y * c) * t) * k;
    }
    MulCancel(4 * (v * w), (y * c) * t, k);
  }

  // ---- lines 172-191: rounding and packing ----

  method RoundBits(ix0: i32, ix1: u32, a: i32, b: u32, mode: Mode) returns (q: i32, q1: u32)
    requires 0 <= ix0 && 0 <= a < 0x40_0000
    ensures a <= q <= 0x40_0000
    ensures Wide(q, q1) / 2 == HalfRounded(Wide(a, b), ix0 == 0 && ix1 == 0, mode)
  {
    q, q1 := a, b;
    assert Or(ix0, ix1) == 0 <==> ix0 == 0 && ix1 == 0 by { OrBounds(ix0, ix1); }
    if Or(ix0, ix1) != 0 {
      if mode != Down {              // one - tiny >= one
        q, q1 := RoundAway(a, b, mode == Up);
      }
    }
  }

  /** Lines 177-182; `up` is one + tiny > one. */
  method RoundAway(a: i32, b: u32, up: bool) returns (q: i32, q1: u32)
    requires 0 <= a < 0x40_0000
    ensures a <= q <= 0x40_0000
    ensures Wide(q, q1) / 2 == if up then Wide(a, b) / 2 + 1 else (Wide(a, b) + 1) / 2
  {
    HalfWide(a, b);
    q, q1 := a, b;
    if q1 == 0xffff_ffff {
      q1 := 0;
      q := q + 1;
    } else if up {
      if q1 == 0xffff_fffe { q := q + 1; }
      q1 := Wrap(q1 + 2);
    } else {
      MaskOdd(q1);
      q1 := q1 + And(q1, 1);
    }
    HalfWide(q, q1);
  }

  lemma HalfWide(h: int, l: u32)
    ensures Wide(h, l) / 2 == h * 0x8000_0000 + l / 2
    ensures (Wide(h, l) + 1) / 2 == h * 0x8000_0000 + (l + 1) / 2
  {
  }

  method Pack(q: i32, q1: u32, m: i32) returns (z: Double)
    requires 0x20_0000 <= q <= 0x40_0000 && -537 <= m <= 511
    ensures !Neg(z) && Code(z) == Wide(q, q1) / 2 + (0x3fe + m) * TWO52
  {
    var ix0: i32, ix1: u32 := q / 2 + 0x3fe0_0000, q1 / 2;
    MaskOdd(q);
    if And(q, 1) == 1 {
      assert Or(ix1, SIGN) == ix1 + SIGN by { Pow2Values(); OrDisjoint(SIGN, 1, ix1, 31); }
      ix1 := Or(ix1, SIGN);
    }
    ix0 := ix0 + m * 0x10_0000;
    z := Double(ix0, ix1);
  }

  /** The loops end with the integer square root of n, and their remainder words are zero
      exactly when it is exact. */
  lemma RootRange(y: nat, i: int, q: nat)
    requires TWO52 <= y < 4 * TWO52 && RootInv(y * 0x40_0000_0000_0000, i, q, 1)
    ensures 2 * TWO52 <= q < 4 * TWO52
    ensures i == 0 <==> y * 0x40_0000_0000_0000 == q * q
    ensures i == 0 ==> q % 2 == 0
  {
    if q < 2 * TWO52 { SquareMono(q + 1, 2 * TWO52); assert false; }
    if q >= 4 * TWO52 { SquareMono(4 * TWO52, q); assert false; }
    if q % 2 == 1 {
      assert q * q == 2 * (q * (q / 2)) + q;
    }
  }

  /** Lines 117-139: the aligned significand, doubled once more for the loops. */
  method Align(x0: u32, x1: u32, masked: bool) returns (ix0: i32, ix1: u32, m: i32, ghost y: nat)
    requires x0 < 0x7ff0_0000 && (x0 > 0 || x1 > 0)
    ensures TWO52 <= y < 4 * TWO52 && Wide(ix0, ix1) == 2 * y && -537 <= m <= 511
    ensures 4 * (MagAt(Wide(x0, x1)) * Pow2(1074))
         == (y * 0x40_0000_0000_0000) * (Pow2(m + 1022) * Pow2(m + 1022))
  {
    ix0, ix1, m := Normalize(x0, x1, masked);
    ghost var x, m0 := Wide(ix0, ix1), m;
    if m % 2 == 1 {
      TwiceIsDouble(ix0, ix1);
      ix0, ix1 := TwiceHigh(ix0, ix1), TwiceLow(ix1);
    }
    m := m / 2;
    y := Wide(ix0, ix1);
    EvenExponent(MagAt(Wide(x0, x1)), x, m0, y, m);
    TwiceIsDouble(ix0, ix1);
    ix0, ix1 := TwiceHigh(ix0, ix1), TwiceLow(ix1);
  }

  /** Lines 137-170: the two loops find the integer square root of n = y * 2^54, and leave
      zero in the remainder words exactly when it is exact. */
  method IntegerRoot(x0: i32, x1: u32, ghost y: nat)
    returns (q: i32, q1: u32, ix0: i32, ix1: u32, ghost n: nat, ghost w: nat)
    requires TWO52 <= y < 4 * TWO52 && Wide(x0, x1) == 2 * y
    ensures 0x20_0000 <= q < 0x40_0000 && 0 <= ix0
    ensures n == y * 0x40_0000_0000_0000 && w == Wide(q, q1)
    ensures w * w <= n < (w + 1) * (w + 1)
    ensures ix0 == 0 && ix1 == 0 <==> n == w * w
    ensures ix0 == 0 && ix1 == 0 ==> w % 2 == 0
  {
    var s0: i32;
    ix0, ix1, s0, q := HighBits(x0, x1, y);
    ix0, ix1, q1 := LowBits(ix0, ix1, s0, q, y * 0x40_0000_0000_0000);
    n, w := y * 0x40_0000_0000_0000, Wide(q, q1);
    RootRange(y, Wide(ix0, ix1), w);
    RemainderBound(n, Wide(ix0, ix1), w, 1);
  }

  method PositiveRoot(x0: u32, x1: u32, mode: Mode, masked: bool) returns (z: Double)
    requires x0 < 0x7ff0_0000 && (x0 > 0 || x1 > 0)
    ensures !Neg(z) && TWO52 <= Code(z) < INF
    ensures RoundedRoot(MagAt(Wide(x0, x1)) * Pow2(1074), Code(z), mode)
  {
    ghost var s := MagAt(Wide(x0, x1)) * Pow2(1074);
    var ix0, ix1, m, y := Align(x0, x1, masked);
    var q, q1;
    ghost var n, w;
    q, q1, ix0, ix1, n, w := IntegerRoot(ix0, ix1, y);
    RootCorrect(s, n, w, m + 1022, mode);
    q, q1 := RoundBits(ix0, ix1, q, q1, mode);
    z := Pack(q, q1, m);
  }

  lemma SquareOfSpecial(x: Double)
    requires !Finite(x)
    ensures FAdd(FMul(x, x), x) == if IsNaN(x) || Neg(x) then NAN else x
  {
    if IsInf(x) && !Neg(x) { SameBits(FMul(x, x), x); }
  }

  /** __ieee754_sqrt: the correctly rounded square root, section 5.2 of IEEE 754-1985. */
  method Sqrt(x: Double, mode: Mode, masked: bool) returns (z: Double)
    ensures IsNaN(x) || (Neg(x) && !IsZero(x)) ==> IsNaN(z)
    ensures IsZero(x) || (IsInf(x) && !Neg(x)) ==> z == x
    ensures Finite(x) && !Neg(x) && !IsZero(x) ==>
      !Neg(z) && TWO52 <= Code(z) < INF && RoundedRoot(Mag(x) * Pow2(1074), Code(z), mode)
  {
    var ix0: i32, ix1: u32 := ToInt(x.hi), x.lo;
    HighWord(x);
    if ExponentFull(x.hi) {
      SquareOfSpecial(x);
      return FAdd(FMul(x, x), x);
    }
    if ix0 <= 0 {
      if WordsZero(x.hi, ix1) {
        return x;
      } else if ix0 < 0 {
        return NAN;
      }
    }
    z := PositiveRoot(ix0, ix1, mode, masked);
  }

  // ---- lines 174-178: the probe ----

  /** A number less than half a unit in the last place of one away from it rounds to one. */
  lemma NearOne(v: int, x: Double, w: nat, h: nat)
    requires w == 1074 && !Neg(x) && Code(x) == TWO52 + (w - 52) * TWO52
    requires h == Pow2(w - 54) && Pow2(w) - h < v < Pow2(w) + h
    ensures RoundValue(v, 0, false) == x
  {
    var c := Code(x);
    assert MagAt(c) == Pow2(w) by { MagShift(TWO52, w - 52); Pow2Add(52, w - 52); Pow2Values(); }
    assert Ulp(c - 1) == 2 * h by { MagShift(2 * TWO52 - 1, w - 53); }
    assert h <= Pow2(w) by { Pow2Mono(w - 54, w); }
    RoundBack(v, c);
    SameBits(RoundValue(v, 0, false), x);
  }

  lemma AddNearOne(x: Double, y: Double, w: nat, h: nat)
    requires w == 1074 && !Neg(x) && Code(x) == TWO52 + (w - 52) * TWO52 && h == Pow2(w - 54)
    requires Finite(y) && Mag(y) < h
    ensures FAdd(x, y) == x
  {
    assert Value(x) == Pow2(w) by { MagShift(TWO52, w - 52); Pow2Add(52, w - 52); Pow2Values(); }
    var v := Value(x) + Value(y);
    NearOne(v, x, w, h);
    AddRounds(x, y, v, x);
  }

  lemma TinyNextToOne(w: nat)
    requires w == 1074
    ensures FSub(ONE, Scalbn.TINY) == ONE && FAdd(ONE, Scalbn.TINY) == ONE
  {
    Scalbn.TinyIsSmall(25);
    Pow2Mono(78, w - 54);
    AddNearOne(ONE, Scalbn.TINY, w, Pow2(w - 54));
    AddNearOne(ONE, Negate(Scalbn.TINY), w, Pow2(w - 54));
  }

  /** What `one-tiny` and `one+tiny` find when additions round to nearest. */
  method Probe() returns (mode: Mode)
    ensures mode == Nearest
  {
    TinyNextToOne(1074);
    mode := Down;
    var z := FSub(ONE, Scalbn.TINY);
    if FAtMost(ONE, z) {
      z := FAdd(ONE, Scalbn.TINY);
      mode := if FLess(ONE, z) then Up else Nearest;
    }
  }

  /** In the default rounding mode the probe is computed, and the root is rounded to nearest. */
  method SqrtNearest(x: Double, masked: bool) returns (z: Double)
    ensures IsNaN(x) || (Neg(x) && !IsZero(x)) ==> IsNaN(z)
    ensures IsZero(x) || (IsInf(x) && !Neg(x)) ==> z == x
    ensures Finite(x) && !Neg(x) && !IsZero(x) ==>
      !Neg(z) && TWO52 <= Code(z) < INF && RoundedRoot(Mag(x) * Pow2(1074), Code(z), Nearest)
    ensures Finite(x) && !Neg(x) && !IsZero(x) ==>
      var m, u := Mag(z), Ulp(Code(z));
      (2 * m - u) * (2 * m - u) < 4 * (Mag(x) * Pow2(1074)) < (2 * m + u) * (2 * m + u)
  {
    var mode := Probe();
    z := Sqrt(x, mode, masked);
    if Finite(x) && !Neg(x) && !IsZero(x) {
      NearestError(Mag(x) * Pow2(1074), Code(z), Mag(z), Ulp(Code(z)));
    }
  }
}
