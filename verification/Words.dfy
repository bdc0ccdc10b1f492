/** The machine words of the C sources and the operators applied to them.

    A word is a mathematical integer in range, so a signed assignment that could
    overflow is a verification failure, and every place where the code relies on
    wrap-around says `Wrap`. The bit operators are defined bit by bit; the lemmas
    below turn the masks the code uses into quotients and remainders. */
module Words {
  import opened Arith

  const TWO32: nat := 0x1_0000_0000
  const SIGN: nat := 0x8000_0000

  type u32 = x: int | 0 <= x < 0x1_0000_0000
  type u16 = x: int | 0 <= x < 0x1_0000
  type i32 = x: int | -0x8000_0000 <= x < 0x8000_0000

  /** Conversion of any integer to `unsigned`. */
  function Wrap(x: int): (w: u32) { x % TWO32 }

  /** Conversion of any integer to `int`, two's complement. */
  function ToInt(x: int): (s: i32)
    ensures Wrap(s) == Wrap(x)
  {
    var w := x % TWO32;
    if w < SIGN then w else
      ModAddMul(w, -1, TWO32);
      w - TWO32
  }

  /** Two words as one 64-bit quantity. */
  function Wide(h: int, l: u32): (w: int) { h * TWO32 + l }

  function And(x: nat, y: nat): (r: nat)
    decreases x
  {
    if x == 0 || y == 0 then 0
    else 2 * And(x / 2, y / 2) + (if x % 2 == 1 && y % 2 == 1 then 1 else 0)
  }

  function Or(x: nat, y: nat): (r: nat)
    decreases x
  {
    if x == 0 then y else if y == 0 then x
    else 2 * Or(x / 2, y / 2) + (if x % 2 == 1 || y % 2 == 1 then 1 else 0)
  }

  function Xor(x: nat, y: nat): (r: nat)
    decreases x
  {
    if x == 0 then y else if y == 0 then x
    else 2 * Xor(x / 2, y / 2) + (if x % 2 != y % 2 then 1 else 0)
  }

  /** Shifts on `unsigned`, one bit at a time. */
  function Shl(x: u32, k: nat): (r: u32)
  {
    if k == 0 then x else Wrap(2 * Shl(x, k - 1))
  }

  function Shr(x: u32, k: nat): (r: u32)
  {
    if k == 0 then x else Shr(x, k - 1) / 2
  }

  lemma {:induction false} ShlIsMul(x: u32, k: nat)
    ensures Shl(x, k) == (x * Pow2(k)) % TWO32
    decreases k
  {
    if k != 0 {
      ShlIsMul(x, k - 1);
      var y := x * Pow2(k - 1);
      assert x * Pow2(k) == 2 * y by { Doubled(x, Pow2(k - 1)); }
      assert (2 * (y % TWO32)) % TWO32 == (2 * y) % TWO32 by { ModAddMul(2 * (y % TWO32), 2 * (y / TWO32), TWO32); }
    }
  }

  lemma {:induction false} ShlExact(x: u32, k: nat, y: nat)
    requires y == x * Pow2(k) < TWO32
    ensures Shl(x, k) == y
    decreases k
  {
    if k != 0 {
      Doubled(x, Pow2(k - 1));
      ShlExact(x, k - 1, x * Pow2(k - 1));
    }
  }

  lemma {:induction false} ShrIsDiv(x: u32, k: nat)
    ensures Shr(x, k) == x / Pow2(k)
    decreases k
  {
    if k != 0 {
      ShrIsDiv(x, k - 1);
      DivDiv(x, Pow2(k - 1), 2);
    }
  }

  lemma DivShrinks(x: nat, k: nat)
    ensures 0 <= x / Pow2(k) <= x
  {
    var q, p := x / Pow2(k), Pow2(k);
    assert x == q * p + x % p;
    if q < 0 { MulMono(q, -1, p); assert false; }
    MulMono(1, p, q);
  }

  // ---- bit operators, split at a bit position ----

  /** The word with `l` in its low k bits and `h` above them, built bit by bit. */
  ghost function Join(h: nat, l: nat, k: nat): (x: nat)
  {
    if k == 0 then h else 2 * Join(h, l / 2, k - 1) + l % 2
  }

  lemma {:induction false} JoinIsSum(h: nat, l: nat, k: nat)
    requires l < Pow2(k)
    ensures Join(h, l, k) == h * Pow2(k) + l
    decreases k
  {
    if k != 0 {
      JoinIsSum(h, l / 2, k - 1);
      Doubled(h, Pow2(k - 1));
    }
  }

  lemma Doubled(h: int, p: int)
    ensures h * (2 * p) == 2 * (h * p)
  {
  }

  lemma AndStep(x: nat, a: nat, i: nat, y: nat, b: nat, j: nat)
    requires i < 2 && j < 2 && x == 2 * a + i && y == 2 * b + j
    ensures And(x, y) / 2 == And(a, b) && And(x, y) % 2 == if i == 1 && j == 1 then 1 else 0
  {
    assert x / 2 == a && y / 2 == b;
  }

  lemma {:induction false} AndJoin(xh: nat, xl: nat, yh: nat, yl: nat, k: nat)
    requires xl < Pow2(k) && yl < Pow2(k)
    ensures And(Join(xh, xl, k), Join(yh, yl, k)) == Join(And(xh, yh), And(xl, yl), k)
    ensures And(xl, yl) < Pow2(k)
    decreases k
  {
    if k != 0 {
      AndJoin(xh, xl / 2, yh, yl / 2, k - 1);
      var i, j := xl % 2, yl % 2;
      AndStep(Join(xh, xl, k), Join(xh, xl / 2, k - 1), i, Join(yh, yl, k), Join(yh, yl / 2, k - 1), j);
      AndStep(xl, xl / 2, i, yl, yl / 2, j);
    }
  }

  lemma {:induction false} OrJoin(xh: nat, xl: nat, yh: nat, yl: nat, k: nat)
    requires xl < Pow2(k) && yl < Pow2(k)
    ensures Or(Join(xh, xl, k), Join(yh, yl, k)) == Join(Or(xh, yh), Or(xl, yl), k)
    ensures Or(xl, yl) < Pow2(k)
    decreases k
  {
    if k != 0 { OrJoin(xh, xl / 2, yh, yl / 2, k - 1); }
  }

  lemma XorStep(a: nat, i: nat, b: nat)
    requires i < 2
    ensures Xor(2 * a + i, 2 * b) == 2 * Xor(a, b) + i
  {
    assert (2 * a + i) / 2 == a && (2 * b) / 2 == b;
  }

  /** Only the bits from k up are flipped by a word that is zero below. */
  lemma {:induction false} XorJoin(xh: nat, xl: nat, yh: nat, k: nat)
    ensures Xor(Join(xh, xl, k), Join(yh, 0, k)) == Join(Xor(xh, yh), xl, k)
    decreases k
  {
    if k != 0 {
      XorJoin(xh, xl / 2, yh, k - 1);
      XorStep(Join(xh, xl / 2, k - 1), xl % 2, Join(yh, 0, k - 1));
    }
  }

  lemma AndSplit(x: nat, xh: nat, xl: nat, y: nat, yh: nat, yl: nat, k: nat)
    requires x == xh * Pow2(k) + xl && y == yh * Pow2(k) + yl
    requires xl < Pow2(k) && yl < Pow2(k)
    ensures And(x, y) == And(xh, yh) * Pow2(k) + And(xl, yl)
  {
    JoinIsSum(xh, xl, k);
    JoinIsSum(yh, yl, k);
    AndJoin(xh, xl, yh, yl, k);
    JoinIsSum(And(xh, yh), And(xl, yl), k);
  }

  // ---- masks ----

  /** A mask of k ones keeps the low k bits. */
  lemma {:induction false} AndLowJoin(h: nat, l: nat, k: nat)
    requires l < Pow2(k)
    ensures And(Join(h, l, k), Pow2(k) - 1) == l
    decreases k
  {
    if k != 0 { AndLowJoin(h, l / 2, k - 1); }
  }

  lemma AndLowMask(x: nat, h: nat, l: nat, k: nat)
    requires x == h * Pow2(k) + l && l < Pow2(k)
    ensures And(x, Pow2(k) - 1) == l
  {
    JoinIsSum(h, l, k);
    AndLowJoin(h, l, k);
  }

  /** The complement of k ones in a 32-bit word clears the low k bits. */
  lemma AndNotLowMask(x: u32, h: nat, l: nat, k: nat)
    requires k <= 32 && x == h * Pow2(k) + l && l < Pow2(k)
    ensures Pow2(k) <= TWO32
    ensures And(x, TWO32 - Pow2(k)) == x - l
  {
    var p, g := Pow2(k), Pow2(32 - k);
    assert p <= TWO32 && g * p == TWO32 by {
      Pow2Values();
      Pow2Mono(k, 32);
      Pow2Add(32 - k, k);
    }
    HighOnes(g, p, h, l, x);
    assert And(h, g - 1) == h by { AndLowMask(h, 0, h, 32 - k); }
    assert And(x, TWO32 - p) == h * p by { AndSplit(x, h, l, TWO32 - p, g - 1, 0, k); }
  }

  lemma HighOnes(g: nat, p: nat, h: nat, l: nat, x: u32)
    requires g > 0 && p > 0 && g * p == TWO32 && x == h * p + l && l < p
    ensures TWO32 - p == (g - 1) * p && h < g
  {
    assert (g - 1) * p == g * p - p;
    if h >= g { MulMono(g, h, p); assert false; }
  }

  // The masks that take the sign, the exponent field and the fraction of a high word apart.

  lemma MaskMagnitude(x: u32)
    ensures And(x, 0x7fff_ffff) == x % SIGN
  {
    Pow2Values();
    AndLowMask(x, x / SIGN, x % SIGN, 31);
  }

  lemma MaskSign(x: u32)
    ensures And(x, 0x8000_0000) == if x >= SIGN then SIGN else 0
  {
    Pow2Values();
    AndSplit(x, x / SIGN, x % SIGN, 0x8000_0000, 1, 0, 31);
    AndLowMask(x / SIGN, 0, x / SIGN, 1);
  }

  lemma MaskFraction(x: u32)
    ensures And(x, 0x000f_ffff) == x % 0x10_0000
  {
    Pow2Values();
    AndLowMask(x, x / 0x10_0000, x % 0x10_0000, 20);
  }

  lemma MaskSignFraction(x: u32)
    ensures And(x, 0x800f_ffff) == (if x >= SIGN then SIGN else 0) + x % 0x10_0000
  {
    var s, r: nat := x / SIGN, x % SIGN;
    assert And(x, 0x800f_ffff) == And(s, 1) * SIGN + And(r, 0xf_ffff) by {
      Pow2Values();
      AndSplit(x, s, r, 0x800f_ffff, 1, 0xf_ffff, 31);
    }
    assert And(s, 1) == s by { AndLowMask(s, 0, s, 1); }
    assert And(r, 0xf_ffff) == r % 0x10_0000 by { MaskFraction(r); }
    TwentyBits(x, s, r);
  }

  lemma TwentyBits(x: int, s: int, r: int)
    requires x == s * SIGN + r
    ensures x % 0x10_0000 == r % 0x10_0000
  {
    ModAddMul(r, 0x800 * s, 0x10_0000);
  }

  lemma MaskExponent(x: u32)
    ensures And(x, 0x7ff0_0000) == ((x % SIGN) / 0x10_0000) * 0x10_0000
  {
    var e, f: nat := x / 0x10_0000, x % 0x10_0000;
    assert And(x, 0x7ff0_0000) == And(e, 0x7ff) * 0x10_0000 by {
      Pow2Values();
      AndSplit(x, e, f, 0x7ff0_0000, 0x7ff, 0, 20);
    }
    assert And(e, 0x7ff) == e % 0x800 by { ElevenBits(e); }
    assert (x % SIGN) / 0x10_0000 == e % 0x800 by { ExponentBits(x, e, f); }
  }

  lemma ElevenBits(e: nat)
    ensures And(e, 0x7ff) == e % 0x800
  {
    Pow2Values();
    AndLowMask(e, e / 0x800, e % 0x800, 11);
  }

  lemma ExponentBits(x: nat, e: nat, f: nat)
    requires x == e * 0x10_0000 + f && f < 0x10_0000
    ensures (x % SIGN) / 0x10_0000 == e % 0x800
  {
    var q, k := e / 0x800, e % 0x800;
    DivModUnique(x, SIGN, q, k * 0x10_0000 + f);
    DivModUnique(k * 0x10_0000 + f, 0x10_0000, k, f);
  }

  lemma MaskOdd(x: u32)
    ensures And(x, 1) == x % 2
  {
    AndLowMask(x, x / 2, x % 2, 1);
  }

  lemma Bit20(x: u32)
    requires x < 0x20_0000
    ensures And(x, 0x0010_0000) == 0 <==> x < 0x10_0000
  {
    var e := x / 0x10_0000;
    assert And(x, 0x0010_0000) == And(e, 1) * 0x10_0000 by {
      Pow2Values();
      AndSplit(x, e, x % 0x10_0000, 0x0010_0000, 1, 0, 20);
    }
  }

  /** `(x & sign) != 0` */
  predicate SignBit(x: u32)
    ensures SignBit(x) <==> x >= SIGN
  {
    MaskSign(x);
    And(x, 0x8000_0000) == 0x8000_0000
  }

  lemma ShlOne(x: u32)
    requires x < SIGN
    ensures Shl(x, 1) == 2 * x
  {
    assert Shl(x, 0) == x;
  }

  /** `(l & sign) >> 31`, the bit that doubling a low word carries out. */
  function TopBit(l: u32): (b: nat)
    ensures b == if l >= SIGN then 1 else 0
  {
    MaskSign(l);
    And(l, 0x8000_0000) / 0x8000_0000
  }

  /** `h += h + ((l & sign) >> 31); l += l` doubles a two-word quantity. */
  function TwiceHigh(h: int, l: u32): (r: int) { h + h + TopBit(l) }
  function TwiceLow(l: u32): (r: u32)
  {
    var n: int := l;
    Wrap(n + n)
  }

  lemma TwiceIsDouble(h: int, l: u32)
    ensures Wide(TwiceHigh(h, l), TwiceLow(l)) == 2 * Wide(h, l)
  {
  }

  /** Or of a word whose low k bits are clear and a word below 2^k is their sum. */
  lemma OrDisjoint(x: nat, h: nat, l: nat, k: nat)
    requires x == h * Pow2(k) && l < Pow2(k)
    ensures Or(x, l) == x + l
    ensures Or(l, x) == x + l
  {
    JoinIsSum(h, 0, k);
    JoinIsSum(0, l, k);
    JoinIsSum(h, l, k);
    OrJoin(h, 0, 0, l, k);
    OrJoin(0, l, h, 0, k);
  }

  /** `(l | -l) >> 31` is 1 exactly when l is not zero. */
  function NonZeroBit(l: u32): (b: u32)
    ensures b == if l == 0 then 0 else 1
  {
    NegationBits(l, Minus(l));
    Shr(Or(l, Minus(l)), 31)
  }

  /** `-l` on `unsigned` */
  function Minus(l: u32): (m: u32)
    ensures m == if l == 0 then 0 else TWO32 - l
  {
    var n: int := l;
    Wrap(-n)
  }

  lemma NegationBits(l: u32, m: u32)
    requires m == if l == 0 then 0 else TWO32 - l
    ensures Or(l, m) < TWO32
    ensures Shr(Or(l, m), 31) == if l == 0 then 0 else 1
  {
    var w := Or(l, m);
    assert w >= l && w >= m && (w == 0 <==> l == 0 && m == 0) by { OrBounds(l, m); }
    assert w < TWO32 by { Pow2Values(); OrUpper(l, m, 32); }
    assert Shr(w, 31) == w / SIGN by { Pow2Values(); ShrIsDiv(w, 31); }
  }

  lemma OrOne(h: nat)
    ensures Or(h, 1) == h + 1 - h % 2
  {
    if h != 0 { assert Or(h / 2, 0) == h / 2; }
  }

  /** `hi & 0x7fffffff` */
  function AbsHigh(hi: u32): (h: u32)
    ensures h == hi % SIGN
  {
    MaskMagnitude(hi);
    And(hi, 0x7fff_ffff)
  }

  /** `hi & 0x80000000` */
  function SignOf(hi: u32): (s: u32)
    ensures s == if hi >= SIGN then SIGN else 0
  {
    MaskSign(hi);
    And(hi, 0x8000_0000)
  }

  /** `hi ^ s` for a sign word s */
  function FlipSign(hi: u32, s: u32): (h: u32)
    requires s == 0 || s == SIGN
    ensures h == if s == 0 then hi else if hi < SIGN then hi + SIGN else hi - SIGN
  {
    XorSign(hi, s);
    Xor(hi, s)
  }

  /** `(a | b) == 0` */
  predicate BothZero(a: u32, b: u32)
    ensures BothZero(a, b) <==> a == 0 && b == 0
  {
    OrBounds(a, b);
    Or(a, b) == 0
  }

  /** `0x00100000 | (0x000fffff & h)`: the fraction of a high word with its leading bit. */
  function LeadingOne(h: u32): (r: u32)
    ensures r == 0x10_0000 + h % 0x10_0000
  {
    MaskFraction(h);
    assert Or(0x0010_0000, h % 0x10_0000) == 0x10_0000 + h % 0x10_0000 by {
      Pow2Values();
      OrDisjoint(0x10_0000, 1, h % 0x10_0000, 20);
    }
    Or(0x0010_0000, And(h, 0x000f_ffff))
  }

  // Half-words of a word: `w & 0xffff`, `w >> 16` and `h | (l << 16)`.

  function LowHalf(w: u32): (h: u16)
    ensures h == w % 0x1_0000
  {
    assert And(w, 0xffff) == w % 0x1_0000 by {
      Pow2Values();
      AndLowMask(w, w / 0x1_0000, w % 0x1_0000, 16);
    }
    And(w, 0xffff)
  }

  function HighHalf(w: u32): (h: u16)
    ensures h == w / 0x1_0000
  {
    assert Shr(w, 16) == w / 0x1_0000 by { Pow2Values(); ShrIsDiv(w, 16); }
    Shr(w, 16)
  }

  function HalvesJoined(h: u16, l: u16): (w: u32)
    ensures w == h + l * 0x1_0000
  {
    assert Pow2(16) == 0x1_0000 by { Pow2Values(); }
    ShlExact(l, 16, l * 0x1_0000);
    OrDisjoint(l * 0x1_0000, l, h, 16);
    Or(h, Shl(l, 16))
  }

  /** Putting a sign bit on a word that has none. */
  lemma OrSign(h: u32, s: u32)
    requires h < SIGN && (s == 0 || s == SIGN)
    ensures Or(h, s) == h + s
  {
    if s == SIGN { Pow2Values(); OrDisjoint(s, 1, h, 31); }
  }

  lemma {:induction false} OrSelf(x: nat)
    ensures Or(x, x) == x
    decreases x
  {
    if x != 0 { OrSelf(x / 2); }
  }

  lemma {:induction false} OrBounds(x: nat, y: nat)
    ensures Or(x, y) >= x && Or(x, y) >= y
    ensures Or(x, y) == 0 <==> x == 0 && y == 0
    decreases x
  {
    if x != 0 && y != 0 { OrBounds(x / 2, y / 2); }
  }

  /** Or of two words below 2^k is below 2^k. */
  lemma {:induction false} OrUpper(x: nat, y: nat, k: nat)
    requires x < Pow2(k) && y < Pow2(k)
    ensures Or(x, y) < Pow2(k)
    decreases k
  {
    if x != 0 && y != 0 { OrUpper(x / 2, y / 2, k - 1); }
  }

  lemma FlipTop(h: nat, l: nat, k: nat)
    requires h < 2 && l < Pow2(k)
    ensures Xor(h * Pow2(k) + l, Pow2(k)) == (1 - h) * Pow2(k) + l
  {
    JoinIsSum(h, l, k);
    JoinIsSum(1, 0, k);
    XorJoin(h, l, 1, k);
    assert Xor(h, 1) == 1 - h;
    JoinIsSum(1 - h, l, k);
  }

  /** Flipping the sign bit. */
  lemma XorSign(x: u32, s: u32)
    requires s == 0 || s == SIGN
    ensures Xor(x, s) == if s == 0 then x else if x < SIGN then x + SIGN else x - SIGN
  {
    if s != 0 {
      Pow2Values();
      FlipTop(x / SIGN, x % SIGN, 31);
    }
  }

  lemma SplitProduct(l: nat, g: nat, p: nat, t: nat)
    requires g > 0 && p > 0 && g * p == t && l < t
    ensures l / g < p && (l * p) / t == l / g && (l * p) % t == (l % g) * p
  {
    MulDivMod(l, g, p);
    if l / g >= p { MulMono(p, l / g, g); assert false; }
  }

  /** The low word of a left shift, and the bits it hands to the high word. */
  lemma ShlParts(l: u32, i: nat)
    requires 0 < i < 32
    ensures Shr(l, 32 - i) < Pow2(i)
    ensures l * Pow2(i) == Shr(l, 32 - i) * TWO32 + Shl(l, i)
    ensures Shl(l, i) == (l % Pow2(32 - i)) * Pow2(i)
  {
    assert Pow2(32 - i) * Pow2(i) == TWO32 by { Pow2Add(32 - i, i); Pow2Values(); }
    SplitProduct(l, Pow2(32 - i), Pow2(i), TWO32);
    ShlIsMul(l, i);
    ShrIsDiv(l, 32 - i);
  }

  /** Shifting a two-word quantity left by i bits. */
  lemma ShlWide(h: nat, l: u32, i: nat)
    requires 0 < i < 32
    ensures h * Pow2(i) >= 0
    ensures Or(h * Pow2(i), Shr(l, 32 - i)) == h * Pow2(i) + Shr(l, 32 - i)
    ensures Wide(h * Pow2(i) + Shr(l, 32 - i), Shl(l, i)) == Wide(h, l) * Pow2(i)
  {
    ShlParts(l, i);
    OrDisjoint(h * Pow2(i), h, Shr(l, 32 - i), i);
    WideTimes(h, l, Pow2(i));
  }

  lemma WideTimes(h: int, l: u32, p: nat)
    ensures Wide(h, l) * p == (h * p) * TWO32 + l * p
  {
  }

  /** Shifting a two-word quantity right by n bits; the low n bits are lost. */
  lemma ShrWide(h: u32, l: u32, n: nat) returns (r: nat)
    requires 0 < n < 32
    ensures Or(Shl(h, 32 - n), Shr(l, n)) == Or(Shr(l, n), Shl(h, 32 - n)) == Shl(h, 32 - n) + Shr(l, n) < TWO32
    ensures r == Shr(h, n) * TWO32 + Shl(h, 32 - n) + Shr(l, n)
    ensures r * Pow2(n) + l % Pow2(n) == Wide(h, l)
  {
    var p, g := Pow2(n), Pow2(32 - n);
    var a: int, b: nat, c: nat := Shr(h, n), Shl(h, 32 - n), Shr(l, n);
    assert g * p == TWO32 by { Pow2Add(32 - n, n); Pow2Values(); }
    assert b == (h % p) * g by { ShlParts(h, 32 - n); }
    assert a == h / p by { ShrIsDiv(h, n); }
    assert c == l / p < g by { ShrIsDiv(l, n); SplitProduct(l, p, g, TWO32); }
    assert Or(b, c) == b + c && Or(c, b) == b + c by { OrDisjoint(b, h % p, c, 32 - n); }
    r := a * TWO32 + b + c;
    RightShiftSum(h, l, p, g, a, b, c, r);
  }

  lemma RightShiftSum(h: u32, l: u32, p: nat, g: nat, a: int, b: int, c: int, s: int)
    requires p > 0 && g > 0 && g * p == TWO32
    requires a == h / p && b == (h % p) * g && c == l / p && c < g && s == a * TWO32 + b + c
    ensures b + c < TWO32
    ensures s * p + l % p == Wide(h, l)
  {
    var r := h % p;
    assert h == a * p + r && l == c * p + l % p;
    assert b + g <= TWO32 by {
      MulMono(r + 1, p, g);
      assert (r + 1) * g == b + g;
    }
    assert s * p == (a * p) * TWO32 + b * p + c * p;
    assert b * p == r * TWO32 by { Reassoc(r, g, p); }
  }
}
