/** bench/tools/fdlibm/s_ilogb.c, whose loops e_fmod.c repeats for both operands. */
module Ilogb {
  import opened Arith
  import opened Words
  import opened Ieee

  /** ix is the integer part of the binary logarithm of v units. */
  ghost predicate IsIlogb(v: nat, ix: int)
  {
    ix >= -1074 && Pow2(ix + 1074) <= v < 2 * Pow2(ix + 1074)
  }

  lemma IlogbUnique(v: nat, a: int, b: int)
    requires IsIlogb(v, a) && IsIlogb(v, b)
    ensures a == b
  {
    if a < b { Pow2Mono(a + 1074, b + 1074); }
    if b < a { Pow2Mono(b + 1074, a + 1074); }
  }

  /** Larger magnitudes have no smaller logarithm. */
  lemma IlogbMono(v: nat, a: int, w: nat, b: int)
    requires v <= w && IsIlogb(v, a) && IsIlogb(w, b)
    ensures a <= b
  {
    if b < a { Pow2Mono(b + 1074, a + 1074); }
  }

  /** If k shifts bring the leading bit of x to position t, it was at t - k. */
  lemma LeadingBit(x: nat, k: nat, t: nat)
    requires Pow2(t) <= x * Pow2(k) < 2 * Pow2(t)
    ensures k <= t && Pow2(t - k) <= x < 2 * Pow2(t - k)
  {
    if k > t {
      Pow2Mono(t, k);
      if x > 0 { MulMono(1, x, Pow2(k)); }
      assert false;
    }
    var p, g := Pow2(k), Pow2(t - k);
    assert g * p == Pow2(t) by { Pow2Add(t - k, k); }
    MulCancel(g, x, p);
    assert (2 * g) * p == 2 * (g * p);
    MulCancel(2 * g, x, p);
  }

  /** `for (; i>0; i<<=1) ix -= 1` on a signed word: i moves up until its sign bit is set. */
  method ShiftToSign(w: u32, start: i32) returns (ix: i32)
    requires w > 0 && start >= -1043
    ensures var t := 31 + (ix - start); 0 <= t <= 31 && Pow2(t) <= w < 2 * Pow2(t)
  {
    var i: u32 := w;
    ix := start;
    ghost var k: nat := 0;
    while ToInt(i) > 0
      invariant i > 0 && i == w * Pow2(k) && ix == start - k && k <= 31
      decreases TWO32 - i
    {
      ShlOne(i);
      Doubled(w, Pow2(k));
      ShiftsLeft(w, i, k);
      i := Shl(i, 1);
      ix := ix - 1;
      k := k + 1;
    }
    Pow2Values();
    LeadingBit(w, k, 31);
  }

  lemma ShiftsLeft(w: u32, i: u32, k: nat)
    requires 0 < w && i == w * Pow2(k) < SIGN
    ensures k < 31
  {
    MulMono(1, w, Pow2(k));
    if k >= 31 { Pow2Mono(31, k); Pow2Values(); assert false; }
  }

  /** Lines 37-41. */
  method SubnormalIlogb(h: u32, l: u32) returns (ix: i32)
    requires h < 0x10_0000 && (h > 0 || l > 0)
    ensures IsIlogb(Wide(h, l), ix)
  {
    if h == 0 {
      ix := ShiftToSign(l, -1043);
    } else {
      assert Shl(h, 11) == h * 0x800 by { Pow2Values(); ShlExact(h, 11, h * 0x800); }
      ix := ShiftToSign(Shl(h, 11), -1022);
      InHighWord(h, l, 31 + (ix + 1022));
    }
  }

  lemma InHighWord(h: u32, l: u32, t: nat)
    requires 0 < h && Pow2(t) <= h * 0x800 < 2 * Pow2(t)
    ensures t >= 11 && Pow2(t + 21) <= Wide(h, l) < 2 * Pow2(t + 21)
  {
    Pow2Values();
    if t < 11 { Pow2Mono(t + 1, 11); assert false; }
    Pow2Add(t - 11, 11);
    Pow2Add(t - 11, 32);
    assert Pow2(t - 11) <= h < 2 * Pow2(t - 11);
  }

  lemma NormalIlogb(h: u32, l: u32)
    requires 0x10_0000 <= h < 0x7ff0_0000
    ensures IsIlogb(MagAt(Wide(h, l)), h / 0x10_0000 - 1023)
  {
    var e, x := h / 0x10_0000, Wide(0x10_0000 + h % 0x10_0000, l);
    assert Wide(h, l) == x + (e - 1) * TWO52;
    MagShift(x, e - 1);
    assert Pow2(e + 51) == TWO52 * Pow2(e - 1) by { Pow2Add(e - 1, 52); Pow2Values(); }
    MulMono(TWO52, x, Pow2(e - 1));
    MulMonoStrict(x, 2 * TWO52, Pow2(e - 1));
  }

  /** The exponent of the double with high word h (sign cleared) and low word l. */
  method WordsIlogb(h: u32, l: u32) returns (ix: i32)
    requires h < 0x7ff0_0000 && (h > 0 || l > 0)
    ensures IsIlogb(MagAt(Wide(h, l)), ix)
  {
    if h < 0x10_0000 {
      ix := SubnormalIlogb(h, l);
    } else {
      NormalIlogb(h, l);
      ix := h / 0x10_0000 - 1023;
    }
  }

  method Ilogb(x: Double) returns (r: i32)
    ensures IsZero(x) ==> r == ToInt(0x8000_0001)
    ensures !Finite(x) ==> r == 0x7fff_ffff
    ensures Finite(x) && !IsZero(x) ==> IsIlogb(Mag(x), r)
  {
    HighWord(x);
    MaskMagnitude(x.hi);
    var hx: u32 := And(x.hi, 0x7fff_ffff);
    if hx < 0x10_0000 {
      var lx: u32 := x.lo;
      OrBounds(hx, lx);
      if Or(hx, lx) == 0 {
        return ToInt(0x8000_0001);
      }
      r := SubnormalIlogb(hx, lx);
    } else if hx < 0x7ff0_0000 {
      NormalIlogb(hx, x.lo);
      r := hx / 0x10_0000 - 1023;
    } else {
      r := 0x7fff_ffff;
    }
  }
}
