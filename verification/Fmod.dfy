/** bench/tools/fdlibm/e_fmod.c: the exact remainder by shift and subtract. */
module Fmod {
  import opened Arith
  import opened Words
  import opened Ieee
  import opened Float
  import opened Ilogb
  import Floor

  // ---- lines 74-98: significands with the leading bit at position 52 ----

  lemma NormalFromIlogb(v: nat, ix: int)
    requires IsIlogb(v, ix) && ix < -1022
    ensures Normal(v, v * Pow2(-1022 - ix), ix)
  {
    var n := -1022 - ix;
    assert Pow2(ix + 1074) * Pow2(n) == TWO52 by { Pow2Add(ix + 1074, n); Pow2Values(); }
    MulMono(Pow2(ix + 1074), v, Pow2(n));
    MulMonoStrict(v, 2 * Pow2(ix + 1074), Pow2(n));
    assert (2 * Pow2(ix + 1074)) * Pow2(n) == 2 * (Pow2(ix + 1074) * Pow2(n));
    Reassoc(v, Pow2(n), Pow2(ix + 1074));
  }

  lemma IlogbSaysNormal(h: u32, l: u32, ix: int)
    requires h < 0x7ff0_0000 && IsIlogb(MagAt(Wide(h, l)), ix)
    ensures ix >= -1022 <==> h >= 0x10_0000
    ensures h < 0x10_0000 ==> MagAt(Wide(h, l)) == Wide(h, l)
    ensures h >= 0x10_0000 ==> ix == h / 0x10_0000 - 1023
  {
    if h >= 0x10_0000 {
      NormalIlogb(h, l);
      IlogbUnique(MagAt(Wide(h, l)), ix, h / 0x10_0000 - 1023);
    } else if ix >= -1022 {
      Pow2Mono(52, ix + 1074);
      Pow2Values();
      assert false;
    }
  }

  method AlignSignificand(h: u32, l: u32, ix: i32) returns (hx: i32, lx: u32)
    requires h < 0x7ff0_0000 && IsIlogb(MagAt(Wide(h, l)), ix)
    ensures Normal(MagAt(Wide(h, l)), Wide(hx, lx), ix)
  {
    IlogbSaysNormal(h, l, ix);
    if ix >= -1022 {
      NormalFromNormal(h, l);
      hx, lx := LeadingOne(h), l;
    } else {
      NormalFromIlogb(Wide(h, l), ix);
      hx, lx := ShiftToNormal(h, l, -1022 - ix);
    }
  }

  /** Lines 78-85. */
  method ShiftToNormal(h: u32, l: u32, n: nat) returns (hx: i32, lx: u32)
    requires 0 < n && TWO52 <= Wide(h, l) * Pow2(n) < 2 * TWO52
    ensures Wide(hx, lx) == Wide(h, l) * Pow2(n)
  {
    if n <= 31 {
      ShiftUp(h, l, n);
      hx, lx := Or(Shl(h, n), Shr(l, 32 - n)), Shl(l, n);
    } else {
      ShiftUpWord(h, l, n);
      hx, lx := Shl(l, n - 32), 0;
    }
  }

  lemma ShiftUp(h: u32, l: u32, n: nat)
    requires 0 < n <= 31 && Wide(h, l) * Pow2(n) < 2 * TWO52
    ensures Or(Shl(h, n), Shr(l, 32 - n)) < 0x20_0000
    ensures Wide(Or(Shl(h, n), Shr(l, 32 - n)), Shl(l, n)) == Wide(h, l) * Pow2(n)
  {
    var a, b := h * Pow2(n), l * Pow2(n);
    assert Wide(h, l) * Pow2(n) == a * TWO32 + b by { WideTimes(h, l, Pow2(n)); }
    assert a >= 0 && b >= 0;
    ShlExact(h, n, a);
    ShlWide(h, l, n);
  }

  lemma ShiftUpWord(h: u32, l: u32, n: nat)
    requires 32 <= n && TWO52 <= Wide(h, l) * Pow2(n) < 2 * TWO52
    ensures Shl(l, n - 32) < 0x20_0000
    ensures Wide(Shl(l, n - 32), 0) == Wide(h, l) * Pow2(n)
  {
    var p := Pow2(n - 32);
    var w := Wide(h, l) * p;
    assert Wide(h, l) * Pow2(n) == w * TWO32 by {
      Pow2Add(n - 32, 32);
      Pow2Values();
      Reassoc(Wide(h, l), p, TWO32);
    }
    assert w < 0x20_0000;
    assert w >= Wide(h, l) by { MulMono(1, p, Wide(h, l)); }
    assert h == 0 && Wide(h, l) == l;
    ShlExact(l, n - 32, w);
  }

  // ---- lines 100-112: fixed point fmod ----

  /** `hz = hx - hy; lz = lx - ly; if (lx < ly) hz -= 1` */
  method Subtract(hx: i32, lx: u32, hy: i32, ly: u32) returns (hz: i32, lz: u32)
    requires 0 <= hx < 0x40_0000 && 0 <= hy < 0x40_0000
    ensures Wide(hz, lz) == Wide(hx, lx) - Wide(hy, ly)
  {
    hz := hx - hy;
    lz := Wrap(lx - ly);
    if lx < ly { hz := hz - 1; }
  }

  lemma KeepRemainder(x: nat, y: nat, n: nat)
    requires y > 0 && n > 0
    ensures ((2 * x) * Pow2(n - 1)) % y == (x * Pow2(n)) % y
    ensures x >= y ==> ((2 * (x - y)) * Pow2(n - 1)) % y == (x * Pow2(n)) % y
  {
    var p := Pow2(n - 1);
    assert (2 * x) * p == x * (2 * p);
    if x >= y {
      assert (2 * (x - y)) * p == x * (2 * p) + (-(2 * p)) * y;
      ModAddMul(x * (2 * p), -(2 * p), y);
    }
  }

  lemma ZeroRemainder(y: nat, n: nat)
    requires y > 0
    ensures (y * Pow2(n)) % y == 0
  {
    ModAddMul(0, Pow2(n), y);
  }

  /** One turn keeps the remainder and the bound; `zero` is the early exit with remainder 0. */
  method Reduce(x0: i32, x1: u32, hy: i32, ly: u32, count: nat) returns (zero: bool, hx: i32, lx: u32)
    requires TWO52 <= Wide(hy, ly) < 2 * TWO52 && 0 <= Wide(x0, x1) < 2 * Wide(hy, ly)
    ensures var r := (Wide(x0, x1) * Pow2(count)) % Wide(hy, ly);
            if zero then r == 0 else Wide(hx, lx) == r
  {
    ghost var x, y := Wide(x0, x1), Wide(hy, ly);
    var n := count;
    hx, lx, zero := x0, x1, false;
    var hz: i32, lz: u32;
    while n != 0
      invariant 0 <= Wide(hx, lx) < 2 * y
      invariant (Wide(hx, lx) * Pow2(n)) % y == (x * Pow2(count)) % y
    {
      KeepRemainder(Wide(hx, lx), y, n);
      hz, lz := Subtract(hx, lx, hy, ly);
      n := n - 1;
      if hz < 0 {
        TwiceIsDouble(hx, lx);
        hx, lx := TwiceHigh(hx, lx), TwiceLow(lx);
      } else {
        OrBounds(hz, lz);
        if Or(hz, lz) == 0 {
          ZeroRemainder(y, n + 1);
          zero := true;
          return;
        }
        TwiceIsDouble(hz, lz);
        hx, lx := TwiceHigh(hz, lz), TwiceLow(lz);
      }
    }
    hz, lz := Subtract(hx, lx, hy, ly);
    ghost var w := Wide(hx, lx);
    if hz >= 0 { hx, lx := hz, lz; }
    DivModUnique(w, y, if w < y then 0 else 1, Wide(hx, lx));
  }

  // ---- lines 114-139: back to a double ----

  /** Lines 117-120: bring the leading bit of a nonzero remainder to position 52. */
  method Renormalize(x0: i32, x1: u32, e: i32, ghost r: nat) returns (hx: i32, lx: u32, iy: i32)
    requires 0 < Wide(x0, x1) < 2 * TWO52 && -1074 <= e <= 1023
    requires Wide(x0, x1) * Pow2(e + 1074) == r * TWO52
    ensures Normal(r, Wide(hx, lx), iy)
  {
    hx, lx, iy := x0, x1, e;
    assert r > 0 by { MulMono(1, Wide(x0, x1), Pow2(e + 1074)); }
    while hx < 0x0010_0000
      invariant 0 < Wide(hx, lx) < 2 * TWO52 && -1074 <= iy <= 1023
      invariant Wide(hx, lx) * Pow2(iy + 1074) == r * TWO52
      decreases iy + 1074
    {
      TwiceIsDouble(hx, lx);
      Doubled(Wide(hx, lx), Pow2(iy + 1073));
      hx, lx := TwiceHigh(hx, lx), TwiceLow(lx);
      iy := iy - 1;
    }
  }

  lemma NormalResult(r: nat, x: nat, iy: int)
    requires Normal(r, x, iy) && iy >= -1022
    ensures MagAt(x + (iy + 1022) * TWO52) == r
  {
    var p := Pow2(iy + 1022);
    MagShift(x, iy + 1022);
    assert Pow2(iy + 1074) == p * TWO52 by { Pow2Add(iy + 1022, 52); Pow2Values(); }
    Reassoc(x, p, TWO52);
    MulCancel(x * p, r, TWO52);
  }

  lemma SubnormalResult(r: nat, x: nat, iy: int)
    requires Normal(r, x, iy) && iy < -1022
    ensures x == r * Pow2(-1022 - iy) && r < TWO52
  {
    var n := -1022 - iy;
    var p, g := Pow2(n), Pow2(iy + 1074);
    assert TWO52 == p * g by { Pow2Add(n, iy + 1074); Pow2Values(); }
    Reassoc(r, p, g);
    MulCancel(x, r * p, g);
    assert p >= 2;
    MulMono(2, p, r);
  }

  /** The right shift of a subnormal result by n drops only zero bits. */
  lemma ShiftDown(h: u32, l: u32, n: nat, r: nat)
    requires 0 < n < 32 && Wide(h, l) == r * Pow2(n)
    ensures Or(Shr(l, n), Shl(h, 32 - n)) == Or(Shl(h, 32 - n), Shr(l, n)) < TWO32
    ensures Wide(Shr(h, n), Or(Shl(h, 32 - n), Shr(l, n))) == r
    ensures l % Pow2(n) == 0
  {
    var s := ShrWide(h, l, n);
    DivModUnique(Wide(h, l), Pow2(n), s, l % Pow2(n));
    DivModUnique(Wide(h, l), Pow2(n), r, 0);
  }

  lemma ShiftDownWord(h: u32, l: u32, n: nat, r: nat)
    requires 32 <= n && Wide(h, l) == r * Pow2(n)
    ensures l == 0 && Shr(h, n - 32) == r
  {
    var p := Pow2(n - 32);
    var rp := r * p;
    assert r * Pow2(n) == rp * TWO32 by { Pow2Add(n - 32, 32); Pow2Values(); Reassoc(r, p, TWO32); }
    assert l == 0 && h == rp by {
      DivModUnique(Wide(h, l), TWO32, h, l);
      DivModUnique(Wide(h, l), TWO32, rp, 0);
    }
    assert h / p == r by { DivModUnique(h, p, r, 0); }
    ShrIsDiv(h, n - 32);
  }

  lemma HighPartGone(h: u32, n: nat)
    requires h < 0x20_0000 && n > 20
    ensures Shr(h, n) == 0
  {
    Pow2Values();
    Pow2Mono(21, n);
    ShrIsDiv(h, n);
    DivModUnique(h, Pow2(n), 0, h);
  }

  /** Lines 126-137. */
  method PackSubnormal(x0: u32, x1: u32, n: nat, sx: u32, ghost r: nat) returns (z: Double)
    requires x0 < 0x20_0000 && n > 0 && (sx == 0 || sx == SIGN)
    requires Wide(x0, x1) == r * Pow2(n) && r < TWO52
    ensures Code(z) == r && Neg(z) == (sx != 0)
  {
    z := ShiftedWords(x0, x1, n, sx, r);
    Floor.TimesOne(z, 1074);
    z := FMul(z, ONE);
  }

  /** Lines 126-136. */
  method ShiftedWords(x0: u32, x1: u32, n: nat, sx: u32, ghost r: nat) returns (z: Double)
    requires x0 < 0x20_0000 && n > 0 && (sx == 0 || sx == SIGN)
    requires Wide(x0, x1) == r * Pow2(n) && r < TWO52
    ensures Code(z) == r && Neg(z) == (sx != 0)
  {
    var hx: u32, lx: u32;
    if n <= 20 {
      ShiftDown(x0, x1, n, r);
      lx := Or(Shr(x1, n), Shl(x0, 32 - n));
      hx := Shr(x0, n);
      assert Wide(hx, lx) == r;
      z := WithSign(hx, sx, lx);
    } else {
      hx := sx;
      if n <= 31 {
        ShiftDown(x0, x1, n, r);
        HighPartGone(x0, n);
        lx := Or(Shl(x0, 32 - n), Shr(x1, n));
      } else {
        ShiftDownWord(x0, x1, n, r);
        lx := Shr(x0, n - 32);
      }
      assert lx == r;
      OrSelf(sx);
      z := Double(Or(hx, sx), lx);
    }
  }

  method Repack(x0: i32, x1: u32, e: i32, sx: u32, ghost r: nat) returns (z: Double)
    requires 0 < Wide(x0, x1) < 2 * TWO52 && -1074 <= e <= 1023 && (sx == 0 || sx == SIGN)
    requires Wide(x0, x1) * Pow2(e + 1074) == r * TWO52
    ensures Finite(z) && Mag(z) == r && Neg(z) == (sx != 0)
  {
    var hx, lx, iy := Renormalize(x0, x1, e, r);
    if iy >= -1022 {
      NormalResult(r, Wide(hx, lx), iy);
      var f: u32, g: u32 := hx - 0x10_0000, (iy + 1023) * 0x10_0000;
      assert Or(f, g) == f + g by { Pow2Values(); OrDisjoint(g, iy + 1023, f, 20); }
      assert Wide(f + g, lx) == Wide(hx, lx) + (iy + 1022) * TWO52;
      z := WithSign(Or(f, g), sx, lx);
    } else {
      SubnormalResult(r, Wide(hx, lx), iy);
      z := PackSubnormal(hx, lx, -1022 - iy, sx, r);
    }
  }

  // ---- the whole routine ----

  lemma RemainderScales(vx: nat, x: nat, ix: int, vy: nat, y: nat, iy: int)
    requires Normal(vx, x, ix) && Normal(vy, y, iy) && iy <= ix && vy > 0
    ensures ((x * Pow2(ix - iy)) % y) * Pow2(iy + 1074) == (vx % vy) * TWO52
  {
    var n, p := ix - iy, Pow2(iy + 1074);
    var w := x * Pow2(n);
    assert vx * TWO52 == w * p by { Pow2Add(n, iy + 1074); Reassoc(x, Pow2(n), p); }
    MulDivMod(vx, vy, TWO52);
    MulDivMod(w, y, p);
  }

  /** `Zero[(unsigned)sx>>31]` */
  function SignedZero(sx: u32): (z: Double)
    requires sx == 0 || sx == SIGN
    ensures IsZero(z) && Neg(z) == (sx != 0)
  {
    Double(sx, 0)
  }

  /** Lines 56-139, for |x| > |y| > 0. */
  method FmodMagnitudes(hx: u32, lx: u32, hy: u32, ly: u32, sx: u32) returns (z: Double)
    requires hx < 0x7ff0_0000 && hy < 0x7ff0_0000 && (sx == 0 || sx == SIGN)
    requires 0 < Wide(hy, ly) < Wide(hx, lx)
    ensures Finite(z) && Neg(z) == (sx != 0)
    ensures MagAt(Wide(hy, ly)) > 0 && Mag(z) == MagAt(Wide(hx, lx)) % MagAt(Wide(hy, ly))
  {
    ghost var vx, vy := MagAt(Wide(hx, lx)), MagAt(Wide(hy, ly));
    MagOrder(Wide(hy, ly), Wide(hx, lx));
    MagOrder(0, Wide(hy, ly));
    var ix := WordsIlogb(hx, lx);
    var iy := WordsIlogb(hy, ly);
    IlogbMono(vy, iy, vx, ix);
    var x0, x1 := AlignSignificand(hx, lx, ix);
    var y0, y1 := AlignSignificand(hy, ly, iy);
    RemainderScales(vx, Wide(x0, x1), ix, vy, Wide(y0, y1), iy);
    ghost var r := vx % vy;
    var zero;
    zero, x0, x1 := Reduce(x0, x1, y0, y1, ix - iy);
    if zero { return SignedZero(sx); }
    OrBounds(x0, x1);
    if Or(x0, x1) == 0 { return SignedZero(sx); }
    z := Repack(x0, x1, iy, sx, r);
  }

  /** Line 48: `(hy | ((ly | -ly) >> 31)) > 0x7ff00000` */
  predicate NanWords(hy: u32, ly: u32)
    ensures NanWords(hy, ly) <==> Wide(hy, ly) > INF
  {
    assert ly != 0 ==> Or(hy, NonZeroBit(ly)) == hy + 1 - hy % 2 by { OrOne(hy); }
    Or(hy, NonZeroBit(ly)) > 0x7ff0_0000
  }

  /** __ieee754_fmod: |x| mod |y| exactly, with the sign of x. */
  method Fmod(x: Double, y: Double) returns (z: Double)
    ensures !Finite(x) || IsZero(y) || IsNaN(y) ==> IsNaN(z)
    ensures Finite(x) && IsInf(y) ==> z == x
    ensures Finite(x) && Finite(y) && !IsZero(y) ==>
      Mag(y) > 0 && Mag(z) == Mag(x) % Mag(y) && Finite(z) && Neg(z) == Neg(x)
  {
    HighWord(x);
    HighWord(y);
    var sx := SignOf(x.hi);
    var hx: u32, lx: u32, hy: u32, ly: u32 := FlipSign(x.hi, sx), x.lo, AbsHigh(y.hi), y.lo;
    assert Code(x) == Wide(hx, lx) && Code(y) == Wide(hy, ly);
    if BothZero(hy, ly) || hx >= 0x7ff0_0000 || NanWords(hy, ly) {
      return NAN;
    }
    MagOrder(Code(x), Code(y));
    MagOrder(0, Code(y));
    if hx <= hy {
      if hx < hy || lx < ly {
        if Finite(y) { DivModUnique(Mag(x), Mag(y), 0, Mag(x)); }
        return x;
      }
      if lx == ly {
        DivModUnique(Mag(x), Mag(y), 1, 0);
        return SignedZero(sx);
      }
    }
    z := FmodMagnitudes(hx, lx, hy, ly, sx);
  }
}
