/** bench/tools/fdlibm/e_rem_pio2.c, lines 161-171: a large |x| as three 24-bit pieces. */
module Pieces {
  import opened Arith
  import opened Words
  import opened Ieee
  import opened Float
  import opened Exact
  import opened KernelSteps
  import opened RemPio2

  /** One turn of lines 166-167: both floating operations are exact. */
  lemma PieceStep(z: Double, s: nat, u: nat, k: nat)
    requires Holds(z, s, u) && u + k == 1074 && u + 24 <= 1100 && s < B * Pow2(k)
    ensures FitsInt(z) && Truncate(z) == s / Pow2(k) < B
    ensures Holds(FMul(FSub(z, FromInt(Truncate(z))), TWO24), s % Pow2(k), u + 24)
  {
    MulMono(B, SIGN, Pow2(k));
    TruncateIs(z, s, u, k);
    QuotientBracket(s, Pow2(k));
    var n, r := s / Pow2(k), s % Pow2(k);
    assert n < B by { if n >= B { MulMono(B, n, Pow2(k)); assert false; } }
    var t := FromInt(n);
    Rescale(t, n, 1074, k, n * Pow2(k));
    DifferenceHolds(z, s, t, n * Pow2(k), u);
    UpBy24(FSub(z, t), r, u);
  }

  lemma UpBy24(y: Double, r: int, u: nat)
    requires Holds(y, r, u) && u + 24 <= 1100
    ensures Holds(FMul(y, TWO24), r, u + 24)
  {
    PowerHolds(TWO24, 1046);
    ProductHolds(y, r, u, TWO24, 1, 1098, r, u + 24);
  }

  lemma FirstCodes(x: Double, ix: u32, e: nat, f: nat, z: Double, s: nat, k: nat)
    requires ix == x.hi % SIGN && e == ix / 0x10_0000 && f == ix % 0x10_0000 && k == 1045
    requires z == Double(f + 1046 * 0x10_0000, x.lo) && s == Wide(0x10_0000 + f, x.lo)
    ensures TWO52 <= s < 2 * TWO52 && Code(x) / TWO52 == e
    ensures Code(x) == s + (e - 1) * TWO52 && Code(z) == s + k * TWO52
  {
    assert ix == e * 0x10_0000 + f;
    DivModUnique(Code(x), TWO52, e, Wide(f, x.lo));
  }

  lemma FirstSignificand(x: Double, ix: u32, e0: int, z: Double, s: nat, k: nat)
    requires TWO52 <= Code(x) < INF && ix == x.hi % SIGN && e0 == ix / 0x10_0000 - 1046 && k == 1045
    requires z == Double(ix % 0x10_0000 + 1046 * 0x10_0000, x.lo) && s == Wide(0x10_0000 + ix % 0x10_0000, x.lo)
    ensures TWO52 <= s < 2 * TWO52 && e0 >= -1045 && e0 == Code(x) / TWO52 - 1046
    ensures Holds(z, s, k) && Mag(x) == s * Pow2(e0 + k)
  {
    FirstCodes(x, ix, ix / 0x10_0000, ix % 0x10_0000, z, s, k);
    assert Mag(x) == s * Pow2(e0 + k) by { MagShift(s, e0 + k); }
    assert Mag(z) == s * Pow2(k) by { MagShift(s, k); }
  }

  /** Line 169: what is left over is an integer. */
  lemma LastPiece(z: Double, r: nat)
    requires Holds(z, r, 1093) && r < 0x20
    ensures Holds(z, r * 0x8_0000, 1074)
  {
    assert Pow2(19) == 0x8_0000 by { Pow2Values(); }
    Rescale(z, r, 1093, 19, r * 0x8_0000);
  }

  lemma LowBits(s: nat)
    ensures (s % 0x2000_0000) % 0x20 == s % 0x20
  {
    ModAddMul(s % 0x2000_0000, (s / 0x2000_0000) * 0x100_0000, 0x20);
  }

  lemma PiecesSum(s: nat, a: int, b: int, c: int)
    requires a == s / 0x2000_0000 && b == (s % 0x2000_0000) / 0x20 && c == (s % 0x20) * 0x8_0000
    ensures (a * B + b) * B + c == s * 0x8_0000
    ensures s < 2 * TWO52 ==> 0 <= a < B && 0 <= b < B && 0 <= c < B
    ensures s >= TWO52 ==> a >= 0x80_0000
  {
    assert s == a * 0x2000_0000 + s % 0x2000_0000;
    assert s % 0x2000_0000 == b * 0x20 + (s % 0x2000_0000) % 0x20;
    LowBits(s);
  }

  /** Lines 166-167. */
  method NextPiece(z: Double, ghost s: nat, ghost u: nat, ghost k: nat) returns (t: Double, y: Double)
    requires Holds(z, s, u) && u + k == 1074 && u + 24 <= 1100 && s < B * Pow2(k)
    ensures Holds(t, s / Pow2(k), 1074) && Holds(y, s % Pow2(k), u + 24)
  {
    PieceStep(z, s, u, k);
    t := FromInt(Truncate(z));
    y := FMul(FSub(z, t), TWO24);
  }

  /** What is left of s after i pieces, and the digit that piece i is. */
  ghost function Remaining(s: nat, i: nat): (r: nat)
  {
    if i == 0 then s else if i == 1 then s % 0x2000_0000 else s % 0x20
  }

  ghost function Shift(i: nat): (k: nat) { if i == 0 then 29 else 5 }
  ghost function Digit(s: nat, i: nat): (d: int)
  {
    if i == 0 then s / 0x2000_0000 else if i == 1 then (s % 0x2000_0000) / 0x20 else (s % 0x20) * 0x8_0000
  }

  lemma PieceOf(s: nat, i: nat)
    requires i < 2 && s < 2 * TWO52
    ensures Remaining(s, i) < B * Pow2(Shift(i))
    ensures Digit(s, i) == Remaining(s, i) / Pow2(Shift(i)) && Remaining(s, i + 1) == Remaining(s, i) % Pow2(Shift(i))
  {
    assert Pow2(29) == 0x2000_0000 && Pow2(5) == 0x20 by { Pow2Values(); }
    LowBits(s);
  }

  method PieceAt(z: Double, ghost i: nat, ghost s: nat, ghost w: nat) returns (t: Double, y: Double)
    requires i < 2 && s < 2 * TWO52 && w == 1045 && Holds(z, Remaining(s, i), w + 24 * i)
    ensures Holds(t, Digit(s, i), 1074) && Holds(y, Remaining(s, i + 1), w + 24 * (i + 1))
  {
    PieceOf(s, i);
    t, y := NextPiece(z, Remaining(s, i), w + 24 * i, Shift(i));
  }

  ghost function DigitsOf(s: nat): (d: seq<int>)
    requires TWO52 <= s < 2 * TWO52
    ensures |d| == 3 && Digits(d) && d[0] >= 0x80_0000 && (d[0] * B + d[1]) * B + d[2] == s * 0x8_0000
    ensures forall i :: 0 <= i < 3 ==> d[i] == Digit(s, i)
  {
    PiecesSum(s, Digit(s, 0), Digit(s, 1), Digit(s, 2));
    [Digit(s, 0), Digit(s, 1), Digit(s, 2)]
  }

  /** Lines 165-169. */
  method Cut(z0: Double, ghost s: nat, ghost w: nat) returns (tx: array<Double>, ghost d: seq<int>)
    requires TWO52 <= s < 2 * TWO52 && w == 1045 && Holds(z0, s, w)
    ensures fresh(tx) && tx.Length == 3 && Carries(tx[..], d) && Digits(d)
    ensures d[0] >= 0x80_0000 && (d[0] * B + d[1]) * B + d[2] == s * 0x8_0000
  {
    tx := new Double[3](_ => ZERO);
    var z := z0;
    for i := 0 to 2
      invariant forall a :: 0 <= a < i ==> Holds(tx[a], Digit(s, a), 1074)
      invariant Holds(z, Remaining(s, i), w + 24 * i)
    {
      var t;
      t, z := PieceAt(z, i, s, w);
      tx[i] := t;
    }
    LastPiece(z, s % 0x20);
    tx[2] := z;
    d := DigitsOf(s);
  }

  lemma ZeroPiece(z: Double, g: int)
    requires Holds(z, g, 1074)
    ensures FEqual(z, ZERO) <==> g == 0
  {
    ZeroHolds(1074);
    MulCancel(g, 0, Pow2(1074));
  }

  /** Lines 161-171: the pieces, without trailing zeros, and the exponent of the first. */
  method SplitArgument(x: Double) returns (tx: array<Double>, nx: nat, e0: int, ghost d: seq<int>)
    requires TWO52 <= Code(x) < INF
    ensures fresh(tx) && 1 <= nx <= tx.Length == 3 && Carries(tx[..nx], d)
    ensures Digits(d) && d[0] >= 0x80_0000 && d[nx - 1] != 0
    ensures e0 == Code(x) / TWO52 - 1046
    ensures -1045 <= e0 && Argument(d) * Pow2(e0 + 1045) == Mag(x) * 0x8_0000
  {
    var ix := AbsHigh(x.hi);
    e0 := ix / 0x10_0000 - 1046;
    var z := Double(ix - e0 * 0x10_0000, x.lo);
    ghost var s := Wide(0x10_0000 + ix % 0x10_0000, x.lo);
    FirstSignificand(x, ix, e0, z, s, 1045);
    tx, d := Cut(z, s, 1045);
    nx := TrimZeros(tx, d);
    ghost var all := d;
    d := d[..nx];
    assert Argument(d) == s * 0x8_0000 by { assert At(d, 1) == all[1] && At(d, 2) == all[2]; }
    MulSwap(s, 0x8_0000, Pow2(e0 + 1045));
  }

  /** Line 171. */
  method TrimZeros(tx: array<Double>, ghost d: seq<int>) returns (nx: nat)
    requires tx.Length == 3 && Carries(tx[..], d) && d[0] != 0
    ensures 1 <= nx <= 3 && d[nx - 1] != 0 && forall i :: nx <= i < 3 ==> d[i] == 0
  {
    nx := 3;
    ZeroPiece(tx[2], d[2]);
    while FEqual(tx[nx - 1], ZERO)
      invariant 1 <= nx <= 3
      invariant FEqual(tx[nx - 1], ZERO) <==> d[nx - 1] == 0
      invariant forall i :: nx <= i < 3 ==> d[i] == 0
      decreases nx
    {
      nx := nx - 1;
      ZeroPiece(tx[nx - 1], d[nx - 1]);
    }
  }

  lemma ScaledResidue(a: int, g: int, c: nat, w: nat, v: int, t: int)
    requires c > 0 && w > 0 && v * t == a * w
    ensures c * w > 0 && (v * t - g * w) % (c * w) == ((a - g) % c) * w
  {
    MulDivMod(a - g, c, w);
    assert (a - g) * w == a * w - g * w;
  }

  /** What n and the signed fraction leave of v times table digits 0..m, modulo 8, all in
      units w times those of the kernel. */
  ghost function Left(v: int, t: seq<int>, m: nat, u: nat, n: int, ih: int, f: int, w: nat): (r: int)
    requires u > 0 && w > 0
  {
    var c: nat := (8 * u) * (B * B);
    MulMonoStrict(0, c, w);
    (v * TableTo(t, m) - (Reduced(n, u, ih, f) * (B * B)) * w) % (c * w)
  }

  lemma LeftIsMissed(v: int, d: seq<int>, t: seq<int>, m: nat, u: nat, n: int, ih: int, f: int, w: nat)
    requires u > 0 && w > 0 && v == Argument(d) * w
    ensures Left(v, t, m, u, n, ih, f, w) == Missed(d, t, m, u, n, ih, f) * w
  {
    MulSwap(Argument(d), w, TableTo(t, m));
    ScaledResidue(Argument(d) * TableTo(t, m), Reduced(n, u, ih, f) * (B * B), (8 * u) * (B * B), w, v, TableTo(t, m));
  }

  /** Lines 161-172 for |x|, whose digits are d: of Mag(x) times the table itself, n and the
      signed fraction leave exactly the tail, so nothing if and only if every digit product
      beyond the last column is zero. */
  method ReduceLarge(x: Double, t: seq<int>, jz: nat)
    returns (n: int, ih: int, z: Double, iq: array<int>, m: nat, q0: int,
             ghost zf: int, ghost d: seq<int>, ghost tail: int)
    requires TWO52 <= Code(x) < INF && Digits(t) && jz >= 2
    requires jz + Max(0, TruncQuot(Code(x) / TWO52 - 1049, 24)) < |t|
    ensures m == jz + Max(0, TruncQuot(Code(x) / TWO52 - 1049, 24))
    ensures q0 == Code(x) / TWO52 - 1046 - 24 * (m - jz + 1) && q0 < 3
    ensures fresh(iq) && iq.Length == jz && Digits(iq[..]) && 0 <= n < 8 && TopHolds(z, zf, q0)
    ensures 0 <= 2 * Fraction(zf, iq[..]) <= Unit(jz, q0)
    ensures 1 <= |d| <= 3 && Digits(d) && tail == Tail(d, t, m)
    ensures 0 <= tail < 0x200_0001 * (B * B) && (tail == 0 <==> NoTail(d, t, m))
    ensures Code(x) / TWO52 >= 1 && Argument(d) * Pow2(Code(x) / TWO52 - 1) == Mag(x) * 0x8_0000
    ensures Left(Mag(x) * 0x8_0000, t, m, Unit(jz, q0), n, ih, Fraction(zf, iq[..]), Pow2(Code(x) / TWO52 - 1))
         == tail * Pow2(Code(x) / TWO52 - 1)
  {
    var tx, nx, e0, jv;
    tx, nx, e0, d := SplitArgument(x);
    n, ih, z, iq, jv, q0, zf := Kernel(tx[..nx], e0, t, jz, d);
    m := jv + jz;
    tail := Tail(d, t, m);
    TailBound(d, t, m);
    LeftIsMissed(Mag(x) * 0x8_0000, d, t, m, Unit(jz, q0), n, ih, Fraction(zf, iq[..]), Pow2(e0 + 1045));
  }

  /** From a double to the digits that lines 255-267 of the kernel leave: against Mag(x) times
      the table itself they and n leave exactly the tail. */
  method LargeDigits(x: Double, t: seq<int>, jk: nat, jz: nat)
    returns (again: bool, more: nat, inside: bool, n: int, ih: int, r: seq<int>, q1: int, q0: int, m: nat,
             ghost f: int, ghost d: seq<int>)
    requires TWO52 <= Code(x) < INF && Digits(t) && 2 <= jk <= jz
    requires jz + Max(0, TruncQuot(Code(x) / TWO52 - 1049, 24)) < |t|
    ensures m == jz + Max(0, TruncQuot(Code(x) / TWO52 - 1049, 24))
    ensures q0 == Code(x) / TWO52 - 1046 - 24 * (m - jz + 1) && q0 < 3
    ensures 0 <= n < 8 && 0 <= 2 * f <= Unit(jz, q0)
    ensures 1 <= |d| <= 3 && Digits(d) && Code(x) / TWO52 >= 1
    ensures Argument(d) * Pow2(Code(x) / TWO52 - 1) == Mag(x) * 0x8_0000
    ensures Left(Mag(x) * 0x8_0000, t, m, Unit(jz, q0), n, ih, f, Pow2(Code(x) / TWO52 - 1))
         == Tail(d, t, m) * Pow2(Code(x) / TWO52 - 1)
    ensures again <==> f < BPow(jk)
    ensures again ==> (inside <==> f > 0)
    ensures again && inside ==> 1 <= more <= jk && BPow(jk - more) <= f < BPow(jk - more + 1)
    ensures !again ==>
      && Digits(r) && r != [] && r[|r| - 1] != 0
      && LittleEnd(r) == f && q1 - 24 * (|r| - 1) == q0 - 24 * jz
  {
    var tx, nx, e0;
    ghost var g;
    tx, nx, e0, d := SplitArgument(x);
    again, more, inside, n, ih, r, q1, q0, m, f, g := Chunks(tx[..nx], e0, t, jk, jz, d);
    LeftIsMissed(Mag(x) * 0x8_0000, d, t, m, Unit(jz, q0), n, ih, f, Pow2(e0 + 1045));
  }

  /** For 2^52 + 32 and six table digits, what is left is the last of them. */
  method LastDigitLeft(x: Double, t: seq<int>, ghost w: nat)
    returns (n: int, ih: int, iq: array<int>, q0: int, ghost zf: int)
    requires w == 1074 && Code(x) == (TWO52 + 32) + w * TWO52 && |t| == 6 && Digits(t)
    ensures q0 == -19 && iq.Length == 4
    ensures Left(Mag(x) * 0x8_0000, t, 5, Unit(4, q0), n, ih, Fraction(zf, iq[..]), Pow2(w)) == (t[5] * B) * Pow2(w)
  {
    assert Code(x) / TWO52 == w + 1;
    var z, m;
    ghost var d, tail;
    n, ih, z, iq, m, q0, zf, d, tail := ReduceLarge(x, t, 4);
    DigitsOfLarge(x, d, w);
  }

  /** A double for which something is left: 2^52 + 32, with the first six digits of the code's
      own table. */
  method LargeNotMet() returns (x: Double, t: seq<int>, n: int, ih: int, iq: array<int>, q0: int, ghost zf: int)
    ensures x == Double(0x4330_0000, 32)
    ensures t == [0xa2_f983, 0x6e_4e44, 0x15_29fc, 0x27_57d1, 0xf5_34dd, 0xc0_db62]
    ensures q0 == -19 && iq.Length == 4
    ensures Left(Mag(x) * 0x8_0000, t, 5, Unit(4, q0), n, ih, Fraction(zf, iq[..]), Pow2(1074)) > 0
  {
    x := Double(0x4330_0000, 32);
    t := [0xa2_f983, 0x6e_4e44, 0x15_29fc, 0x27_57d1, 0xf5_34dd, 0xc0_db62];
    n, ih, iq, q0, zf := LastDigitLeft(x, t, 1074);
    MulMonoStrict(0, 0xc0_db62 * B, Pow2(1074));
  }

  lemma DigitsOfLarge(x: Double, d: seq<int>, w: nat)
    requires w == 1074 && Code(x) == (TWO52 + 32) + w * TWO52
    requires 1 <= |d| <= 3 && Digits(d) && Argument(d) * Pow2(w) == Mag(x) * 0x8_0000
    ensures At(d, 1) == 1 && At(d, 2) == 0
  {
    MagShift(TWO52 + 32, w);
    MulSwap(TWO52 + 32, Pow2(w), 0x8_0000);
    assert Argument(d) == (TWO52 + 32) * 0x8_0000 by {
      MulCancel(Argument(d), (TWO52 + 32) * 0x8_0000, Pow2(w));
    }
    ThreeDigits(At(d, 0), At(d, 1), At(d, 2));
  }

  lemma ThreeDigits(a: int, b: int, c: int)
    requires 0 <= b < B && 0 <= c < B && (a * B + b) * B + c == (TWO52 + 32) * 0x8_0000
    ensures b == 1 && c == 0
  {
  }
}
