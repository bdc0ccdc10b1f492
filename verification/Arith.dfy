/** Powers of two and the few facts about `*`, `/` and `%` that the word-level
    proofs rest on. Everything here is about mathematical integers. */
module Arith {

  function Pow2(e: nat): (p: nat)
    ensures p > 0
  {
    if e == 0 then 1 else 2 * Pow2(e - 1)
  }

  function Max(a: int, b: int): (m: int)
    ensures m >= a && m >= b && (m == a || m == b)
  {
    if a > b then a else b
  }

  function Abs(a: int): (m: nat)
    ensures m == a || m == -a
  {
    if a < 0 then -a else a
  }

  /** C's division, truncating toward zero. */
  function TruncQuot(x: int, y: int): (q: int)
    requires y != 0
  {
    var q: int := Abs(x) / Abs(y);
    if (x < 0) != (y < 0) then -q else q
  }

  lemma {:induction false} Pow2Add(a: nat, b: nat)
    ensures Pow2(a + b) == Pow2(a) * Pow2(b)
    decreases a
  {
    if a != 0 {
      Pow2Add(a - 1, b);
      assert Pow2(a + b) == 2 * Pow2((a - 1) + b);
    }
  }

  lemma {:induction false} Pow2Mono(a: nat, b: nat)
    requires a <= b
    ensures Pow2(a) <= Pow2(b)
    ensures a < b ==> 2 * Pow2(a) <= Pow2(b)
    decreases b
  {
    if a < b { Pow2Mono(a, b - 1); }
  }

  /** The powers that appear as literals in the code. */
  lemma Pow2Values()
    ensures Pow2(1) == 2 && Pow2(5) == 0x20 && Pow2(11) == 0x800 && Pow2(16) == 0x1_0000
    ensures Pow2(19) == 0x8_0000 && Pow2(20) == 0x10_0000
    ensures Pow2(21) == 0x20_0000 && Pow2(24) == 0x100_0000 && Pow2(29) == 0x2000_0000
    ensures Pow2(31) == 0x8000_0000 && Pow2(32) == 0x1_0000_0000
    ensures Pow2(48) == 0x1_0000_0000_0000
    ensures Pow2(52) == 0x10_0000_0000_0000 && Pow2(53) == 0x20_0000_0000_0000
    ensures Pow2(54) == 0x40_0000_0000_0000
  {
    assert Pow2(11) == 0x800;
    assert Pow2(20) == 0x10_0000;
    assert Pow2(32) == 0x1_0000_0000 by { Pow2Add(20, 12); }
    assert Pow2(48) == 0x1_0000_0000_0000 by { Pow2Add(32, 16); }
    assert Pow2(52) == 0x10_0000_0000_0000 by { Pow2Add(32, 20); }
  }

  lemma MulMono(a: int, b: int, c: nat)
    requires a <= b
    ensures a * c <= b * c
  {
  }

  lemma MulMonoStrict(a: int, b: int, c: nat)
    requires a < b && c > 0
    ensures a * c < b * c
  {
  }

  lemma MulCancel(a: int, b: int, c: nat)
    requires c > 0
    ensures a * c <= b * c <==> a <= b
    ensures a * c == b * c <==> a == b
  {
    if a > b { MulMonoStrict(b, a, c); }
    if a < b { MulMonoStrict(a, b, c); }
  }

  /** Truncating division leaves a remainder smaller than y that is zero or signed as x. */
  lemma TruncLaw(x: int, y: int)
    requires y != 0
    ensures var s := x - TruncQuot(x, y) * y; Abs(s) < Abs(y) && (s > 0 ==> x > 0) && (s < 0 ==> x < 0)
  {
    var r := TruncRest(x, y);
  }

  lemma TruncRest(x: int, y: int) returns (r: int)
    requires y != 0
    ensures x == TruncQuot(x, y) * y + (if x < 0 then -r else r) && 0 <= r < Abs(y) && (x == 0 ==> r == 0)
  {
    var m, d := Abs(x), Abs(y);
    r := m % d;
    SignedLaw(x, y, m / d, r, TruncQuot(x, y));
  }

  lemma SignedLaw(x: int, y: int, q: int, r: int, t: int)
    requires Abs(x) == q * Abs(y) + r && t == if (x < 0) != (y < 0) then -q else q
    ensures x == t * y + (if x < 0 then -r else r)
  {
    assert (-q) * y == -(q * y) && q * -y == -(q * y);
  }

  lemma DivModUnique(x: int, d: nat, q: int, r: int)
    requires d > 0 && 0 <= r < d
    requires x == q * d + r
    ensures x / d == q && x % d == r
  {
    var q', r' := x / d, x % d;
    assert x == q' * d + r';
    if q < q' { MulMono(q + 1, q', d); assert false; }
    if q' < q { MulMono(q' + 1, q, d); assert false; }
  }

  lemma ModAddMul(x: int, k: int, d: nat)
    requires d > 0
    ensures (x + k * d) % d == x % d
    ensures (x + k * d) / d == x / d + k
  {
    DivModUnique(x + k * d, d, x / d + k, x % d);
  }

  /** A common factor comes out of a quotient and a remainder. */
  lemma MulDivMod(a: int, b: nat, c: nat)
    requires b > 0 && c > 0
    ensures b * c > 0
    ensures (a * c) / (b * c) == a / b
    ensures (a * c) % (b * c) == (a % b) * c
  {
    var q, r := a / b, a % b;
    assert b * c > 0;
    assert a * c == q * (b * c) + r * c by {
      assert a == q * b + r;
      assert (q * b + r) * c == (q * b) * c + r * c;
      assert (q * b) * c == q * (b * c);
    }
    MulMonoStrict(r, b, c);
    DivModUnique(a * c, b * c, q, r * c);
  }

  /** Division in two stages. */
  lemma DivDiv(x: nat, a: nat, b: nat)
    requires a > 0 && b > 0
    ensures a * b > 0
    ensures x / (a * b) == (x / a) / b
    ensures x % (a * b) == ((x / a) % b) * a + x % a
  {
    var q := (x / a) / b;
    var r := (x / a) % b;
    var s := x % a;
    assert a * b > 0;
    assert x == q * (a * b) + (r * a + s) by {
      assert x == (x / a) * a + s;
      assert x / a == q * b + r;
      assert (q * b + r) * a == (q * b) * a + r * a;
      assert (q * b) * a == q * (a * b);
    }
    MulMono(r, b - 1, a);
    assert r * a + s < a * b;
    DivModUnique(x, a * b, q, r * a + s);
  }

  lemma SquareMono(a: nat, b: nat)
    ensures a <= b ==> a * a <= b * b
    ensures a < b ==> a * a < b * b
  {
    if a < b { MulMono(a, b, a); MulMonoStrict(a, b, b); }
  }

  lemma Reassoc(a: int, b: int, c: int)
    ensures (a * b) * c == a * (b * c)
  {
  }

  lemma MulSwap(a: int, b: int, c: int)
    ensures (a * b) * c == (a * c) * b
  {
  }
}
