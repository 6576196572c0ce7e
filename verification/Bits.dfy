/**
 Machine-word bit operations on natural numbers: the C operators `<<` (32 bits
 wide), `>>` and `|`, and the arithmetic meaning they have on packed fields.
 */
module Bits {
  const WORD: nat := 0x1_0000_0000

  function Pow2(k: nat): (p: nat)
    ensures p > 0
  {
    if k == 0 then 1 else 2 * Pow2(k - 1)
  }

  /** `v << k` on a 32-bit unsigned word: bits shifted past bit 31 are lost. */
  function Shl(v: nat, k: nat): nat {
    v * Pow2(k) % WORD
  }

  /** `v >> k` on an unsigned word. */
  function Shr(v: nat, k: nat): nat {
    QuotientIsNat(v, Pow2(k));
    v / Pow2(k)
  }

  lemma QuotientIsNat(v: nat, p: nat)
    requires p > 0
    ensures v / p >= 0
  {
  }

  /** `a | b`, bit by bit from the least significant bit. */
  function Or(a: nat, b: nat): nat
    decreases a + b
  {
    if a == 0 && b == 0 then 0
    else 2 * Or(a / 2, b / 2) + (if a % 2 == 1 || b % 2 == 1 then 1 else 0)
  }

  lemma {:induction false} OrZero(a: nat)
    ensures Or(a, 0) == a && Or(0, a) == a
  {
    if a != 0 {
      OrZero(a / 2);
    }
  }

  lemma {:induction false} OrCommutes(a: nat, b: nat)
    ensures Or(a, b) == Or(b, a)
    decreases a + b
  {
    if a != 0 || b != 0 {
      OrCommutes(a / 2, b / 2);
    }
  }

  /** Fields that do not overlap: `|` adds them. */
  lemma {:induction false} OrDisjoint(hi: nat, lo: nat, k: nat)
    requires lo < Pow2(k)
    ensures Or(hi * Pow2(k), lo) == hi * Pow2(k) + lo
    ensures Or(lo, hi * Pow2(k)) == hi * Pow2(k) + lo
    decreases k
  {
    if k == 0 {
      OrZero(hi);
    } else {
      var half := hi * Pow2(k - 1);
      assert hi * Pow2(k) == 2 * half;
      OrDisjoint(hi, lo / 2, k - 1);
      assert 2 * half / 2 == half;
    }
    OrCommutes(lo, hi * Pow2(k));
  }

  lemma {:induction false} Pow2Adds(a: nat, b: nat)
    ensures Pow2(a + b) == Pow2(a) * Pow2(b)
  {
    if a != 0 {
      Pow2Adds(a - 1, b);
      assert Pow2(a + b) == 2 * Pow2(a - 1 + b);
    }
  }

  lemma Pow2Values()
    ensures Pow2(4) == 16 && Pow2(5) == 32 && Pow2(8) == 256 && Pow2(11) == 2048
    ensures Pow2(15) == 32768 && Pow2(16) == 0x1_0000 && Pow2(24) == 0x100_0000 && Pow2(32) == WORD
  {
    assert Pow2(4) == 16;
    Pow2Adds(4, 4);
    Pow2Adds(8, 8);
    Pow2Adds(16, 16);
    Pow2Adds(8, 16);
    assert Pow2(5) == 32;
    assert Pow2(11) == 2048 by { Pow2Adds(8, 3); assert Pow2(3) == 8; }
    assert Pow2(15) == 32768 by { Pow2Adds(11, 4); }
  }

  /** The remainder of a common multiple: c*v mod c*m is c times v mod m. */
  lemma ScaledMod(c: nat, v: nat, m: nat)
    requires c > 0 && m > 0
    ensures c * m > 0
    ensures v * c % (c * m) == c * (v % m)
  {
    assert c * m > 0;
    var q, r := v / m, v % m;
    assert v == q * m + r;
    assert v * c == q * (c * m) + c * r;
    assert 0 <= c * r < c * m;
    ModUnique(v * c, c * m, q, c * r);
  }

  lemma ModUnique(x: nat, n: nat, q: nat, r: nat)
    requires n > 0 && x == q * n + r && r < n
    ensures x / n == q && x % n == r
  {
    QuotientUnique(n, q, r, x / n, x % n);
  }

  lemma QuotientUnique(n: nat, q: int, r: nat, q': int, r': nat)
    requires r < n && r' < n && q * n + r == q' * n + r'
    ensures q == q' && r == r'
  {
    if q > q' {
      NextMultiple(q' + 1, q, n);
    } else if q < q' {
      NextMultiple(q + 1, q', n);
    }
  }

  lemma NextMultiple(a: int, b: int, n: nat)
    requires a <= b
    ensures a * n <= b * n && a * n == (a - 1) * n + n
  {
  }

  /** A common factor cancels: c*x div c*d is x div d. */
  lemma ScaledDiv(c: nat, x: nat, d: nat)
    requires c > 0 && d > 0
    ensures c * d > 0
    ensures c * x / (c * d) == x / d
  {
    assert c * d > 0;
    var q, r := x / d, x % d;
    assert c * x == q * (c * d) + c * r;
    assert c * r < c * d;
    ModUnique(c * x, c * d, q, c * r);
  }

  /** The BITS(v, b, e) macro: shift left to drop the bits above e, then right down to bit b. */
  function Field(v: nat, b: nat, e: nat): nat
    requires b <= e <= 31
  {
    Shr(Shl(v, 31 - e), 31 - e + b)
  }

  /** What BITS means, for every word and every pair of bit positions. */
  lemma FieldIsDivMod(v: nat, b: nat, e: nat)
    requires b <= e <= 31
    ensures Field(v, b, e) == v % Pow2(e + 1) / Pow2(b)
  {
    var c := Pow2(31 - e);
    Pow2Values();
    Pow2Adds(31 - e, e + 1);
    ScaledMod(c, v, Pow2(e + 1));
    Pow2Adds(31 - e, b);
    ScaledDiv(c, v % Pow2(e + 1), Pow2(b));
  }
}
