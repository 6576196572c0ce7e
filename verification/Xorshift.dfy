/**
 The pseudo-random generator that picks where a probe starts.
 */
module Xorshift {
  import Bits

  function Rand(state: bv32): bv32 {
    var a := state ^ (state << 13);
    var b := a ^ (a >> 7);
    b ^ (b << 5)
  }

  /** Undoes the three steps in reverse; each step is undone by the telescoping sum of its shifts. */
  function UnRand(y: bv32): bv32 {
    var b := y ^ (y << 5) ^ (y << 10) ^ (y << 15) ^ (y << 20) ^ (y << 25) ^ (y << 30);
    var a := b ^ (b >> 7) ^ (b >> 14) ^ (b >> 21) ^ (b >> 28);
    a ^ (a << 13) ^ (a << 26)
  }

  /** One step permutes the 32-bit words, and zero is its own image and nobody else's. */
  lemma RandIsPermutation(x: bv32)
    ensures UnRand(Rand(x)) == x && Rand(UnRand(x)) == x
    ensures Rand(x) == 0 <==> x == 0
  {
  }

  /** Multiplied out, a draw is the exclusive or of eight shifts of the state: a linear map. */
  lemma RandIsSumOfShifts(x: bv32)
    ensures Rand(x) == x ^ (x << 13) ^ (x >> 7) ^ ((x << 13) >> 7) ^ (x << 5) ^ (x << 18) ^ ((x >> 7) << 5) ^ (((x << 13) >> 7) << 5)
  {
  }

  /** Its images of the one-bit words. */
  lemma RandOfOneBit()
    ensures Rand(0x1) == 0x42861 && Rand(0x2) == 0x850c2
    ensures Rand(0x4) == 0x10a184 && Rand(0x8) == 0x214308
    ensures Rand(0x10) == 0x428610 && Rand(0x20) == 0x850c20
    ensures Rand(0x40) == 0x10a1840 && Rand(0x80) == 0x21430a1
    ensures Rand(0x100) == 0x4286142 && Rand(0x200) == 0x850c284
    ensures Rand(0x400) == 0x10a18508 && Rand(0x800) == 0x21430a10
    ensures Rand(0x1000) == 0x42861420 && Rand(0x2000) == 0x850c2840
    ensures Rand(0x4000) == 0xa185080 && Rand(0x8000) == 0x1430a100
    ensures Rand(0x10000) == 0x28614200 && Rand(0x20000) == 0x50c28400
    ensures Rand(0x40000) == 0xa1850800 && Rand(0x80000) == 0x10a1000
    ensures Rand(0x100000) == 0x2142000 && Rand(0x200000) == 0x4284000
    ensures Rand(0x400000) == 0x8508000 && Rand(0x800000) == 0x10a10000
    ensures Rand(0x1000000) == 0x21420000 && Rand(0x2000000) == 0x42840000
    ensures Rand(0x4000000) == 0x85080000 && Rand(0x8000000) == 0xa100000
    ensures Rand(0x10000000) == 0x14200000 && Rand(0x20000000) == 0x28400000
    ensures Rand(0x40000000) == 0x50800000 && Rand(0x80000000) == 0xa1000000
  {
  }

  /** `__randn` when the bound is a compile-time constant: the remainder. */
  function RandnConst(state: bv32, n: int): (r: int)
    requires n > 0
    ensures 0 <= r < n
  {
    Rand(state) as int % n
  }

  lemma RandnConstIsRemainder(state: bv32, n: int, q: nat, r: nat)
    requires n > 0 && Rand(state) as int == q * n + r && r < n
    ensures RandnConst(state, n) == r
  {
    Bits.ModUnique(Rand(state) as int, n, q, r);
  }

  lemma ProductBound(r: int, n: int)
    requires 0 <= r < 0x1_0000_0000 && 0 < n < 0x8000_0000
    ensures 0 <= r * n < 0x1_0000_0000 * n
  {
  }

  /** `__randn` otherwise: the high word of a 64-bit product. */
  function Randn(state: bv32, n: int): (r: int)
    requires 0 < n < 0x8000_0000
    ensures 0 <= r < n
    ensures r * 0x1_0000_0000 <= Rand(state) as int * n < (r + 1) * 0x1_0000_0000
  {
    var x := Rand(state) as int;
    ProductBound(x, n);
    x * n % 0x1_0000_0000_0000_0000 / 0x1_0000_0000
  }
}
