/**
 Words and bytes: how each side of the link lays out a 32-bit word, and how type and
 length share one word of the transport header.
 */
module Wire {
  import opened Bits

  type byte = b: int | 0 <= b < 0x100
  type word = w: int | 0 <= w < 0x1_0000_0000

  const MAGIC_N64_TO_PC: word := 0x36343E50
  const MAGIC_PC_TO_N64: word := 0x503E3634

  /** A word as the N64 and the cart store it: most significant byte first. */
  function BigEndian(w: word): (s: seq<byte>)
    ensures |s| == 4
  {
    [w / 0x100_0000, w / 0x1_0000 % 0x100, w / 0x100 % 0x100, w % 0x100]
  }

  function FromBigEndian(s: seq<byte>): word
    requires |s| == 4
  {
    var a: int, b: int, c: int, d: int := s[0], s[1], s[2], s[3];
    a * 0x100_0000 + b * 0x1_0000 + c * 0x100 + d
  }

  /** A word as the PC stores it. */
  function LittleEndian(w: word): (s: seq<byte>)
    ensures |s| == 4
  {
    [w % 0x100, w / 0x100 % 0x100, w / 0x1_0000 % 0x100, w / 0x100_0000]
  }

  /** `__builtin_bswap32`. */
  function Swap(w: word): word {
    w % 0x100 * 0x100_0000 + w / 0x100 % 0x100 * 0x1_0000 + w / 0x1_0000 % 0x100 * 0x100 + w / 0x100_0000
  }

  lemma WordDigits(a: byte, b: byte, c: byte, d: byte)
    ensures var w := a * 0x100_0000 + b * 0x1_0000 + c * 0x100 + d;
      w / 0x100_0000 == a && w / 0x1_0000 % 0x100 == b && w / 0x100 % 0x100 == c && w % 0x100 == d
  {
    var w := a * 0x100_0000 + b * 0x1_0000 + c * 0x100 + d;
    assert w / 0x100 == a * 0x1_0000 + b * 0x100 + c && w % 0x100 == d;
    assert w / 0x1_0000 == a * 0x100 + b;
  }

  lemma BytesRoundTrip(s: seq<byte>)
    requires |s| == 4
    ensures BigEndian(FromBigEndian(s)) == s
  {
    WordDigits(s[0], s[1], s[2], s[3]);
  }

  lemma WordRoundTrip(w: word)
    ensures FromBigEndian(BigEndian(w)) == w
  {
    var q := w / 0x100;
    var r := q / 0x100;
    assert w / 0x1_0000 == r && w / 0x100_0000 == r / 0x100;
    assert w == 0x100 * q + w % 0x100 && q == 0x100 * r + q % 0x100 && r == 0x100 * (r / 0x100) + r % 0x100;
  }

  /** Swapping a word before storing it on the PC gives the bytes the N64 would have stored. */
  lemma SwapChangesOrder(w: word)
    ensures LittleEndian(Swap(w)) == BigEndian(w)
  {
    WordDigits(w % 0x100, w / 0x100 % 0x100, w / 0x1_0000 % 0x100, w / 0x100_0000);
  }

  // ---- The type and length word ----

  /** `(type << 24) | length` in 32-bit unsigned arithmetic. */
  function Header(t: byte, length: nat): nat {
    Or(Shl(t, 24), length)
  }

  /** The host's `(b1 << 16) | (b2 << 8) | b3`. */
  function HostLength(b1: byte, b2: byte, b3: byte): nat {
    Or(Or(Shl(b1, 16), Shl(b2, 8)), b3)
  }

  lemma ShiftFits(v: nat, k: nat)
    requires v * Pow2(k) < WORD
    ensures Shl(v, k) == v * Pow2(k)
  {
    ModUnique(v * Pow2(k), WORD, 0, v * Pow2(k));
  }

  lemma HeaderIsSum(t: byte, length: nat)
    requires length < 0x100_0000
    ensures Header(t, length) == t * 0x100_0000 + length
  {
    Pow2Values();
    ShiftFits(t, 24);
    OrDisjoint(t, length, 24);
  }

  lemma HostLengthIsSum(b1: byte, b2: byte, b3: byte)
    ensures HostLength(b1, b2, b3) == b1 * 0x1_0000 + b2 * 0x100 + b3
  {
    Pow2Values();
    ShiftFits(b1, 16);
    ShiftFits(b2, 8);
    OrDisjoint(b1, b2 * 0x100, 16);
    ShiftedPair(b1, b2, b3);
  }

  lemma ShiftedPair(b1: byte, b2: byte, b3: byte)
    ensures Or(b1 * 0x1_0000 + b2 * 0x100, b3) == b1 * 0x1_0000 + b2 * 0x100 + b3
  {
    Pow2Values();
    OrDisjoint(b1 * 0x100 + b2, b3, 8);
    assert (b1 * 0x100 + b2) * Pow2(8) == b1 * 0x1_0000 + b2 * 0x100;
  }

  /** The host reads back the type and the length the N64 packed. */
  lemma HeaderRoundTrip(t: byte, length: nat)
    requires length < 0x100_0000
    ensures Header(t, length) < WORD
    ensures var s := BigEndian(Header(t, length)); s[0] == t && HostLength(s[1], s[2], s[3]) == length
  {
    hide Header, HostLength;
    HeaderIsSum(t, length);
    var q := length / 0x100;
    var a, b, c := q / 0x100, q % 0x100, length % 0x100;
    assert length == a * 0x1_0000 + b * 0x100 + c;
    WordDigits(t, a, b, c);
    HostLengthIsSum(a, b, c);
  }
}
