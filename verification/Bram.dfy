/**
 The 8 KB buffer the N64 and the PC share, and the two word-by-word copies the N64
 makes between it and its own memory.
 */
module Bram {
  import opened Wire

  const SIZE: nat := 0x2000

  /** The buffer and the eight bytes after it, which a copy of the full 8 KB also touches. */
  const WINDOW: nat := SIZE + 8

  datatype Error = Ok | ParameterInvalid | ClientRuntime

  function Min(a: nat, b: nat): nat {
    if a < b then a else b
  }

  function RoundUp4(n: nat): nat {
    (n + 3) / 4 * 4
  }

  /** Counting in fours, and where it ends. */
  predicate Fours(i: nat, n: nat) {
    i % 4 == 0 && i <= RoundUp4(n)
  }

  lemma FoursFromZero(n: nat)
    ensures Fours(0, n) && 0 <= RoundUp4(n)
  {
  }

  lemma FourMore(i: nat, n: nat)
    requires Fours(i, n)
    ensures i < n ==> i + 4 <= RoundUp4(n) && Fours(i + 4, n)
    ensures i >= n ==> i == RoundUp4(n)
    ensures n <= RoundUp4(n) < n + 4
  {
  }

  lemma RoundUp4Monotone(m: nat, n: nat)
    requires m <= n
    ensures RoundUp4(m) <= RoundUp4(n)
  {
  }

  lemma RoundUp4Limit(n: nat)
    ensures 8 + RoundUp4(n) <= SIZE <==> n <= 8184
    ensures n <= SIZE ==> RoundUp4(n) <= SIZE
  {
  }

  /** Magic, length, then the message. */
  function Frame(magic: word, length: word, body: seq<byte>): seq<byte> {
    BigEndian(magic) + BigEndian(length) + body
  }

  /** Bytes s laid over m from the given offset. */
  function Patch(m: seq<byte>, offset: nat, s: seq<byte>): (r: seq<byte>)
    requires offset + |s| <= |m|
    ensures |r| == |m|
  {
    m[..offset] + s + m[offset + |s|..]
  }

  /** Memory m once a header and the first i bytes of src have been laid over it. */
  function Copied(m: seq<byte>, head: seq<byte>, src: seq<byte>, i: nat): (r: seq<byte>)
    requires |head| + i <= |m| && i <= |src|
    ensures |r| == |m|
  {
    head + src[..i] + m[|head| + i..]
  }

  /** Copying the next four bytes. */
  lemma CopyStep(m: seq<byte>, head: seq<byte>, src: seq<byte>, i: nat)
    requires |head| + i + 4 <= |m| && i + 4 <= |src|
    ensures Patch(Copied(m, head, src, i), |head| + i, src[i..i + 4]) == Copied(m, head, src, i + 4)
  {
  }

  lemma NothingCopied(m: seq<byte>, head: seq<byte>, src: seq<byte>)
    requires |head| <= |m|
    ensures |head| + 0 <= |m| && Copied(m, head, src, 0) == head + m[|head|..]
  {
  }

  lemma AllCopied(m: seq<byte>, head: seq<byte>, src: seq<byte>, i: nat)
    requires |head| + i <= |m| && i <= |src|
    ensures Copied(m, head, src, i) == head + src[..i] + m[|head| + i..]
  {
  }

  function WordAt(m: seq<byte>, offset: nat): word
    requires offset + 4 <= |m|
  {
    FromBigEndian(m[offset..offset + 4])
  }

  /** How many bytes a receive of at most `limit` hands over, given a message from the PC. */
  function ReceiveLength(m: seq<byte>, limit: nat): nat
    requires 8 <= |m|
  {
    Min(limit, WordAt(m, 4))
  }

  class Buffer {
    const mem: array<byte>

    constructor ()
      ensures fresh(mem) && mem.Length == WINDOW
    {
      mem := new byte[WINDOW](_ => 0);
    }

    method IoRead(offset: nat) returns (w: word)
      requires offset + 4 <= mem.Length
      ensures w == WordAt(mem[..], offset)
    {
      w := FromBigEndian(mem[offset..offset + 4]);
      assert mem[offset..offset + 4] == mem[..][offset..offset + 4];
    }

    method IoWrite(offset: nat, w: word)
      requires offset + 4 <= mem.Length
      modifies mem
      ensures mem[..] == Patch(old(mem[..]), offset, BigEndian(w))
    {
      var s := BigEndian(w);
      mem[offset], mem[offset + 1], mem[offset + 2], mem[offset + 3] := s[0], s[1], s[2], s[3];
    }

    /** One word of the buffer, stored at dst + i. */
    method CopyWord(dst: array<byte>, i: nat)
      requires dst != mem && i + 4 <= dst.Length && i + 12 <= mem.Length
      modifies dst
      ensures dst[..] == Patch(old(dst[..]), i, mem[i + 8..i + 12])
    {
      var w := IoRead(i + 8);
      var s := BigEndian(w);
      BytesRoundTrip(mem[i + 8..i + 12]);
      assert mem[..][i + 8..i + 12] == mem[i + 8..i + 12];
      dst[i], dst[i + 1], dst[i + 2], dst[i + 3] := s[0], s[1], s[2], s[3];
    }

    /** Copies whole words until `count` bytes are there. */
    method CopyOut(dst: array<byte>, count: nat)
      requires mem.Length == WINDOW && dst != mem && RoundUp4(count) <= dst.Length && RoundUp4(count) <= SIZE
      modifies dst
      ensures dst[..] == mem[8..8 + RoundUp4(count)] + old(dst[RoundUp4(count)..])
    {
      hide Patch, Copied, RoundUp4, Fours;
      ghost var before, src := dst[..], mem[8..];
      NothingCopied(before, [], src);
      assert [] + before[0..] == before;
      FoursFromZero(count);
      var i := 0;
      while i < count
        invariant Fours(i, count) && i <= RoundUp4(count)
        invariant dst[..] == Copied(before, [], src, i)
      {
        FourMore(i, count);
        CopyStep(before, [], src, i);
        assert src[i..i + 4] == mem[i + 8..i + 12];
        CopyWord(dst, i);
        i := i + 4;
      }
      FourMore(i, count);
      AllCopied(before, [], src, i);
      assert [] + src[..i] == mem[8..8 + i];
    }

    /** Copies the message into dst, in whole words: the bytes after them in dst stay. */
    method Read(dst: array<byte>, length: word) returns (err: Error)
      requires mem.Length == WINDOW && dst != mem
      requires length <= SIZE ==> RoundUp4(length) <= dst.Length
      modifies dst
      ensures err == ParameterInvalid <==> length > SIZE
      ensures err == ClientRuntime <==> length <= SIZE && WordAt(mem[..], 0) != MAGIC_PC_TO_N64
      ensures err != Ok ==> dst[..] == old(dst[..])
      ensures err == Ok ==>
        var n := RoundUp4(ReceiveLength(mem[..], length));
        n <= RoundUp4(length) && dst[..] == mem[8..8 + n] + old(dst[n..])
    {
      if length > SIZE {
        return ParameterInvalid;
      }
      var magic := IoRead(0);
      if magic != MAGIC_PC_TO_N64 {
        return ClientRuntime;
      }
      var packetLength := IoRead(4);
      var count := length;
      if count > packetLength {
        count := packetLength;
      }
      RoundUp4Monotone(count, length);
      RoundUp4Limit(length);
      CopyOut(dst, count);
      return Ok;
    }

    /** Overwrites exactly the first 8 + RoundUp4(length) bytes. They are inside the buffer up to 8184. */
    method Write(data: array<byte>, length: word) returns (err: Error)
      requires mem.Length == WINDOW && data != mem
      requires length <= SIZE ==> RoundUp4(length) <= data.Length
      modifies mem
      ensures err == if length > SIZE then ParameterInvalid else Ok
      ensures err != Ok ==> mem[..] == old(mem[..])
      ensures err == Ok ==>
        mem[..] == Frame(MAGIC_N64_TO_PC, length, data[..RoundUp4(length)]) + old(mem[8 + RoundUp4(length)..])
      ensures err == Ok ==> (8 + RoundUp4(length) <= SIZE <==> length <= 8184)
    {
      if length > SIZE {
        return ParameterInvalid;
      }
      IoWrite(0, MAGIC_N64_TO_PC);
      IoWrite(4, length);
      ghost var before, src, head := old(mem[..]), data[..], BigEndian(MAGIC_N64_TO_PC) + BigEndian(length);
      NothingCopied(before, head, src);
      assert mem[..] == Copied(before, head, src, 0);
      RoundUp4Limit(length);
      FoursFromZero(length);
      hide BigEndian, FromBigEndian, Patch, Copied, RoundUp4, Fours;
      var i := 0;
      while i < length
        invariant Fours(i, length) && i <= RoundUp4(length)
        invariant mem[..] == Copied(before, head, src, i)
      {
        FourMore(i, length);
        CopyStep(before, head, src, i);
        assert data[i..i + 4] == src[i..i + 4];
        BytesRoundTrip(data[i..i + 4]);
        IoWrite(i + 8, FromBigEndian(data[i..i + 4]));
        i := i + 4;
      }
      FourMore(i, length);
      AllCopied(before, head, src, i);
      assert src[..i] == data[..i];
      return Ok;
    }
  }
}
