/**
 The PC's side of the link: the command packet that puts a reply in the shared buffer,
 the decoding of a packet read from the N64, and the splitting of a network request.
 */
module HostLink {
  import opened Bram
  import opened Wire

  // ---- PC to N64 ----

  const REPLY_LIMIT: nat := 488

  /** "CMD" 'M', the cart address of the buffer, the byte count, and then the bytes. */
  function CommandPacket(msg: seq<byte>): (p: seq<byte>)
    requires |msg| <= REPLY_LIMIT
    ensures |p| == 20 + |msg|
  {
    [67, 77, 68, 77] + BigEndian(0x05000000) + BigEndian(|msg| + 8) + Frame(MAGIC_PC_TO_N64, |msg|, msg)
  }

  /** A 32-bit store on the PC, just after the fields already filled in. */
  method StoreWord(packet: array<byte>, offset: nat, w: word)
    requires offset + 4 <= packet.Length
    modifies packet
    ensures packet[..offset + 4] == old(packet[..offset]) + LittleEndian(w)
  {
    var s := LittleEndian(w);
    packet[offset], packet[offset + 1], packet[offset + 2], packet[offset + 3] := s[0], s[1], s[2], s[3];
  }

  /** Fills in the packet structure field by field, on a little-endian machine. */
  method AuxWrite(data: array<byte>, length: nat) returns (packet: array<byte>, sent: nat)
    requires length <= data.Length && length <= REPLY_LIMIT
    ensures sent == 20 + length && sent <= packet.Length
    ensures packet[..sent] == CommandPacket(data[..length])
  {
    packet := new byte[12 + 496](_ => 0);
    PutFields(packet, length);
    forall i | 0 <= i < length {
      packet[20 + i] := data[i];
    }
    sent := 20 + length;
    assert packet[..sent] == packet[..20] + data[..length];
  }

  /** Everything before the data. */
  method PutFields(packet: array<byte>, length: nat)
    requires packet.Length >= 20 && length <= REPLY_LIMIT
    modifies packet
    ensures packet[..20] == [67, 77, 68, 77] + BigEndian(0x05000000) + BigEndian(length + 8)
                            + BigEndian(MAGIC_PC_TO_N64) + BigEndian(length)
  {
    packet[0], packet[1], packet[2], packet[3] := 67, 77, 68, 77;
    SwapChangesOrder(0x05000000);
    SwapChangesOrder(length + 8);
    SwapChangesOrder(MAGIC_PC_TO_N64);
    SwapChangesOrder(length);
    hide LittleEndian, BigEndian, Swap;
    assert packet[..4] == [67, 77, 68, 77];
    StoreWord(packet, 4, Swap(0x05000000));
    StoreWord(packet, 8, Swap(length + 8));
    StoreWord(packet, 12, Swap(MAGIC_PC_TO_N64));
    StoreWord(packet, 16, Swap(length));
  }

  /** What the cart does with the packet: it writes the bytes at the start of the buffer. */
  function CartStores(bram: seq<byte>, packet: seq<byte>): seq<byte>
    requires |packet| >= 12 && WordAt(packet, 8) + 12 <= |packet| && WordAt(packet, 8) <= |bram|
  {
    Patch(bram, 0, packet[12..12 + WordAt(packet, 8)])
  }

  /**
   A reply of up to 488 bytes reaches the N64 unchanged: a receive of at most `limit` bytes
   takes its first min(limit, length) bytes, and the whole words it stores stay within a
   limit that is a multiple of four.
   */
  lemma PcToN64RoundTrip(bram: seq<byte>, msg: seq<byte>, limit: nat)
    requires |bram| == WINDOW && |msg| <= REPLY_LIMIT && limit <= SIZE
    ensures var p := CommandPacket(msg);
      && WordAt(p, 8) + 12 == |p|
      && var m := CartStores(bram, p);
      && WordAt(m, 0) == MAGIC_PC_TO_N64
      && var n := ReceiveLength(m, limit);
      && n == Min(limit, |msg|) && m[8..8 + n] == msg[..n]
      && RoundUp4(n) < n + 4 && (limit % 4 == 0 ==> RoundUp4(n) <= limit)
  {
    var p := CommandPacket(msg);
    assert p[8..12] == BigEndian(|msg| + 8);
    assert p[12..] == Frame(MAGIC_PC_TO_N64, |msg|, msg);
    WordRoundTrip(|msg| + 8);
    WordRoundTrip(|msg|);
    WordRoundTrip(MAGIC_PC_TO_N64);
    hide BigEndian, FromBigEndian;
    var f := Frame(MAGIC_PC_TO_N64, |msg|, msg);
    assert f[0..4] == BigEndian(MAGIC_PC_TO_N64) && f[4..8] == BigEndian(|msg|) && f[8..] == msg;
    hide Frame;
    var m := CartStores(bram, p);
    assert m[..|f|] == f;
    assert m[0..4] == f[0..4] && m[4..8] == f[4..8];
    var n := ReceiveLength(m, limit);
    assert m[8..8 + n] == f[8..][..n];
  }

  // ---- N64 to PC ----

  const TYPE_OFFSET: nat := 10
  const PAYLOAD_OFFSET: nat := 22
  const HOST_BUFFER: nat := 512

  /** What the cart sends for a transmit: ten bytes of its own, the type and length word, the buffer. */
  function TransportPacket(prefix: seq<byte>, header: word, captured: seq<byte>): seq<byte>
    requires |prefix| == TYPE_OFFSET
  {
    prefix + BigEndian(header) + captured
  }

  /** The host's buffer after a read: the packet, cut at 512 bytes, over what was there before. */
  function HostBuffer(packet: seq<byte>, stale: seq<byte>): (r: seq<byte>)
    requires |stale| == HOST_BUFFER
    ensures |r| == HOST_BUFFER
  {
    Patch(stale, 0, packet[..Min(|packet|, HOST_BUFFER)])
  }

  function HostType(buffer: seq<byte>): byte
    requires |buffer| == HOST_BUFFER
  {
    buffer[TYPE_OFFSET]
  }

  function DecodedLength(buffer: seq<byte>): nat
    requires |buffer| == HOST_BUFFER
  {
    HostLength(buffer[11], buffer[12], buffer[13])
  }

  const PAYLOAD_LIMIT: nat := HOST_BUFFER - PAYLOAD_OFFSET

  /**
   The host decodes the type and length of every transmit, and finds at offset 22 as much
   of the payload as fits: all of it exactly up to 490 bytes.
   */
  lemma N64ToPcRoundTrip(prefix: seq<byte>, t: byte, data: seq<byte>, length: nat, after: seq<byte>, stale: seq<byte>)
    requires |prefix| == TYPE_OFFSET && length <= SIZE && RoundUp4(length) <= |data| && |stale| == HOST_BUFFER
    ensures length <= RoundUp4(length) && Header(t, length + 8) < 0x1_0000_0000
    ensures var mem := Frame(MAGIC_N64_TO_PC, length, data[..RoundUp4(length)]) + after;
      var b := HostBuffer(TransportPacket(prefix, Header(t, length + 8), mem[..length + 8]), stale);
      && HostType(b) == t && DecodedLength(b) == length + 8
      && (var n := Min(length, PAYLOAD_LIMIT); b[PAYLOAD_OFFSET..PAYLOAD_OFFSET + n] == data[..n])
      && (length <= PAYLOAD_LIMIT ==> b[PAYLOAD_OFFSET..] == data[..length] + stale[PAYLOAD_OFFSET + length..])
  {
    HeaderRoundTrip(t, length + 8);
    FramePayload(data, length, after);
    var mem := Frame(MAGIC_N64_TO_PC, length, data[..RoundUp4(length)]) + after;
    var header, captured := Header(t, length + 8), mem[..length + 8];
    hide BigEndian, Header, HostLength, RoundUp4, Frame, HostBuffer, TransportPacket;
    BufferKeepsPacket(prefix, header, captured, stale);
    var b := HostBuffer(TransportPacket(prefix, header, captured), stale);
    DecodesHeader(b, t, length + 8);
    hide HostType, DecodedLength;
    PayloadFits(b, data, length, stale);
  }

  lemma FramePayload(data: seq<byte>, length: nat, after: seq<byte>)
    requires length <= SIZE && RoundUp4(length) <= |data|
    ensures length <= RoundUp4(length)
    ensures var mem := Frame(MAGIC_N64_TO_PC, length, data[..RoundUp4(length)]) + after;
      |mem| >= length + 8 && mem[..length + 8][8..] == data[..length]
  {
  }

  lemma PayloadFits(b: seq<byte>, data: seq<byte>, length: nat, stale: seq<byte>)
    requires |b| == HOST_BUFFER && length <= |data| && |stale| == HOST_BUFFER
    requires var n := Min(length, PAYLOAD_LIMIT);
      b[PAYLOAD_OFFSET..] == data[..length][..n] + stale[PAYLOAD_OFFSET + n..]
    ensures var n := Min(length, PAYLOAD_LIMIT); b[PAYLOAD_OFFSET..PAYLOAD_OFFSET + n] == data[..n]
    ensures length <= PAYLOAD_LIMIT ==> b[PAYLOAD_OFFSET..] == data[..length] + stale[PAYLOAD_OFFSET + length..]
  {
  }

  lemma DecodesHeader(b: seq<byte>, t: byte, length: nat)
    requires |b| == HOST_BUFFER && length < 0x100_0000
    requires Header(t, length) < 0x1_0000_0000 && b[10..14] == BigEndian(Header(t, length))
    ensures HostType(b) == t && DecodedLength(b) == length
  {
    HeaderRoundTrip(t, length);
    var s := b[10..14];
    assert s[0] == b[10] && s[1] == b[11] && s[2] == b[12] && s[3] == b[13];
  }

  /** The type and length word at offset 10, and the captured bytes after the first eight at offset 22, cut at 512. */
  lemma BufferKeepsPacket(prefix: seq<byte>, header: word, captured: seq<byte>, stale: seq<byte>)
    requires |prefix| == TYPE_OFFSET && |captured| >= 8 && |stale| == HOST_BUFFER
    ensures var b := HostBuffer(TransportPacket(prefix, header, captured), stale);
      var n := Min(|captured| - 8, PAYLOAD_LIMIT);
      && b[10..14] == BigEndian(header)
      && b[PAYLOAD_OFFSET..] == captured[8..][..n] + stale[PAYLOAD_OFFSET + n..]
  {
    var p := TransportPacket(prefix, header, captured);
    assert p[10..14] == BigEndian(header) && p[22..] == captured[8..];
    hide TransportPacket, BigEndian;
    var n := Min(|captured| - 8, PAYLOAD_LIMIT);
    assert p[..Min(|p|, HOST_BUFFER)][22..] == p[22..][..n];
  }
}
