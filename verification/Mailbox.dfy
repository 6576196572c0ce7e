/**
 The request and reply protocol over the shared buffer, as a state machine. The N64, the
 cart and the host take their steps in any order; each step is one access to the buffer,
 one register write, or one USB transfer.
 */
module Mailbox {
  import opened Bram
  import opened HostLink
  import opened Options
  import opened Wire

  const NETWORK_POST: byte := 0xC4
  const REQUEST_USER_INFO: byte := 0xC5

  /** A transmit: type, source memory in whole words, length, and the receive buffer's size if a reply follows. */
  datatype Message = Message(t: byte, data: seq<byte>, length: nat, limit: nat)

  predicate IsRequest(t: byte) {
    t == NETWORK_POST || t == REQUEST_USER_INFO
  }

  /** What the N64 sends fits the host's buffer; a type that is not a request gets no reply. */
  predicate Legal(m: Message) {
    |m.data| == RoundUp4(m.length) && m.length <= PAYLOAD_LIMIT && m.limit <= SIZE
  }

  /** Where the N64 is in transmit and, after a request, in receive. */
  datatype N64 =
    | Idle
    | WaitToSend(m: Message)
    | Sending(m: Message, i: nat)
    | SetData1(m: Message)
    | SetCommand(m: Message)
    | Polling(m: Message)
    | WaitToRead(m: Message)
    | ReadMagic(m: Message)
    | ReadLength(m: Message)
    | Reading(m: Message, count: nat, got: seq<byte>)

  /** The cart is busy while it captures an outgoing packet and while it stores an incoming one. */
  datatype Cart =
    | Ready
    | Capturing(header: word, captured: seq<byte>)
    | Storing(bytes: seq<byte>, stored: nat)

  /** A request as the host decoded it, and the reply it gave. */
  datatype Exchange = Exchange(t: byte, payload: seq<byte>, reply: seq<byte>)

  datatype Result = Got(bytes: seq<byte>) | Failed

  /**
   Besides the machine itself, the histories: transmits called, requests sent, packets the host
   has read, requests it answered, and what each receive returned.
   */
  datatype State = State(
    bram: seq<byte>, cart: Cart, data1: word, toHost: seq<seq<byte>>, toCart: seq<seq<byte>>, n64: N64,
    called: seq<Message>, sent: seq<Message>, hostRead: seq<seq<byte>>, answered: seq<Exchange>, received: seq<Result>)

  datatype Action =
    | Call(m: Message)
    | N64Step
    | CartStep(prefix: seq<byte>)
    | HostRead(reply: Option<seq<byte>>, stale: seq<byte>)

  predicate LegalAction(a: Action) {
    match a
    case Call(m) => Legal(m)
    case N64Step => true
    case CartStep(prefix) => |prefix| == TYPE_OFFSET
    case HostRead(reply, stale) => |stale| == HOST_BUFFER && (reply.Some? ==> |reply.value| <= REPLY_LIMIT)
  }

  // ---- The N64 ----

  /** The i-th word a transmit stores. */
  function FrameWord(m: Message, i: nat): word
    requires i < 2 + |m.data| / 4 && m.length < 0x1_0000_0000
  {
    if i == 0 then MAGIC_N64_TO_PC
    else if i == 1 then m.length
    else FromBigEndian(m.data[4 * (i - 2)..4 * (i - 2) + 4])
  }

  function N64Next(s: State): State
    requires Sized(s)
  {
    match s.n64
    case Idle => s
    case WaitToSend(m) => if s.cart.Ready? then s.(n64 := Sending(m, 0)) else s
    case Sending(m, i) =>
      if Legal(m) && i < 2 + |m.data| / 4 then
        s.(bram := Patch(s.bram, 4 * i, BigEndian(FrameWord(m, i))), n64 := Sending(m, i + 1))
      else s.(n64 := SetData1(m))
    case SetData1(m) => s.(data1 := Header(m.t, m.length + 8) % 0x1_0000_0000, n64 := SetCommand(m))
    case SetCommand(m) =>
      var s' := s.(cart := Capturing(s.data1, []));
      if IsRequest(m.t) then s'.(sent := s.sent + [m], n64 := Polling(m)) else s'.(n64 := Idle)
    case Polling(m) => if WordAt(s.bram, 0) == MAGIC_PC_TO_N64 then s.(n64 := WaitToRead(m)) else s
    case WaitToRead(m) => if s.cart.Ready? then s.(n64 := ReadMagic(m)) else s
    case ReadMagic(m) =>
      if WordAt(s.bram, 0) == MAGIC_PC_TO_N64 then s.(n64 := ReadLength(m))
      else s.(received := s.received + [Failed], n64 := Idle)
    case ReadLength(m) => s.(n64 := Reading(m, ReceiveLength(s.bram, m.limit), []))
    case Reading(m, count, got) =>
      if |got| < count && |got| + 12 <= |s.bram| then
        s.(n64 := Reading(m, count, got + BigEndian(WordAt(s.bram, |got| + 8))))
      else s.(received := s.received + [Got(got[..Min(count, |got|)])], n64 := Idle)
  }

  // ---- The cart ----

  function CartNext(s: State, prefix: seq<byte>): State
    requires Sized(s) && |prefix| == TYPE_OFFSET
  {
    match s.cart
    case Ready =>
      if s.toCart == [] then s
      else
        var p := s.toCart[0];
        s.(toCart := s.toCart[1..],
           cart := if |p| >= 12 && WordAt(p, 8) + 12 <= |p| then Storing(p[12..12 + WordAt(p, 8)], 0) else Ready)
    case Capturing(header, done) =>
      if |done| < header % 0x100_0000 && |done| < |s.bram| then s.(cart := Capturing(header, done + [s.bram[|done|]]))
      else s.(cart := Ready, toHost := s.toHost + [TransportPacket(prefix, header, done)])
    case Storing(bytes, done) =>
      if done < |bytes| && done < |s.bram| then
        s.(bram := s.bram[done := bytes[done]], cart := Storing(bytes, done + 1))
      else s.(cart := Ready)
  }

  // ---- The host ----

  /** Reads one packet; answers it at most once, and only if it is a request. */
  function HostNext(s: State, reply: Option<seq<byte>>, stale: seq<byte>): State
    requires |stale| == HOST_BUFFER && (reply.Some? ==> |reply.value| <= REPLY_LIMIT)
  {
    if s.toHost == [] then s
    else
      var b := HostBuffer(s.toHost[0], stale);
      var s' := s.(toHost := s.toHost[1..], hostRead := s.hostRead + [s.toHost[0]]);
      if |s.toHost[0]| > 10 && IsRequest(HostType(b)) && reply.Some? then
        var end := Min(HOST_BUFFER, PAYLOAD_OFFSET + DecodedLength(b) - 8);
        var payload := if end < PAYLOAD_OFFSET then [] else b[PAYLOAD_OFFSET..end];
        s'.(toCart := s.toCart + [CommandPacket(reply.value)],
            answered := s.answered + [Exchange(HostType(b), payload, reply.value)])
      else s'
  }

  predicate Sized(s: State) {
    |s.bram| == WINDOW
  }

  function Next(s: State, a: Action): (s': State)
    requires Sized(s) && LegalAction(a)
    ensures Sized(s')
  {
    match a
    case Call(m) => if s.n64.Idle? then s.(n64 := WaitToSend(m), called := s.called + [m]) else s
    case N64Step => N64Next(s)
    case CartStep(prefix) => CartNext(s, prefix)
    case HostRead(reply, stale) => HostNext(s, reply, stale)
  }
}
