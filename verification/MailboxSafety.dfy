/**
 In every interleaving each receive returns the reply to the request just transmitted.
 */
module MailboxSafety {
  import Bits
  import opened Bram
  import opened HostLink
  import opened Mailbox
  import opened Options
  import opened Wire

  /** A packet the host will not answer. */
  predicate LogPacket(p: seq<byte>) {
    |p| > TYPE_OFFSET && !IsRequest(p[TYPE_OFFSET])
  }

  predicate AllLogs(ps: seq<seq<byte>>) {
    forall i :: 0 <= i < |ps| ==> LogPacket(ps[i])
  }

  /** The bytes of a transmit, and of a reply, as they stand in the buffer. */
  function SentFrame(m: Message): seq<byte>
    requires Legal(m)
  {
    Frame(MAGIC_N64_TO_PC, m.length, m.data)
  }

  function ReplyFrame(reply: seq<byte>): seq<byte>
    requires |reply| <= REPLY_LIMIT
  {
    Frame(MAGIC_PC_TO_N64, |reply|, reply)
  }

  function HeaderOf(m: Message): word
    requires Legal(m)
  {
    Header(m.t, m.length + 8) % 0x1_0000_0000
  }

  predicate Starts(bram: seq<byte>, s: seq<byte>) {
    |s| <= |bram| && bram[..|s|] == s
  }

  // ---- Between requests ----

  /** No request is outstanding: every packet on its way is a log message, and nothing comes back. */
  predicate Quiet(s: State) {
    && |s.sent| == |s.answered| == |s.received| && s.toCart == [] && AllLogs(s.toHost)
    && (s.cart.Ready? || (s.cart.Capturing? && !IsRequest(BigEndian(s.cart.header)[0])))
  }

  predicate Transmitting(s: State)
    requires Sized(s)
  {
    match s.n64
    case Idle => true
    case WaitToSend(m) => Legal(m)
    case Sending(m, i) =>
      Legal(m) && s.cart.Ready? && i <= 2 + |m.data| / 4 && Starts(s.bram, SentFrame(m)[..4 * i])
    case SetData1(m) => Legal(m) && s.cart.Ready? && Starts(s.bram, SentFrame(m))
    case SetCommand(m) => Legal(m) && s.cart.Ready? && Starts(s.bram, SentFrame(m)) && s.data1 == HeaderOf(m)
    case _ => false
  }

  // ---- While a request is outstanding ----

  /** The request has not been answered: it is being captured, in the queue, or was given no reply. */
  predicate Pending(s: State, m: Message)
    requires Sized(s) && Legal(m)
  {
    && |s.answered| == |s.received| && s.toCart == [] && s.n64 == Polling(m)
    && Starts(s.bram, SentFrame(m))
    && (|| (&& s.cart.Capturing? && s.cart.header == HeaderOf(m) && AllLogs(s.toHost)
            && s.cart.captured <= SentFrame(m)[..m.length + 8])
        || (&& s.cart.Ready? && |s.toHost| > 0 && AllLogs(s.toHost[..|s.toHost| - 1])
            && IsPacketOf(s.toHost[|s.toHost| - 1], m))
        || (s.cart.Ready? && s.toHost == []))
  }

  predicate IsPacketOf(p: seq<byte>, m: Message)
    requires Legal(m)
  {
    |p| >= TYPE_OFFSET && p == TransportPacket(p[..TYPE_OFFSET], HeaderOf(m), SentFrame(m)[..m.length + 8])
  }

  /** The reply is in flight, being stored, or in the buffer to be read. */
  predicate Answered(s: State, m: Message)
    requires Sized(s) && Legal(m)
  {
    && |s.answered| == |s.sent| > 0 && s.toHost == []
    && var e := s.answered[|s.answered| - 1];
    && e.t == m.t && e.payload == m.data[..m.length] && |e.reply| <= REPLY_LIMIT
    && (|| (s.toCart == [CommandPacket(e.reply)] && s.cart.Ready? && s.n64 == Polling(m) && OldMagic(s.bram, 0))
        || (&& s.toCart == [] && s.cart.Storing? && s.cart.bytes == ReplyFrame(e.reply) && s.cart.stored <= |s.cart.bytes|
            && Starts(s.bram, s.cart.bytes[..s.cart.stored]) && OldMagic(s.bram, s.cart.stored)
            && (s.n64 == Polling(m) || (s.n64 == WaitToRead(m) && s.cart.stored >= 4)))
        || (&& s.toCart == [] && s.cart.Ready? && Starts(s.bram, ReplyFrame(e.reply)) && Receiving(s, m, e.reply)))
  }

  /** From byte k on, the magic is still the one the N64 wrote. */
  predicate OldMagic(bram: seq<byte>, k: nat) {
    k < 4 <= |bram| ==> bram[k..4] == BigEndian(MAGIC_N64_TO_PC)[k..]
  }

  predicate Receiving(s: State, m: Message, reply: seq<byte>)
    requires Sized(s) && Legal(m) && |reply| <= REPLY_LIMIT
  {
    match s.n64
    case Polling(m') => m' == m
    case WaitToRead(m') => m' == m
    case ReadMagic(m') => m' == m
    case ReadLength(m') => m' == m
    case Reading(m', count, got) =>
      && m' == m && count == Min(m.limit, |reply|)
      && |got| % 4 == 0 && |got| <= RoundUp4(count) && got == s.bram[8..8 + |got|]
    case _ => false
  }

  predicate Outstanding(s: State)
    requires Sized(s)
  {
    && |s.sent| == |s.received| + 1
    && var m := s.sent[|s.sent| - 1];
    Legal(m) && IsRequest(m.t) && (Pending(s, m) || Answered(s, m))
  }

  // ---- The invariant ----

  /** What the k-th receive must have returned. */
  predicate Matched(m: Message, e: Exchange, r: Result) {
    && m.length <= |m.data| && e.t == m.t && e.payload == m.data[..m.length]
    && r == Got(e.reply[..Min(m.limit, |e.reply|)])
  }

  predicate History(s: State) {
    && |s.received| <= |s.answered| <= |s.sent| <= |s.received| + 1
    && forall k :: 0 <= k < |s.received| ==> Matched(s.sent[k], s.answered[k], s.received[k])
  }

  predicate Inv(s: State) {
    Sized(s) && History(s) && ((Quiet(s) && Transmitting(s)) || Outstanding(s))
  }

  // ---- Bytes and words of the frames ----

  lemma HeaderBytes(m: Message)
    requires Legal(m)
    ensures HeaderOf(m) == Header(m.t, m.length + 8) && HeaderOf(m) % 0x100_0000 == m.length + 8
    ensures BigEndian(HeaderOf(m))[0] == m.t
  {
    hide Header, HostLength, BigEndian;
    var h, n := Header(m.t, m.length + 8), m.length + 8;
    HeaderRoundTrip(m.t, n);
    HeaderIsSum(m.t, n);
    Bits.ModUnique(h, 0x100_0000, m.t, n);
    Bits.ModUnique(h, 0x1_0000_0000, 0, h);
  }

  lemma FrameWordBytes(m: Message, i: nat)
    requires Legal(m) && i < 2 + |m.data| / 4
    ensures 4 * i + 4 <= |SentFrame(m)| && SentFrame(m)[4 * i..4 * i + 4] == BigEndian(FrameWord(m, i))
  {
    hide BigEndian, FromBigEndian;
    if i >= 2 {
      BytesRoundTrip(m.data[4 * (i - 2)..4 * (i - 2) + 4]);
    }
  }

  /** Storing the next word of a frame extends the part that is in place. */
  lemma StartsMore(bram: seq<byte>, f: seq<byte>, k: nat, w: seq<byte>)
    requires k + |w| <= |f| && k + |w| <= |bram| && Starts(bram, f[..k]) && w == f[k..k + |w|]
    ensures Starts(Patch(bram, k, w), f[..k + |w|])
  {
  }

  /** A buffer that starts with a transmit's first word is not taken for a reply. */
  lemma MagicsDiffer(bram: seq<byte>, k: nat)
    requires 4 <= |bram| && k < 4 && OldMagic(bram, k)
    ensures WordAt(bram, 0) != MAGIC_PC_TO_N64
  {
  }

  lemma SentMagic(s: State, m: Message)
    requires Sized(s) && Legal(m) && Starts(s.bram, SentFrame(m))
    ensures OldMagic(s.bram, 0) && WordAt(s.bram, 0) != MAGIC_PC_TO_N64
  {
  }

  lemma ReplyInPlace(bram: seq<byte>, reply: seq<byte>)
    requires |bram| == WINDOW && |reply| <= REPLY_LIMIT && Starts(bram, ReplyFrame(reply))
    ensures WordAt(bram, 0) == MAGIC_PC_TO_N64 && WordAt(bram, 4) == |reply| && bram[8..8 + |reply|] == reply
  {
  }

  // ---- Steps between requests ----

  lemma SendsWord(s: State, m: Message, i: nat)
    requires Inv(s) && Quiet(s) && Transmitting(s) && s.n64 == Sending(m, i)
    ensures Inv(N64Next(s))
  {
    hide History, FrameWord, BigEndian;
    if i < 2 + |m.data| / 4 {
      FrameWordBytes(m, i);
      StartsMore(s.bram, SentFrame(m), 4 * i, BigEndian(FrameWord(m, i)));
    } else {
      assert SentFrame(m)[..4 * i] == SentFrame(m);
    }
    assert s.received == N64Next(s).received;
    assert History(s) ==> History(N64Next(s)) by { SameHistory(s, N64Next(s)); }
  }

  lemma SameHistory(s: State, s': State)
    requires s.sent == s'.sent && s.answered == s'.answered && s.received == s'.received
    ensures History(s) == History(s')
  {
  }

  lemma QuietN64(s: State)
    requires Inv(s) && Quiet(s) && Transmitting(s)
    ensures Inv(N64Next(s))
  {
    if s.n64.Sending? {
      SendsWord(s, s.n64.m, s.n64.i);
    } else if s.n64.SetCommand? {
      SendsCommand(s, s.n64.m);
    } else {
      SameHistory(s, N64Next(s));
    }
  }

  lemma SendsCommand(s: State, m: Message)
    requires Inv(s) && Quiet(s) && Transmitting(s) && s.n64 == SetCommand(m)
    ensures Inv(N64Next(s))
  {
    hide BigEndian, Header, SentFrame, Matched;
    HeaderBytes(m);
  }

  lemma QuietCart(s: State, prefix: seq<byte>)
    requires Inv(s) && Quiet(s) && Transmitting(s) && |prefix| == TYPE_OFFSET
    ensures Inv(CartNext(s, prefix))
  {
  }

  lemma HostIgnoresLog(s: State, reply: Option<seq<byte>>, stale: seq<byte>)
    requires LegalAction(HostRead(reply, stale)) && s.toHost != [] && LogPacket(s.toHost[0])
    ensures HostNext(s, reply, stale) == s.(toHost := s.toHost[1..], hostRead := s.hostRead + [s.toHost[0]])
  {
  }

  lemma QuietHost(s: State, reply: Option<seq<byte>>, stale: seq<byte>)
    requires Inv(s) && Quiet(s) && Transmitting(s) && LegalAction(HostRead(reply, stale))
    ensures Inv(HostNext(s, reply, stale))
  {
  }

  // ---- Steps while the request waits for its answer ----

  lemma PendingN64(s: State, m: Message)
    requires Inv(s) && Outstanding(s) && m == s.sent[|s.sent| - 1] && Pending(s, m)
    ensures N64Next(s) == s
  {
    SentMagic(s, m);
  }

  lemma PendingCart(s: State, m: Message, prefix: seq<byte>)
    requires Inv(s) && Outstanding(s) && m == s.sent[|s.sent| - 1] && Pending(s, m) && |prefix| == TYPE_OFFSET
    ensures Inv(CartNext(s, prefix))
  {
    if s.cart.Capturing? {
      HeaderBytes(m);
      if |s.cart.captured| < m.length + 8 {
        CapturesByte(s, m, prefix);
      } else {
        DeliversPacket(s, m, prefix);
      }
    }
  }

  lemma CapturesByte(s: State, m: Message, prefix: seq<byte>)
    requires Inv(s) && Outstanding(s) && m == s.sent[|s.sent| - 1] && Pending(s, m) && |prefix| == TYPE_OFFSET
    requires s.cart.Capturing? && s.cart.header % 0x100_0000 == m.length + 8 && |s.cart.captured| < m.length + 8
    ensures Inv(CartNext(s, prefix))
  {
    var f, k := SentFrame(m), |s.cart.captured|;
    assert s.bram[..|f|][k] == f[k] == f[..m.length + 8][k];
    assert s.cart.captured + [s.bram[k]] <= f[..m.length + 8];
    hide SentFrame, HeaderOf, Matched, BigEndian, FromBigEndian;
    SameHistory(s, CartNext(s, prefix));
  }

  lemma DeliversPacket(s: State, m: Message, prefix: seq<byte>)
    requires Inv(s) && Outstanding(s) && m == s.sent[|s.sent| - 1] && Pending(s, m) && |prefix| == TYPE_OFFSET
    requires s.cart.Capturing? && s.cart.header % 0x100_0000 == m.length + 8 && |s.cart.captured| >= m.length + 8
    ensures Inv(CartNext(s, prefix))
  {
    assert s.cart.captured == SentFrame(m)[..m.length + 8];
    hide SentFrame, HeaderOf, Matched, BigEndian, FromBigEndian;
    var s' := CartNext(s, prefix);
    SameHistory(s, s');
    assert TransportPacket(prefix, s.cart.header, s.cart.captured)[..TYPE_OFFSET] == prefix;
    assert s'.toHost[..|s'.toHost| - 1] == s.toHost;
  }

  /** The host decodes the packet of a request as the message that was transmitted. */
  lemma HostDecodesRequest(p: seq<byte>, m: Message, stale: seq<byte>)
    requires Legal(m) && IsPacketOf(p, m) && |stale| == HOST_BUFFER
    ensures var b := HostBuffer(p, stale);
      |p| > 10 && HostType(b) == m.t && DecodedLength(b) == m.length + 8
      && b[PAYLOAD_OFFSET..PAYLOAD_OFFSET + m.length] == m.data[..m.length]
  {
    HeaderBytes(m);
    var prefix := p[..TYPE_OFFSET];
    N64ToPcRoundTrip(prefix, m.t, m.data, m.length, [], stale);
    assert m.data[..RoundUp4(m.length)] == m.data;
    assert SentFrame(m) + [] == SentFrame(m);
  }

  lemma PendingHost(s: State, m: Message, reply: Option<seq<byte>>, stale: seq<byte>)
    requires Inv(s) && Outstanding(s) && m == s.sent[|s.sent| - 1] && Pending(s, m)
    requires LegalAction(HostRead(reply, stale))
    ensures Inv(HostNext(s, reply, stale))
  {
    if s.toHost != [] && LogPacket(s.toHost[0]) {
      PendingHostLog(s, m, reply, stale);
    } else if s.toHost != [] {
      assert |s.toHost| == 1;
      HostAnswers(s, m, reply, stale);
    }
  }

  lemma PendingHostLog(s: State, m: Message, reply: Option<seq<byte>>, stale: seq<byte>)
    requires Inv(s) && Outstanding(s) && m == s.sent[|s.sent| - 1] && Pending(s, m)
    requires LegalAction(HostRead(reply, stale)) && s.toHost != [] && LogPacket(s.toHost[0])
    ensures Inv(HostNext(s, reply, stale))
  {
    HostIgnoresLog(s, reply, stale);
    var s' := HostNext(s, reply, stale);
    hide HostNext, SentFrame, IsPacketOf, Matched;
    SameHistory(s, s');
    if s.cart.Ready? && |s.toHost| > 1 {
      assert s'.toHost[..|s'.toHost| - 1] == s.toHost[..|s.toHost| - 1][1..];
      assert s'.toHost[|s'.toHost| - 1] == s.toHost[|s.toHost| - 1];
    }
  }

  lemma HostAnswers(s: State, m: Message, reply: Option<seq<byte>>, stale: seq<byte>)
    requires Inv(s) && Outstanding(s) && m == s.sent[|s.sent| - 1] && Pending(s, m)
    requires LegalAction(HostRead(reply, stale)) && s.cart.Ready? && |s.toHost| == 1 && IsPacketOf(s.toHost[0], m)
    ensures Inv(HostNext(s, reply, stale))
    ensures reply.Some? ==> HostNext(s, reply, stale).toCart == [CommandPacket(reply.value)]
  {
    HostDecodesRequest(s.toHost[0], m, stale);
    SentMagic(s, m);
    hide SentFrame, IsPacketOf, HostType, HostBuffer, DecodedLength;
    if reply.None? {
      SameHistory(s, HostNext(s, reply, stale));
    }
  }

  // ---- Steps once the request is answered ----

  lemma AnsweredHost(s: State, m: Message, reply: Option<seq<byte>>, stale: seq<byte>)
    requires Inv(s) && Outstanding(s) && m == s.sent[|s.sent| - 1] && Answered(s, m)
    requires LegalAction(HostRead(reply, stale))
    ensures HostNext(s, reply, stale) == s
  {
  }

  lemma AnsweredCart(s: State, m: Message, prefix: seq<byte>)
    requires Inv(s) && Outstanding(s) && m == s.sent[|s.sent| - 1] && Answered(s, m) && |prefix| == TYPE_OFFSET
    ensures Inv(CartNext(s, prefix))
  {
    SameHistory(s, CartNext(s, prefix));
    var reply := s.answered[|s.answered| - 1].reply;
    if s.toCart != [] {
      PcToN64RoundTrip(s.bram, reply, 0);
      assert CommandPacket(reply)[12..] == ReplyFrame(reply);
    } else if s.cart.Storing? {
      StoresByte(s.bram, ReplyFrame(reply), s.cart.stored);
    }
    hide BigEndian, FromBigEndian, SentFrame, ReplyFrame, Matched, Patch, History;
  }

  /** Storing one more byte of the reply keeps what is in place, and what is left of the old magic. */
  lemma StoresByte(bram: seq<byte>, f: seq<byte>, k: nat)
    requires |f| <= |bram| && 4 <= |bram| && k <= |f| && Starts(bram, f[..k]) && OldMagic(bram, k)
    ensures k == |f| ==> Starts(bram, f)
    ensures k < |f| ==> Starts(bram[k := f[k]], f[..k + 1]) && OldMagic(bram[k := f[k]], k + 1)
  {
    if k < |f| {
      var bram' := bram[k := f[k]];
      StartsMore(bram, f, k, [f[k]]);
      assert bram' == Patch(bram, k, [f[k]]);
      if k + 1 < 4 {
        assert bram'[k + 1..4] == bram[k..4][1..];
        assert BigEndian(MAGIC_N64_TO_PC)[k + 1..] == BigEndian(MAGIC_N64_TO_PC)[k..][1..];
      }
    } else {
      assert f[..k] == f;
    }
  }

  lemma AnsweredN64(s: State, m: Message)
    requires Inv(s) && Outstanding(s) && m == s.sent[|s.sent| - 1] && Answered(s, m)
    ensures Inv(N64Next(s))
  {
    var s' := N64Next(s);
    var reply := s.answered[|s.answered| - 1].reply;
    if s.cart.Ready? && s.toCart == [] {
      ReadsReply(s, m, reply);
    } else {
      SameHistory(s, s');
      if s.toCart != [] {
        MagicsDiffer(s.bram, 0);
      } else if s.cart.stored < 4 {
        MagicsDiffer(s.bram, s.cart.stored);
      }
    }
  }

  /** With the whole reply in place the N64 reads it, word by word, and returns its first bytes. */
  lemma ReadsReply(s: State, m: Message, reply: seq<byte>)
    requires Inv(s) && Outstanding(s) && m == s.sent[|s.sent| - 1] && Answered(s, m)
    requires reply == s.answered[|s.answered| - 1].reply && s.cart.Ready? && s.toCart == []
    ensures Inv(N64Next(s))
  {
    ReplyInPlace(s.bram, reply);
    hide SentFrame, ReplyFrame, BigEndian, FromBigEndian;
    if s.n64.Reading? && |s.n64.got| < s.n64.count {
      ReadsWord(s, m, reply);
    } else if s.n64.Reading? {
      ReturnsReply(s, m, reply);
    } else {
      SameHistory(s, N64Next(s));
    }
  }

  lemma ReadsWord(s: State, m: Message, reply: seq<byte>)
    requires Inv(s) && Outstanding(s) && m == s.sent[|s.sent| - 1] && Answered(s, m)
    requires reply == s.answered[|s.answered| - 1].reply && s.cart.Ready? && s.toCart == []
    requires s.n64.Reading? && |s.n64.got| < s.n64.count
    ensures Inv(N64Next(s))
  {
    var count, got := s.n64.count, s.n64.got;
    FourMore(|got|, count);
    NextWord(s.bram, got);
    hide SentFrame, ReplyFrame, BigEndian, FromBigEndian, RoundUp4, History, Pending, OldMagic;
    SameHistory(s, N64Next(s));
  }

  lemma ReturnsReply(s: State, m: Message, reply: seq<byte>)
    requires Inv(s) && Outstanding(s) && m == s.sent[|s.sent| - 1] && Answered(s, m)
    requires reply == s.answered[|s.answered| - 1].reply && s.cart.Ready? && s.toCart == []
    requires s.n64.Reading? && |s.n64.got| >= s.n64.count
    ensures Inv(N64Next(s))
  {
    ReplyInPlace(s.bram, reply);
    var count, got := s.n64.count, s.n64.got;
    FourMore(|got|, count);
    assert got[..count] == reply[..count] by {
      SliceOfSlice(s.bram, |got|, count);
      SliceOfSlice(s.bram, |reply|, count);
    }
    hide SentFrame, ReplyFrame, BigEndian, FromBigEndian, RoundUp4, Pending, OldMagic, Starts;
  }

  lemma SliceOfSlice(bram: seq<byte>, n: nat, count: nat)
    requires count <= n && 8 + n <= |bram|
    ensures bram[8..8 + n][..count] == bram[8..8 + count]
  {
  }

  lemma NextWord(bram: seq<byte>, got: seq<byte>)
    requires |got| + 12 <= |bram| && got == bram[8..8 + |got|]
    ensures got + BigEndian(WordAt(bram, |got| + 8)) == bram[8..8 + (|got| + 4)]
  {
    hide BigEndian, FromBigEndian;
    BytesRoundTrip(bram[|got| + 8..|got| + 12]);
  }

  // ---- All runs ----

  lemma StepKeepsInv(s: State, a: Action)
    requires Inv(s) && LegalAction(a)
    ensures Inv(Next(s, a))
  {
    if Quiet(s) && Transmitting(s) {
      match a
      case Call(m) => SameHistory(s, Next(s, a));
      case N64Step => QuietN64(s);
      case CartStep(prefix) => QuietCart(s, prefix);
      case HostRead(reply, stale) => QuietHost(s, reply, stale);
    } else {
      OutstandingStep(s, s.sent[|s.sent| - 1], a);
    }
  }

  lemma OutstandingStep(s: State, m: Message, a: Action)
    requires Inv(s) && Outstanding(s) && m == s.sent[|s.sent| - 1] && LegalAction(a)
    ensures Inv(Next(s, a))
  {
    if Pending(s, m) {
      match a
      case Call(_) =>
      case N64Step => PendingN64(s, m);
      case CartStep(prefix) => PendingCart(s, m, prefix);
      case HostRead(reply, stale) => PendingHost(s, m, reply, stale);
    } else {
      match a
      case Call(_) =>
      case N64Step => AnsweredN64(s, m);
      case CartStep(prefix) => AnsweredCart(s, m, prefix);
      case HostRead(reply, stale) => AnsweredHost(s, m, reply, stale);
    }
  }

  /** Nothing in flight; the buffer may hold anything. */
  predicate Initial(s: State) {
    && Sized(s) && s.cart.Ready? && s.toHost == [] && s.toCart == [] && s.n64.Idle?
    && s.called == [] && s.sent == [] && s.hostRead == [] && s.answered == [] && s.received == []
  }

  predicate AllLegal(actions: seq<Action>) {
    forall i :: 0 <= i < |actions| ==> LegalAction(actions[i])
  }

  function Run(s: State, actions: seq<Action>): (s': State)
    requires Sized(s) && AllLegal(actions)
    ensures Sized(s')
    decreases |actions|
  {
    if actions == [] then s else Run(Next(s, actions[0]), actions[1..])
  }

  lemma {:induction false} RunKeepsInv(s: State, actions: seq<Action>)
    requires Sized(s) && Inv(s) && AllLegal(actions)
    ensures Inv(Run(s, actions))
    decreases |actions|
  {
    hide Inv, Next;
    if actions != [] {
      StepKeepsInv(s, actions[0]);
      RunKeepsInv(Next(s, actions[0]), actions[1..]);
    }
  }

  /**
   After any interleaving: requests and replies alternate, and the k-th receive returned
   the first bytes of the k-th reply, which the host gave to the k-th request as it was sent.
   */
  lemma EveryReceiveGetsItsReply(s: State, actions: seq<Action>)
    requires Initial(s) && AllLegal(actions)
    ensures var s' := Run(s, actions);
      && |s'.received| <= |s'.answered| <= |s'.sent| <= |s'.received| + 1
      && forall k :: 0 <= k < |s'.received| ==>
           && s'.sent[k].length <= |s'.sent[k].data|
           && s'.answered[k].t == s'.sent[k].t && s'.answered[k].payload == s'.sent[k].data[..s'.sent[k].length]
           && s'.received[k] == Got(s'.answered[k].reply[..Min(s'.sent[k].limit, |s'.answered[k].reply|)])
  {
    RunKeepsInv(s, actions);
    var s' := Run(s, actions);
    forall k | 0 <= k < |s'.received| ensures Matched(s'.sent[k], s'.answered[k], s'.received[k]) {
    }
  }

  // ---- Every request can be completed ----

  /** The host has read the request and given no reply, as it does when the transfer fails for good. */
  predicate Unanswered(s: State)
    requires Sized(s)
  {
    Outstanding(s) && Pending(s, s.sent[|s.sent| - 1]) && s.cart.Ready? && s.toHost == []
  }

  /** How far the request has got: capture, queue, reply in flight, reply being stored, reply being read. */
  function Stage(s: State): nat {
    if s.cart.Capturing? then 5
    else if s.toHost != [] then 4
    else if s.toCart != [] then 3
    else if s.cart.Storing? then 2
    else 1
  }

  function Left(s: State): nat {
    match s.cart
    case Capturing(header, captured) =>
      if |captured| < header % 0x100_0000 then header % 0x100_0000 - |captured| else 0
    case Storing(bytes, stored) => if stored < |bytes| then |bytes| - stored else 0
    case Ready =>
      if s.toHost != [] then |s.toHost|
      else if s.toCart != [] then 0
      else
        match s.n64
        case Polling(_) => WINDOW + 4
        case WaitToRead(_) => WINDOW + 3
        case ReadMagic(_) => WINDOW + 2
        case ReadLength(_) => WINDOW + 1
        case Reading(_, count, got) => if |got| < count then Min(count - |got|, WINDOW) else 0
        case _ => 0
  }

  /** The step to take next: the cart's while it is busy or has a reply to store, the host's while it has a packet. */
  function Turn(s: State, reply: seq<byte>): Action {
    if !s.cart.Ready? || (s.toHost == [] && s.toCart != []) then CartStep(seq(TYPE_OFFSET, _ => 0))
    else if s.toHost != [] then HostRead(Some(reply), seq(HOST_BUFFER, _ => 0))
    else N64Step
  }

  /** The same request is outstanding, and closer to its reply. */
  predicate Closer(s: State, s': State)
    requires Sized(s) && Sized(s')
  {
    && Outstanding(s') && !Unanswered(s') && s'.received == s.received
    && (Stage(s') < Stage(s) || (Stage(s') == Stage(s) && Left(s') < Left(s)))
  }

  lemma TurnAdvances(s: State, reply: seq<byte>)
    requires Inv(s) && Outstanding(s) && !Unanswered(s) && |reply| <= REPLY_LIMIT
    ensures LegalAction(Turn(s, reply))
    ensures var s' := Next(s, Turn(s, reply));
      s'.sent == s.sent && (|s'.received| == |s.received| + 1 || Closer(s, s'))
  {
    var m, a := s.sent[|s.sent| - 1], Turn(s, reply);
    StepKeepsInv(s, a);
    if Pending(s, m) {
      PendingAdvances(s, m, reply);
    } else {
      AnsweredAdvances(s, m, reply);
    }
  }

  /** Every step of the receive brings it nearer its end. */
  lemma ReadingLeft(s: State, m: Message)
    requires Sized(s) && Legal(m) && s.cart.Ready? && s.toHost == [] && s.toCart == []
    requires WordAt(s.bram, 0) == MAGIC_PC_TO_N64 && N64Next(s).received == s.received
    requires s.n64 in {Polling(m), WaitToRead(m), ReadMagic(m), ReadLength(m)} || (s.n64.Reading? && s.n64.count <= SIZE)
    ensures var s' := N64Next(s); Stage(s') == Stage(s) && Left(s') < Left(s)
  {
  }

  /** Same request, nothing received: still outstanding. */
  lemma StillOutstanding(s: State, s': State)
    requires Sized(s) && Inv(s') && Outstanding(s) && s'.sent == s.sent && s'.received == s.received
    ensures Outstanding(s')
    ensures |s'.answered| == |s'.sent| || s'.cart.Capturing? || s'.toHost != [] ==> !Unanswered(s')
  {
  }

  lemma PendingAdvances(s: State, m: Message, reply: seq<byte>)
    requires Inv(s) && Outstanding(s) && m == s.sent[|s.sent| - 1] && Pending(s, m) && !Unanswered(s) && |reply| <= REPLY_LIMIT
    requires LegalAction(Turn(s, reply)) && Inv(Next(s, Turn(s, reply)))
    ensures Closer(s, Next(s, Turn(s, reply)))
  {
    var s' := Next(s, Turn(s, reply));
    if s.cart.Ready? && |s.toHost| == 1 && !LogPacket(s.toHost[0]) {
      HostAnswers(s, m, Some(reply), seq(HOST_BUFFER, _ => 0));
    } else if s.cart.Ready? && |s.toHost| == 1 {
      HostDecodesRequest(s.toHost[0], m, seq(HOST_BUFFER, _ => 0));
    } else if s.cart.Ready? {
      assert s.toHost[0] == s.toHost[..|s.toHost| - 1][0];
      HostIgnoresLog(s, Some(reply), seq(HOST_BUFFER, _ => 0));
    } else {
      HeaderBytes(m);
    }
    hide Inv, History, Pending, BigEndian, FromBigEndian, SentFrame, Matched, RoundUp4, IsPacketOf;
    StillOutstanding(s, s');
  }

  lemma AnsweredAdvances(s: State, m: Message, reply: seq<byte>)
    requires Inv(s) && Outstanding(s) && m == s.sent[|s.sent| - 1] && Answered(s, m) && |reply| <= REPLY_LIMIT
    requires LegalAction(Turn(s, reply)) && Inv(Next(s, Turn(s, reply)))
    ensures var s' := Next(s, Turn(s, reply)); |s'.received| == |s.received| + 1 || Closer(s, s')
  {
    if s.cart.Ready? && s.toCart == [] {
      ReadingAdvances(s, m);
    } else {
      StoringAdvances(s, m, seq(TYPE_OFFSET, _ => 0));
    }
  }

  lemma StoringAdvances(s: State, m: Message, prefix: seq<byte>)
    requires Inv(s) && Outstanding(s) && m == s.sent[|s.sent| - 1] && Answered(s, m) && |prefix| == TYPE_OFFSET
    requires !(s.cart.Ready? && s.toCart == []) && Inv(CartNext(s, prefix))
    ensures Closer(s, CartNext(s, prefix))
  {
    if s.toCart != [] {
      PcToN64RoundTrip(s.bram, s.answered[|s.answered| - 1].reply, 0);
    }
    hide Inv, History, Pending, BigEndian, FromBigEndian, Matched, RoundUp4, OldMagic, Starts;
    StillOutstanding(s, CartNext(s, prefix));
  }

  lemma ReadingAdvances(s: State, m: Message)
    requires Inv(s) && Outstanding(s) && m == s.sent[|s.sent| - 1] && Answered(s, m)
    requires s.cart.Ready? && s.toCart == [] && Inv(N64Next(s))
    ensures var s' := N64Next(s); |s'.received| == |s.received| + 1 || Closer(s, s')
  {
    var s' := N64Next(s);
    ReplyInPlace(s.bram, s.answered[|s.answered| - 1].reply);
    if s'.received == s.received {
      ReadingLeft(s, m);
      hide Inv, History, Pending, BigEndian, FromBigEndian, Matched, RoundUp4, Starts, WordAt, Stage, Left;
      StillOutstanding(s, s');
    }
  }

  /** From every state where a request is outstanding and not given up, some run completes its receive. */
  lemma {:induction false} CanFinish(s: State, reply: seq<byte>) returns (actions: seq<Action>)
    requires Sized(s) && Inv(s) && Outstanding(s) && !Unanswered(s) && |reply| <= REPLY_LIMIT
    ensures AllLegal(actions)
    ensures var s' := Run(s, actions); Inv(s') && s'.sent == s.sent && |s'.received| == |s.received| + 1
    decreases Stage(s), Left(s)
  {
    hide Inv, Outstanding, Unanswered, Next, Turn, Stage, Left;
    var a := Turn(s, reply);
    TurnAdvances(s, reply);
    StepKeepsInv(s, a);
    var s' := Next(s, a);
    if |s'.received| == |s.received| + 1 {
      actions := [a];
      assert Run(s', []) == s';
    } else {
      var rest := CanFinish(s', reply);
      actions := [a] + rest;
      assert actions[1..] == rest;
    }
  }

  /** Words of the frame left to store, and register writes left to make. */
  function SendLeft(s: State): nat {
    match s.n64
    case WaitToSend(m) => |m.data| + 7
    case Sending(m, i) => if i < 2 + |m.data| / 4 then 4 + 2 + |m.data| / 4 - i else 3
    case SetData1(_) => 2
    case SetCommand(_) => 1
    case _ => 0
  }

  /** With the cart free, a transmit that has begun can go on up to the USB command. */
  lemma {:induction false} CanSetCommand(s: State, m: Message) returns (actions: seq<Action>)
    requires Inv(s) && Quiet(s) && Transmitting(s) && s.cart.Ready?
    requires s.n64 in {WaitToSend(m), SetData1(m), SetCommand(m)} || (s.n64.Sending? && s.n64.m == m)
    ensures AllLegal(actions)
    ensures var s' := Run(s, actions);
      && Inv(s') && Quiet(s') && Transmitting(s') && s'.cart.Ready? && s'.n64 == SetCommand(m)
      && s'.sent == s.sent && s'.called == s.called && s'.toHost == s.toHost && s'.hostRead == s.hostRead
    decreases SendLeft(s)
  {
    if s.n64.SetCommand? {
      actions := [];
    } else {
      var s1 := N64Next(s);
      StepKeepsInv(s, N64Step);
      assert Next(s, N64Step) == s1;
      var rest := CanSetCommand(s1, m);
      actions := [N64Step] + rest;
      assert actions[1..] == rest;
    }
  }

  /** With the cart free, a transmit of a request that has begun can be finished. */
  lemma CanSend(s: State, m: Message) returns (actions: seq<Action>)
    requires Inv(s) && Quiet(s) && s.cart.Ready? && s.n64 == WaitToSend(m) && Legal(m) && IsRequest(m.t)
    ensures AllLegal(actions)
    ensures var s' := Run(s, actions); Inv(s') && Outstanding(s') && !Unanswered(s') && s'.sent == s.sent + [m]
  {
    var setup := CanSetCommand(s, m);
    var s1 := Run(s, setup);
    StepKeepsInv(s1, N64Step);
    RunAppends(s, setup, [N64Step]);
    RunOne(s1, N64Step);
    actions := setup + [N64Step];
  }

  lemma RunOne(s: State, a: Action)
    requires Sized(s) && LegalAction(a)
    ensures Run(s, [a]) == Next(s, a)
  {
    assert Run(Next(s, a), []) == Next(s, a);
  }

  lemma {:induction false} RunAppends(s: State, a: seq<Action>, b: seq<Action>)
    requires Sized(s) && AllLegal(a) && AllLegal(b)
    ensures AllLegal(a + b) && Run(s, a + b) == Run(Run(s, a), b)
    decreases |a|
  {
    if a == [] {
      assert a + b == b;
    } else {
      assert (a + b)[1..] == a[1..] + b;
      RunAppends(Next(s, a[0]), a[1..], b);
    }
  }

  /** From start-up, every request can be transmitted and its receive completed. */
  lemma RequestCompletes(s: State, m: Message, reply: seq<byte>) returns (actions: seq<Action>)
    requires Initial(s) && (m.t == 0xC4 || m.t == 0xC5) && |reply| <= 488
    requires m.length <= 490 && |m.data| == RoundUp4(m.length) && m.limit <= 8192
    ensures AllLegal(actions)
    ensures var s' := Run(s, actions); s'.sent == [m] && |s'.answered| == |s'.received| == 1
  {
    hide BigEndian, FromBigEndian, Patch;
    var s1 := Next(s, Call(m));
    assert Inv(s1) && Quiet(s1) && Transmitting(s1);
    var sending := CanSend(s1, m);
    var s2 := Run(s1, sending);
    hide Inv, Outstanding, Unanswered, Next, Quiet, Transmitting;
    var receiving := CanFinish(s2, reply);
    actions := [Call(m)] + (sending + receiving);
    RunAppends(s1, sending, receiving);
    assert actions[1..] == sending + receiving;
    AllMatched(Run(s2, receiving));
  }

  lemma AllMatched(s: State)
    requires Sized(s) && Inv(s) && |s.received| == |s.sent|
    ensures |s.answered| == |s.sent|
  {
  }
}
