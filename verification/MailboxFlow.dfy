/**
 What becomes of every transmit, requests and log messages alike: its packet is captured,
 queued for the host, or read by the host, in the order of the calls.
 */
module MailboxFlow {
  import opened Bram
  import opened HostLink
  import opened Mailbox
  import opened MailboxSafety
  import opened Wire

  predicate UnderWay(n64: N64) {
    n64.WaitToSend? || n64.Sending? || n64.SetData1? || n64.SetCommand?
  }

  /** The transmits that have returned: all that were called, but for the one still under way. */
  function Finished(s: State): seq<Message> {
    if UnderWay(s.n64) && s.called != [] then s.called[..|s.called| - 1] else s.called
  }

  /** The packets the host has read and those waiting for it, oldest first. */
  function Delivered(s: State): seq<seq<byte>> {
    s.hostRead + s.toHost
  }

  /** The requests among the messages, in order. */
  function Requests(ms: seq<Message>): seq<Message> {
    if ms == [] then []
    else Requests(ms[..|ms| - 1]) + (if ms[|ms| - 1].t == 0xC4 || ms[|ms| - 1].t == 0xC5 then [ms[|ms| - 1]] else [])
  }

  predicate CallsAreLegal(s: State) {
    && (forall i :: 0 <= i < |s.called| ==> Legal(s.called[i]))
    && (UnderWay(s.n64) ==> s.called != [] && s.called[|s.called| - 1] == s.n64.m)
  }

  predicate ArePackets(ps: seq<seq<byte>>, ms: seq<Message>) {
    |ps| <= |ms| && forall i :: 0 <= i < |ps| ==> Legal(ms[i]) && IsPacketOf(ps[i], ms[i])
  }

  /** The cart is capturing the packet of this message, from a buffer that still holds it. */
  predicate IsCapturing(s: State, m: Message) {
    && s.cart.Capturing? && Legal(m) && s.cart.header == HeaderOf(m)
    && s.cart.captured <= SentFrame(m)[..m.length + 8] && Starts(s.bram, SentFrame(m))
  }

  predicate Flow(s: State) {
    && CallsAreLegal(s) && ArePackets(Delivered(s), Finished(s)) && s.sent == Requests(Finished(s))
    && (if s.cart.Capturing?
        then |Finished(s)| == |Delivered(s)| + 1 && IsCapturing(s, Finished(s)[|Finished(s)| - 1])
        else |Finished(s)| == |Delivered(s)|)
  }

  // ---- Every step ----

  lemma CallKeepsFlow(s: State, m: Message)
    requires Sized(s) && Flow(s) && Legal(m)
    ensures Flow(Next(s, Call(m)))
  {
    hide Legal, IsPacketOf, SentFrame, HeaderOf, Starts, Requests;
    assert s.n64.Idle? ==> (s.called + [m])[..|s.called|] == s.called;
  }

  /** Nothing that bears on the packets changes. */
  predicate SameFlow(s: State, s': State) {
    && s'.called == s.called && s'.sent == s.sent && s'.hostRead == s.hostRead && s'.toHost == s.toHost
    && s'.cart == s.cart && (s.cart.Capturing? ==> s'.bram == s.bram)
    && UnderWay(s'.n64) == UnderWay(s.n64) && (UnderWay(s.n64) ==> s'.n64.m == s.n64.m)
  }

  /** A step of the N64, unless it gives the USB command, leaves the cart and the packets alone. */
  lemma N64LeavesPackets(s: State)
    requires Sized(s) && !s.n64.SetCommand? && (s.n64.Sending? ==> s.cart.Ready?)
    ensures SameFlow(s, N64Next(s))
  {
    hide FrameWord, WordAt, BigEndian, Header, Legal;
  }

  /** Only with the cart free does the N64 store a word, or give the command for a message in place. */
  lemma TransmitsWhileReady(s: State)
    requires Inv(s)
    ensures s.n64.Sending? ==> s.cart.Ready?
    ensures s.n64.SetCommand? ==>
      var m := s.n64.m; s.cart.Ready? && Legal(m) && Starts(s.bram, SentFrame(m)) && s.data1 == HeaderOf(m)
  {
    hide History, Starts, SentFrame, HeaderOf, OldMagic, IsPacketOf, Quiet, Legal;
  }

  lemma N64KeepsFlow(s: State)
    requires Sized(s) && Inv(s) && Flow(s)
    ensures Flow(N64Next(s))
  {
    if s.n64.SetCommand? {
      CommandKeepsFlow(s, s.n64.m);
    } else {
      TransmitsWhileReady(s);
      N64LeavesPackets(s);
      hide Inv, Flow, N64Next;
      SameKeepsFlow(s, N64Next(s));
    }
  }

  lemma SameKeepsFlow(s: State, s': State)
    requires Flow(s) && SameFlow(s, s')
    ensures Flow(s')
  {
    hide Legal, IsPacketOf, SentFrame, HeaderOf, Starts, Requests;
    assert Finished(s') == Finished(s) && Delivered(s') == Delivered(s);
  }

  lemma CommandKeepsFlow(s: State, m: Message)
    requires Sized(s) && Inv(s) && Flow(s) && s.n64 == SetCommand(m)
    ensures Flow(N64Next(s))
  {
    hide Inv, Starts, SentFrame, HeaderOf, BigEndian, IsPacketOf, Legal;
    TransmitsWhileReady(s);
    var s' := N64Next(s);
    assert Finished(s') == s.called && s.called[..|s.called| - 1] == Finished(s);
    assert IsCapturing(s', m);
  }

  lemma CartKeepsFlow(s: State, prefix: seq<byte>)
    requires Inv(s) && Flow(s) && |prefix| == TYPE_OFFSET
    ensures Flow(CartNext(s, prefix))
  {
    if s.cart.Capturing? {
      CaptureKeepsFlow(s, Finished(s)[|Finished(s)| - 1], prefix);
    } else {
      hide Inv, Legal, IsPacketOf, SentFrame, HeaderOf, Starts, Requests, WordAt;
    }
  }

  lemma CaptureKeepsFlow(s: State, m: Message, prefix: seq<byte>)
    requires Sized(s) && Flow(s) && s.cart.Capturing? && m == Finished(s)[|Finished(s)| - 1] && |prefix| == TYPE_OFFSET
    ensures Flow(CartNext(s, prefix))
  {
    HeaderBytes(m);
    if |s.cart.captured| < m.length + 8 {
      TakesByte(s, m, prefix);
    } else {
      EndsCapture(s, m, prefix);
    }
  }

  /** The next byte of the buffer is the next byte of the message's frame. */
  lemma NextByte(bram: seq<byte>, f: seq<byte>, captured: seq<byte>, n: nat)
    requires Starts(bram, f) && n <= |f| && captured <= f[..n] && |captured| < n
    ensures captured + [bram[|captured|]] <= f[..n]
  {
    var k := |captured|;
    assert bram[..|f|][k] == f[k] == f[..n][k];
  }

  lemma TakesByte(s: State, m: Message, prefix: seq<byte>)
    requires Sized(s) && Flow(s) && s.cart.Capturing? && m == Finished(s)[|Finished(s)| - 1] && |prefix| == TYPE_OFFSET
    requires s.cart.header % 0x100_0000 == m.length + 8 && |s.cart.captured| < m.length + 8
    ensures Flow(CartNext(s, prefix))
  {
    NextByte(s.bram, SentFrame(m), s.cart.captured, m.length + 8);
    hide Legal, IsPacketOf, SentFrame, HeaderOf, Starts, Requests;
    var s' := CartNext(s, prefix);
    assert Finished(s') == Finished(s) && IsCapturing(s', m);
  }

  lemma CapturedIsPacket(prefix: seq<byte>, header: word, captured: seq<byte>, m: Message)
    requires |prefix| == TYPE_OFFSET && Legal(m) && header == HeaderOf(m)
    requires captured <= SentFrame(m)[..m.length + 8] && |captured| >= m.length + 8
    ensures IsPacketOf(TransportPacket(prefix, header, captured), m)
  {
    assert captured == SentFrame(m)[..m.length + 8];
    hide SentFrame, HeaderOf, BigEndian;
    assert TransportPacket(prefix, header, captured)[..TYPE_OFFSET] == prefix;
  }

  lemma EndsCapture(s: State, m: Message, prefix: seq<byte>)
    requires Sized(s) && Flow(s) && s.cart.Capturing? && m == Finished(s)[|Finished(s)| - 1] && |prefix| == TYPE_OFFSET
    requires s.cart.header % 0x100_0000 == m.length + 8 && |s.cart.captured| >= m.length + 8
    ensures Flow(CartNext(s, prefix))
  {
    var p := TransportPacket(prefix, s.cart.header, s.cart.captured);
    CapturedIsPacket(prefix, s.cart.header, s.cart.captured, m);
    hide Legal, IsPacketOf, SentFrame, HeaderOf, Starts, Requests, TransportPacket, ArePackets;
    assert CartNext(s, prefix) == s.(cart := Ready, toHost := s.toHost + [p]);
    OneMorePacket(Delivered(s), Finished(s), p);
    assert s.hostRead + (s.toHost + [p]) == Delivered(s) + [p];
  }

  lemma OneMorePacket(ps: seq<seq<byte>>, ms: seq<Message>, p: seq<byte>)
    requires ArePackets(ps, ms) && |ms| == |ps| + 1 && Legal(ms[|ps|]) && IsPacketOf(p, ms[|ps|])
    ensures ArePackets(ps + [p], ms)
  {
    hide Legal, IsPacketOf;
  }

  lemma HostKeepsFlow(s: State, a: Action)
    requires Sized(s) && Flow(s) && LegalAction(a) && a.HostRead?
    ensures Flow(Next(s, a))
  {
    HostTakesPacket(s, a);
    hide Next, Legal, IsPacketOf, SentFrame, HeaderOf, Starts, Requests;
  }

  /** The host moves a packet from the queue to those it has read, whatever it makes of it. */
  lemma HostTakesPacket(s: State, a: Action)
    requires Sized(s) && LegalAction(a) && a.HostRead?
    ensures var s' := Next(s, a);
      && s'.called == s.called && s'.sent == s.sent && s'.n64 == s.n64 && s'.cart == s.cart && s'.bram == s.bram
      && Delivered(s') == Delivered(s)
  {
    hide HostBuffer, HostType, DecodedLength;
  }

  lemma StepKeepsFlow(s: State, a: Action)
    requires Sized(s) && Inv(s) && Flow(s) && LegalAction(a)
    ensures Flow(Next(s, a))
  {
    hide Inv, Flow;
    match a
    case Call(m) => CallKeepsFlow(s, m);
    case N64Step => N64KeepsFlow(s);
    case CartStep(prefix) => CartKeepsFlow(s, prefix);
    case HostRead(_, _) => HostKeepsFlow(s, a);
  }

  lemma {:induction false} RunKeepsFlow(s: State, actions: seq<Action>)
    requires Sized(s) && Inv(s) && Flow(s) && AllLegal(actions)
    ensures Inv(Run(s, actions)) && Flow(Run(s, actions))
    decreases |actions|
  {
    hide Inv, Next, Flow;
    if actions != [] {
      StepKeepsInv(s, actions[0]);
      StepKeepsFlow(s, actions[0]);
      RunKeepsFlow(Next(s, actions[0]), actions[1..]);
    }
  }

  // ---- All runs ----

  lemma InitialFlows(s: State)
    requires Initial(s)
    ensures Sized(s) && Inv(s) && Flow(s)
  {
  }

  /** The host finds the message's type, length and payload in the packet, whatever its buffer held. */
  ghost predicate HostDecodes(p: seq<byte>, m: Message) {
    m.length <= |m.data| && m.length <= 490 && forall stale: seq<byte> | |stale| == 512 :: var b := HostBuffer(p, stale);
      |b| == 512 && b[10] == m.t && DecodedLength(b) == m.length + 8 && b[22..22 + m.length] == m.data[..m.length]
  }

  lemma PacketDecodes(p: seq<byte>, m: Message)
    requires Legal(m) && IsPacketOf(p, m)
    ensures HostDecodes(p, m)
  {
    forall stale: seq<byte> | |stale| == HOST_BUFFER
      ensures var b := HostBuffer(p, stale);
        |b| == 512 && b[10] == m.t && DecodedLength(b) == m.length + 8 && b[22..22 + m.length] == m.data[..m.length]
    {
      HostDecodesRequest(p, m, stale);
    }
  }

  /**
   After any interleaving, of whatever calls: every transmit that has returned has its packet
   read by the host, queued, or being captured, in the order of the calls; the host decodes
   each packet as the message; and the requests sent are those among the messages.
   */
  lemma EveryTransmitIsDelivered(s: State, actions: seq<Action>)
    requires Initial(s) && AllLegal(actions)
    ensures var s' := Run(s, actions);
      && |Finished(s')| == |s'.hostRead + s'.toHost| + (if s'.cart.Capturing? then 1 else 0)
      && (forall i :: 0 <= i < |s'.hostRead + s'.toHost| ==> HostDecodes((s'.hostRead + s'.toHost)[i], Finished(s')[i]))
      && (s'.cart.Capturing? ==> IsCapturing(s', Finished(s')[|Finished(s')| - 1]))
      && s'.sent == Requests(Finished(s'))
  {
    InitialFlows(s);
    RunKeepsFlow(s, actions);
    var s' := Run(s, actions);
    forall i | 0 <= i < |Delivered(s')| ensures HostDecodes(Delivered(s')[i], Finished(s')[i]) {
      PacketDecodes(Delivered(s')[i], Finished(s')[i]);
    }
  }

  // ---- Every message can be delivered ----

  /** A step of the capture takes one more byte, or puts the packet in the queue. */
  lemma CaptureStep(s: State, prefix: seq<byte>)
    requires Sized(s) && |prefix| == TYPE_OFFSET && s.cart.Capturing? && s.cart.header % 0x100_0000 <= |s.bram|
    ensures var s' := CartNext(s, prefix);
      && s'.n64 == s.n64 && s'.called == s.called && s'.hostRead == s.hostRead
      && (|| (s'.cart.Ready? && |s'.toHost| == |s.toHost| + 1 && s'.toHost[..|s.toHost|] == s.toHost)
          || (s'.cart.Capturing? && s'.cart.header == s.cart.header && s'.toHost == s.toHost
              && |s.cart.captured| < |s'.cart.captured| <= s.cart.header % 0x100_0000))
  {
  }

  lemma CaptureFits(s: State)
    requires Sized(s) && Flow(s) && s.cart.Capturing?
    ensures s.cart.header % 0x100_0000 <= |s.bram|
  {
    hide IsPacketOf, Starts, SentFrame;
    HeaderBytes(Finished(s)[|Finished(s)| - 1]);
  }

  /** A capture under way can be finished. */
  lemma {:induction false} CanCapture(s: State) returns (actions: seq<Action>)
    requires Sized(s) && Inv(s) && Flow(s) && s.cart.Capturing?
    ensures AllLegal(actions)
    ensures var s' := Run(s, actions);
      && Inv(s') && Flow(s') && s'.cart.Ready? && s'.n64 == s.n64 && s'.called == s.called
      && s'.hostRead == s.hostRead && |s'.toHost| == |s.toHost| + 1 && s'.toHost[..|s.toHost|] == s.toHost
    decreases s.cart.header % 0x100_0000 - |s.cart.captured|
  {
    hide Inv, Flow, CartNext, N64Next, HostNext;
    var prefix := seq(TYPE_OFFSET, _ => 0);
    var a := CartStep(prefix);
    var s1 := Next(s, a);
    CaptureFits(s);
    CaptureStep(s, prefix);
    StepKeepsInv(s, a);
    StepKeepsFlow(s, a);
    if s1.cart.Ready? {
      RunOne(s, a);
      actions := [a];
    } else {
      var rest := CanCapture(s1);
      actions := [a] + rest;
      assert actions[1..] == rest;
    }
  }

  /** With the N64 idle and the cart free, a call of transmit can go on to the end of its capture. */
  lemma CanLogNow(s: State, m: Message) returns (actions: seq<Action>)
    requires Inv(s) && Flow(s) && s.n64.Idle? && s.cart.Ready? && Legal(m) && !IsRequest(m.t)
    ensures AllLegal(actions)
    ensures var s' := Run(s, actions);
      && Inv(s') && Flow(s') && s'.n64.Idle? && s'.cart.Ready? && s'.called == s.called + [m]
      && s'.hostRead == s.hostRead && |s'.toHost| == |s.toHost| + 1 && s'.toHost[..|s.toHost|] == s.toHost
  {
    var start := CanStart(s, m);
    var s1 := Run(s, start);
    RunKeepsFlow(s, start);
    hide Inv, Flow;
    var capture := CanCapture(s1);
    RunAppends(s, start, capture);
    actions := start + capture;
  }

  lemma IdleIsQuiet(s: State)
    requires Inv(s) && s.n64.Idle?
    ensures Quiet(s) && Transmitting(s)
  {
  }

  lemma CanStart(s: State, m: Message) returns (actions: seq<Action>)
    requires Sized(s) && Inv(s) && s.n64.Idle? && s.cart.Ready? && Legal(m) && !IsRequest(m.t)
    ensures AllLegal(actions)
    ensures var s' := Run(s, actions);
      && Inv(s') && s'.n64.Idle? && s'.cart.Capturing? && s'.called == s.called + [m]
      && s'.hostRead == s.hostRead && s'.toHost == s.toHost
  {
    var call := Call(m);
    var s1 := Next(s, call);
    IdleIsQuiet(s);
    StepKeepsInv(s, call);
    assert Quiet(s1) && Transmitting(s1);
    hide Inv, Quiet, Transmitting;
    var setup := CanSetCommand(s1, m);
    var s2 := Run(s1, setup);
    StepKeepsInv(s2, N64Step);
    RunOne(s2, N64Step);
    RunAppends(s1, setup, [N64Step]);
    actions := [call] + (setup + [N64Step]);
    assert actions[1..] == setup + [N64Step];
  }

  /** The same after whatever came before: a capture still under way is finished first. */
  lemma CanLog(s: State, m: Message) returns (actions: seq<Action>)
    requires Inv(s) && Flow(s) && s.n64.Idle? && Legal(m) && !IsRequest(m.t)
    ensures AllLegal(actions)
    ensures var s' := Run(s, actions);
      && Inv(s') && Flow(s') && s'.n64.Idle? && s'.cart.Ready? && s'.called == s.called + [m]
      && s'.hostRead == s.hostRead && s'.toHost != [] && s.toHost <= s'.toHost
      && HostDecodes(s'.toHost[|s'.toHost| - 1], m)
  {
    var first := [];
    if s.cart.Capturing? {
      first := CanCapture(s);
    }
    var s1 := Run(s, first);
    assert s1.cart.Ready?;
    var rest := CanLogNow(s1, m);
    RunAppends(s, first, rest);
    actions := first + rest;
    LastPacket(Run(s1, rest), m);
  }

  lemma LastPacket(s: State, m: Message)
    requires Flow(s) && s.n64.Idle? && s.cart.Ready? && s.toHost != [] && s.called != [] && s.called[|s.called| - 1] == m
    ensures HostDecodes(s.toHost[|s.toHost| - 1], m)
  {
    hide HostDecodes, IsPacketOf;
    var k := |Delivered(s)| - 1;
    assert Delivered(s)[k] == s.toHost[|s.toHost| - 1];
    PacketDecodes(Delivered(s)[k], m);
  }

  /**
   After any run that leaves the N64 idle, every message that is not a request can be sent:
   the N64 is idle again, and the host's queue ends with a packet that decodes as the message.
   */
  lemma LogIsDelivered(s: State, before: seq<Action>, m: Message) returns (actions: seq<Action>)
    requires Initial(s) && AllLegal(before) && Run(s, before).n64.Idle? && m.t != 0xC4 && m.t != 0xC5
    requires m.length <= 490 && |m.data| == RoundUp4(m.length) && m.limit <= 8192
    ensures AllLegal(before + actions)
    ensures var s' := Run(s, before + actions);
      && s'.n64.Idle? && s'.called == Run(s, before).called + [m]
      && s'.toHost != [] && Run(s, before).toHost <= s'.toHost && s'.hostRead == Run(s, before).hostRead
      && HostDecodes(s'.toHost[|s'.toHost| - 1], m)
  {
    InitialFlows(s);
    hide Inv, Flow, HostDecodes, Initial, Run, AllLegal;
    RunKeepsFlow(s, before);
    actions := CanLog(Run(s, before), m);
    RunAppends(s, before, actions);
  }
}
