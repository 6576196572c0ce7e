/**
 A network request as text: the N64 joins url and post data with a newline, the host
 splits at the first newline.
 */
module PostMessage {
  import opened Bram
  import opened HostLink
  import opened Wire

  const NUL: byte := 0
  const NEWLINE: byte := 10

  /** The bytes before the first `stop`, or all of them. */
  function Until(s: seq<byte>, stop: byte): (r: seq<byte>)
    ensures |r| <= |s| && r == s[..|r|] && stop !in r
    ensures |r| < |s| ==> s[|r|] == stop
  {
    if s == [] || s[0] == stop then [] else [s[0]] + Until(s[1..], stop)
  }

  lemma {:induction false} UntilIs(s: seq<byte>, stop: byte, a: seq<byte>)
    requires a <= s && stop !in a && (|a| < |s| ==> s[|a|] == stop)
    ensures Until(s, stop) == a
  {
    if a != [] {
      UntilIs(s[1..], stop, a[1..]);
    }
  }

  /** The 512-byte send buffer after snprintf, up to and with its terminator. */
  function SendBuffer(url: seq<byte>, post: seq<byte>): seq<byte> {
    var text := url + [NEWLINE] + post;
    text[..Min(|text|, 511)] + [NUL]
  }

  /** The host's split of a decoded request; `data` is the rest of its buffer from the payload on. */
  function Split(data: seq<byte>, length: nat): (seq<byte>, seq<byte>) {
    var scanned := data[..Min(length, |data|)];
    var newline := |Until(scanned, NEWLINE)|;
    if newline < |scanned| then (Until(data[newline := NUL], NUL), Until(data[newline + 1..], NUL))
    else (Until(data, NUL), [])
  }

  /** The send buffer never overruns its 512 bytes, and holds as much of url, newline and post data as fits before the terminator. */
  lemma SendBufferFits(url: seq<byte>, post: seq<byte>)
    ensures var b, n := SendBuffer(url, post), |url| + 1 + |post|;
      && 1 <= |b| <= 512 && b[|b| - 1] == 0 && b[..|b| - 1] <= url + [10] + post
      && (n <= 511 ==> |b| == n + 1) && (n > 511 ==> |b| == 512)
  {
    var b := SendBuffer(url, post);
    assert b[..|b| - 1] == (url + [NEWLINE] + post)[..|b| - 1];
  }

  /** Without a newline in the bytes searched, the whole text is the url and the post data is empty. */
  lemma SplitWithoutNewline(text: seq<byte>, rest: seq<byte>, length: nat)
    requires NUL !in text && NEWLINE !in text
    ensures var data := text + [NUL] + rest;
      Split(data, length).0 == text && (NEWLINE !in data[..Min(length, |data|)] ==> Split(data, length).1 == [])
  {
    var data := text + [NUL] + rest;
    var scanned := data[..Min(length, |data|)];
    var k := |Until(scanned, NEWLINE)|;
    if k < |scanned| {
      assert data[k] == NEWLINE && data[|text|] == NUL && data[..|text|] == text;
      UntilIs(data[k := NUL], NUL, text);
    } else {
      UntilIs(data, NUL, text);
    }
  }

  /** In a text that starts with url and a newline, the first newline comes where the url's own first one does. */
  lemma FirstNewline(url: seq<byte>, text: seq<byte>)
    requires url + [NEWLINE] <= text
    ensures Until(text, NEWLINE) == Until(url, NEWLINE) && |Until(url, NEWLINE)| < |text|
    ensures NEWLINE !in url ==> Until(url, NEWLINE) == url
  {
    var head := Until(url, NEWLINE);
    assert text[|head|] == (url + [NEWLINE])[|head|] == NEWLINE;
    assert head == text[..|head|];
    UntilIs(text, NEWLINE, head);
    if NEWLINE !in url {
      UntilIs(url, NEWLINE, url);
    }
  }

  /** Splitting gives back the two strings exactly when the url has no newline of its own. */
  lemma SplitUndoesJoin(url: seq<byte>, post: seq<byte>, rest: seq<byte>, length: nat)
    requires NUL !in url && NUL !in post && |url| + |post| + 2 <= length && |url| + |post| + 1 <= 511
    ensures var data := SendBuffer(url, post) + rest;
      Split(data, length).0 == Until(url, NEWLINE) &&
      (Split(data, length) == (url, post) <==> NEWLINE !in url)
  {
    BufferParts(url, post, rest);
    hide Until, SendBuffer, Split;
    SplitParts(SendBuffer(url, post) + rest, url, post, rest, length);
  }

  lemma SplitParts(data: seq<byte>, url: seq<byte>, post: seq<byte>, rest: seq<byte>, length: nat)
    requires NUL !in url && NUL !in post && |url| < length && |url| < |data|
    requires data[..|url| + 1] == url + [NEWLINE] && data[|url| + 1..] == post + [NUL] + rest
    ensures Split(data, length).0 == Until(url, NEWLINE)
    ensures Split(data, length) == (url, post) <==> NEWLINE !in url
  {
    hide Until, Split;
    var head := Until(url, NEWLINE);
    SplitAt(data, url, head, length);
    UrlPart(data, url, head);
    PostPart(data[|url| + 1..], post, rest);
  }

  lemma SplitAt(data: seq<byte>, url: seq<byte>, head: seq<byte>, length: nat)
    requires |url| < length && |url| < |data| && data[..|url| + 1] == url + [NEWLINE]
    requires head == Until(url, NEWLINE)
    ensures url == data[..|url|] && |head| < |data| && (NEWLINE !in url ==> head == url)
    ensures Split(data, length) == (Until(data[|head| := NUL], NUL), Until(data[|head| + 1..], NUL))
  {
    hide Until;
    UrlIsHead(data, url, Min(length, |data|));
    FirstNewline(url, data[..Min(length, |data|)]);
  }

  lemma UrlIsHead(data: seq<byte>, url: seq<byte>, n: nat)
    requires |url| < n <= |data| && data[..|url| + 1] == url + [NEWLINE]
    ensures url == data[..|url|] && url + [NEWLINE] <= data[..n]
  {
    assert data[..n][..|url| + 1] == data[..|url| + 1];
    assert data[..|url| + 1][..|url|] == data[..|url|];
  }

  lemma PostPart(tail: seq<byte>, post: seq<byte>, rest: seq<byte>)
    requires tail == post + [NUL] + rest && NUL !in post
    ensures Until(tail, NUL) == post
  {
    UntilIs(tail, NUL, post);
  }

  lemma BufferParts(url: seq<byte>, post: seq<byte>, rest: seq<byte>)
    requires |url| + |post| + 1 <= 511
    ensures var data := SendBuffer(url, post) + rest;
      && |data| >= |url| + |post| + 2 && data[..|url| + 1] == url + [NEWLINE] && url <= data
      && data[|url| + 1..] == post + [NUL] + rest
  {
  }

  lemma UrlPart(data: seq<byte>, url: seq<byte>, head: seq<byte>)
    requires url <= data && head <= url && |head| < |data| && NUL !in url
    ensures Until(data[|head| := NUL], NUL) == head
  {
    UntilIs(data[|head| := NUL], NUL, head);
  }

  /** Over the link: a terminated message of up to 490 bytes arrives as the two strings it was made of. */
  lemma PostReachesHost(prefix: seq<byte>, t: byte, url: seq<byte>, post: seq<byte>, padding: seq<byte>,
                        after: seq<byte>, stale: seq<byte>)
    requires |prefix| == TYPE_OFFSET && |padding| == 3 && |stale| == HOST_BUFFER
    requires NUL !in url && NUL !in post && NEWLINE !in url && |url| + |post| + 2 <= PAYLOAD_LIMIT
    ensures var msg := SendBuffer(url, post);
      var n := RoundUp4(|msg|);
      && n <= |msg + padding| && |msg| <= n && Header(t, |msg| + 8) < 0x1_0000_0000
      && var mem := Frame(MAGIC_N64_TO_PC, |msg|, (msg + padding)[..n]) + after;
      var b := HostBuffer(TransportPacket(prefix, Header(t, |msg| + 8), mem[..|msg| + 8]), stale);
      HostType(b) == t && Split(b[PAYLOAD_OFFSET..], DecodedLength(b)) == (url, post)
  {
    var msg := SendBuffer(url, post);
    N64ToPcRoundTrip(prefix, t, msg + padding, |msg|, after, stale);
    assert (msg + padding)[..|msg|] == msg;
    hide HostBuffer, TransportPacket, Frame, Header, DecodedLength, HostType, Split, SendBuffer;
    SplitUndoesJoin(url, post, stale[PAYLOAD_OFFSET + |msg|..], |msg| + 8);
  }
}
