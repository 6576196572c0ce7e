/**
 The host's HTTP relay: a response buffer grown chunk by chunk, and the loop that retries
 transient failures with the buffer emptied first.
 */
module HttpRelay {
  import opened Options
  import opened Wire

  datatype CurlCode = CurlOk | TimedOut | CouldntConnect | CouldntResolveHost | OtherError

  predicate Transient(c: CurlCode) {
    c.TimedOut? || c.CouldntConnect? || c.CouldntResolveHost?
  }

  /** A piece of the response body; `mem` says whether the buffer can be grown for it. */
  datatype Chunk = Chunk(data: seq<byte>, mem: bool)

  /** One transfer: what arrives, and how it would end if every chunk were taken. */
  datatype Attempt = Attempt(chunks: seq<Chunk>, result: CurlCode)

  /** A chunk that is not taken in full makes curl give the transfer up. */
  predicate Taken(c: Chunk) {
    c.mem || c.data == []
  }

  function Code(a: Attempt): CurlCode {
    if forall i :: 0 <= i < |a.chunks| ==> Taken(a.chunks[i]) then a.result else OtherError
  }

  function Body(chunks: seq<Chunk>): seq<byte> {
    if chunks == [] then [] else Body(chunks[..|chunks| - 1]) + chunks[|chunks| - 1].data
  }

  lemma NoBody()
    ensures Body([]) == []
  {
  }

  lemma BodyGrows(chunks: seq<Chunk>, i: nat)
    requires i < |chunks|
    ensures Body(chunks[..i + 1]) == Body(chunks[..i]) + chunks[i].data
  {
    assert chunks[..i + 1][..i] == chunks[..i];
  }

  /** The reply sent to the N64 once the loop ends, if it ends with success. */
  function Reply(attempts: seq<Attempt>): Option<seq<byte>> {
    if attempts == [] then None
    else if Code(attempts[0]).CurlOk? then Some(Body(attempts[0].chunks) + [0])
    else if Transient(Code(attempts[0])) then Reply(attempts[1..])
    else None
  }

  /** The body arrives whole: every chunk that is not empty finds memory. */
  predicate AllFits(chunks: seq<Chunk>) {
    forall i :: 0 <= i < |chunks| ==> chunks[i].mem || chunks[i].data == []
  }

  /**
   What each way a transfer can end leads to. A timeout or a failure to connect or resolve,
   with every chunk taken, leaves the reply to the later attempts; any other error, or a
   chunk for which there is no memory, ends the loop with no reply; success ends it with a reply.
   */
  lemma FirstAttemptDecides(a: Attempt, rest: seq<Attempt>)
    ensures AllFits(a.chunks) && a.result in {TimedOut, CouldntConnect, CouldntResolveHost} ==>
      Reply([a] + rest) == Reply(rest)
    ensures AllFits(a.chunks) && a.result == CurlOk ==> Reply([a] + rest) == Some(Body(a.chunks) + [0])
    ensures a.result == OtherError || !AllFits(a.chunks) ==> Reply([a] + rest) == None
  {
    assert ([a] + rest)[1..] == rest;
  }

  /** The body is its chunks in order, end to end. */
  lemma {:induction false} BodyJoins(chunks: seq<Chunk>, more: seq<Chunk>)
    ensures Body(chunks + more) == Body(chunks) + Body(more)
    ensures |chunks| == 1 ==> Body(chunks) == chunks[0].data
    decreases |more|
  {
    if more == [] {
      assert chunks + more == chunks;
    } else {
      var last := |more| - 1;
      assert (chunks + more)[..|chunks + more| - 1] == chunks + more[..last];
      BodyJoins(chunks, more[..last]);
    }
  }

  /** Attempt k succeeds, after transient failures only. */
  predicate Succeeds(attempts: seq<Attempt>, k: nat) {
    k < |attempts| && Code(attempts[k]).CurlOk? && forall j :: 0 <= j < k ==> Transient(Code(attempts[j]))
  }

  /**
   A reply is sent exactly when some attempt succeeds after transient failures only, and it
   is that attempt's body and a terminator: nothing of an earlier attempt is left in it.
   */
  lemma {:induction false} ReplyIsLastAttempt(attempts: seq<Attempt>)
    ensures Reply(attempts).Some? <==> exists k: nat :: Succeeds(attempts, k)
    ensures forall k: nat :: Succeeds(attempts, k) ==> Reply(attempts) == Some(Body(attempts[k].chunks) + [0])
  {
    if attempts != [] {
      var rest := attempts[1..];
      ReplyIsLastAttempt(rest);
      forall k: nat | Succeeds(attempts, k) ensures Reply(attempts) == Some(Body(attempts[k].chunks) + [0]) {
        if k > 0 {
          assert Transient(Code(attempts[0]));
          assert Succeeds(rest, k - 1);
        }
      }
      if Reply(attempts).Some? {
        if Code(attempts[0]).CurlOk? {
          assert Succeeds(attempts, 0);
        } else {
          var k: nat :| Succeeds(rest, k);
          assert Succeeds(attempts, k + 1);
        }
      }
    }
  }

  class Response {
    var ptr: array<byte>
    var len: nat

    /** Room for the terminator, which is in place. */
    ghost predicate Valid()
      reads this, ptr
    {
      len < ptr.Length && ptr[len] == 0
    }

    ghost function Contents(): seq<byte>
      requires Valid()
      reads this, ptr
    {
      ptr[..len]
    }

    constructor ()
      ensures Valid() && Contents() == [] && fresh(ptr)
    {
      ptr := new byte[1](_ => 0);
      len := 0;
    }

    method Reset()
      requires Valid()
      modifies this`len, ptr
      ensures Valid() && Contents() == []
    {
      len := 0;
      ptr[0] := 0;
    }

    method WriteCallback(data: seq<byte>, mem: bool) returns (taken: nat)
      requires Valid()
      modifies this, ptr
      ensures Valid() && (ptr == old(ptr) || fresh(ptr))
      ensures taken == if mem then |data| else 0
      ensures Contents() == if mem then old(Contents()) + data else old(Contents())
      ensures mem ==> ptr.Length == len + 1
    {
      if !mem {
        return 0;
      }
      var tmp := new byte[len + |data| + 1](_ => 0);
      forall i | 0 <= i < len {
        tmp[i] := ptr[i];
      }
      forall i | 0 <= i < |data| {
        tmp[len + i] := data[i];
      }
      ptr := tmp;
      len := len + |data|;
      ptr[len] := 0;
      return |data|;
    }

    /** One transfer: the callback sees the chunks in order until one is not taken. */
    method Perform(a: Attempt) returns (code: CurlCode)
      requires Valid() && Contents() == []
      modifies this, ptr
      ensures Valid() && (ptr == old(ptr) || fresh(ptr))
      ensures code == Code(a)
      ensures code.CurlOk? ==> Contents() == Body(a.chunks)
    {
      hide Body;
      assert Body(a.chunks[..0]) == [] by { NoBody(); }
      for i := 0 to |a.chunks|
        invariant Valid() && (ptr == old(ptr) || fresh(ptr))
        invariant forall j :: 0 <= j < i ==> Taken(a.chunks[j])
        invariant Contents() == Body(a.chunks[..i])
      {
        BodyGrows(a.chunks, i);
        var taken := WriteCallback(a.chunks[i].data, a.chunks[i].mem);
        if taken != |a.chunks[i].data| {
          return OtherError;
        }
      }
      assert a.chunks[..|a.chunks|] == a.chunks;
      return a.result;
    }

    /** The retry loop, over the attempts it gets to make; the reply it sends, if any. */
    method NetworkPost(attempts: seq<Attempt>) returns (reply: Option<seq<byte>>)
      requires Valid()
      modifies this, ptr
      ensures Valid() && reply == Reply(attempts)
      ensures reply.Some? ==> ptr.Length >= len + 1 && reply.value == ptr[..len + 1]
    {
      for i := 0 to |attempts|
        invariant Valid() && (ptr == old(ptr) || fresh(ptr))
        invariant Reply(attempts) == Reply(attempts[i..])
      {
        Reset();
        var code := Perform(attempts[i]);
        assert attempts[i..][1..] == attempts[i + 1..];
        if code.CurlOk? {
          assert ptr[..len + 1] == Contents() + [0];
          return Some(ptr[..len + 1]);
        }
        if !Transient(code) {
          return None;
        }
      }
      return None;
    }
  }
}
