/** The request body limiter: a body wrapper that counts data bytes and answers an
    error once they exceed the limit. */
module LimitedBody {
  import opened Basics

  /** One poll of a body: what the inner body answers, or what the wrapper does. */
  datatype Poll =
    | Data(bytes: Bytes)
    | Trailers
    | End
    | Pending
    | UpstreamError
    | TooLarge

  /** The data bytes offered by a list of polls. */
  function Total(polls: seq<Poll>): nat {
    if polls == [] then 0
    else Total(polls[..|polls| - 1]) + DataLength(polls[|polls| - 1])
  }

  function DataLength(p: Poll): nat {
    if p.Data? then |p.bytes| else 0
  }

  /** Only the bytes of data frames count, each once. */
  lemma TotalSnoc(polls: seq<Poll>, p: Poll)
    ensures Total([]) == 0
    ensures Total(polls + [p]) == Total(polls) + if p.Data? then |p.bytes| else 0
  {
    assert (polls + [p])[..|polls|] == polls;
  }

  /** What polling against a limit comes to: a data frame passes exactly if the data
      up to and including it fits; everything else passes. */
  function Limited(max: nat, polls: seq<Poll>): seq<Poll> {
    if polls == [] then []
    else
      var p := polls[|polls| - 1];
      Limited(max, polls[..|polls| - 1]) + [if p.Data? && Total(polls) > max then TooLarge else p]
  }

  /** What the wrapper answers: its count saturates at u64::MAX, so that as a limit
      refuses nothing. */
  function AnsweredTo(max: u64, polls: seq<Poll>): seq<Poll> {
    if max == U64_MAX then polls else Limited(max, polls)
  }

  lemma AnsweredSnoc(max: u64, polls: seq<Poll>, p: Poll)
    ensures
      AnsweredTo(max, polls + [p]) ==
      AnsweredTo(max, polls) + [if max < U64_MAX && p.Data? && Total(polls + [p]) > max then TooLarge else p]
  {
    assert (polls + [p])[..|polls|] == polls;
    hide Total;
  }

  class LimitedBody {
    const maxBytes: u64
    var seenBytes: u64
    ghost var polled: seq<Poll>
    ghost var answered: seq<Poll>

    ghost predicate Valid()
      reads this
    {
      && seenBytes == (if Total(polled) < U64_LIMIT then Total(polled) else U64_MAX)
      && answered == AnsweredTo(maxBytes, polled)
    }

    constructor (maxBytes: u64)
      ensures Valid() && this.maxBytes == maxBytes && polled == answered == []
    {
      this.maxBytes := maxBytes;
      seenBytes := 0;
      polled, answered := [], [];
    }

    /** `poll_frame`, given what the inner body answers. */
    method PollFrame(inner: Poll) returns (answer: Poll)
      requires Valid()
      modifies this
      ensures Valid()
      ensures polled == old(polled) + [inner] && answered == old(answered) + [answer]
      ensures answer == inner || (inner.Data? && answer.TooLarge?)
    {
      hide AnsweredTo, Total, Limited;
      answer := inner;
      if inner.Data? {
        seenBytes := SaturatingAdd(seenBytes, |inner.bytes|);
        if seenBytes > maxBytes {
          answer := TooLarge;
        }
      }
      TotalSnoc(polled, inner);
      AnsweredSnoc(maxBytes, polled, inner);
      polled, answered := polled + [inner], answered + [answer];
    }
  }

  // ---------- What the limit guarantees ----------

  /** Position by position: the frames that pass are the longest prefix of the data
      that fits the limit, unchanged, and no data frame passes after it. */
  lemma {:induction false} LimitedAt(max: nat, polls: seq<Poll>, i: nat)
    requires i < |polls|
    ensures |Limited(max, polls)| == |polls|
    ensures Limited(max, polls)[i] == if polls[i].Data? && Total(polls[..i + 1]) > max then TooLarge else polls[i]
  {
    var init := polls[..|polls| - 1];
    if i < |init| {
      LimitedAt(max, init, i);
      assert init[..i + 1] == polls[..i + 1];
    } else {
      assert polls[..i + 1] == polls;
      if init != [] {
        LimitedAt(max, init, 0);
      }
    }
  }

  lemma {:induction false} TotalGrows(polls: seq<Poll>, i: nat)
    requires i <= |polls|
    ensures Total(polls[..i]) <= Total(polls)
  {
    if i == |polls| {
      assert polls[..i] == polls;
    } else {
      TotalGrows(polls[..|polls| - 1], i);
      assert polls[..|polls| - 1][..i] == polls[..i];
    }
  }

  /** The bytes passed on never exceed the limit, however long polling goes on after
      the error; and they are all the data while the data fits. */
  lemma {:induction false} PassedBytesFit(max: nat, polls: seq<Poll>)
    ensures Total(Limited(max, polls)) <= max
    ensures Total(polls) <= max ==> Total(Limited(max, polls)) == Total(polls)
    ensures Total(Limited(max, polls)) <= Total(polls)
  {
    if polls != [] {
      var init, p := polls[..|polls| - 1], polls[|polls| - 1];
      PassedBytesFit(max, init);
      TotalSnoc(Limited(max, init), if p.Data? && Total(polls) > max then TooLarge else p);
    }
  }

  /** A body within the limit passes unchanged. */
  lemma {:induction false} BodyWithinLimitIsUnchanged(max: nat, polls: seq<Poll>)
    requires Total(polls) <= max
    ensures Limited(max, polls) == polls
  {
    if polls != [] {
      TotalGrows(polls, |polls| - 1);
      BodyWithinLimitIsUnchanged(max, polls[..|polls| - 1]);
    }
  }

  /** Once a data frame has been refused, every later one is. */
  lemma RefusalIsFinal(max: nat, polls: seq<Poll>, i: nat, j: nat)
    requires i < j < |polls| && polls[i].Data? && polls[j].Data?
    requires |Limited(max, polls)| == |polls| && Limited(max, polls)[i] == TooLarge
    ensures Limited(max, polls)[j] == TooLarge
  {
    LimitedAt(max, polls, i);
    LimitedAt(max, polls, j);
    TotalGrows(polls[..j + 1], i + 1);
    assert polls[..j + 1][..i + 1] == polls[..i + 1];
  }

  /** The exact reach of the limit: the bytes passed on keep to it if and only if it is
      below u64::MAX or the body keeps to it anyway. */
  lemma LimitHoldsExactlyWhen(max: u64, polls: seq<Poll>)
    ensures Total(AnsweredTo(max, polls)) <= max <==> max < 0xFFFF_FFFF_FFFF_FFFF || Total(polls) <= max
  {
    PassedBytesFit(max, polls);
  }

  /** `wrap_limited_request_body`: a declared length over the limit is refused before
      any of the body is read. */
  method WrapLimitedRequestBody(contentLength: Option<u64>, maxBytes: u64) returns (body: Option<LimitedBody>)
    ensures body.None? <==> contentLength.Some? && contentLength.value > maxBytes
    ensures body.Some? ==>
              && fresh(body.value) && body.value.Valid()
              && body.value.maxBytes == maxBytes && body.value.polled == []
  {
    if contentLength.Some? && contentLength.value > maxBytes {
      return None;
    }
    var wrapped := new LimitedBody(maxBytes);
    return Some(wrapped);
  }
}
