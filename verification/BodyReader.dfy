/** cli/fulfill-webhook-http.js readBody: a request body accumulated under a hard cap. */
module BodyReader {
  import opened Hashing
  import opened MerkleTree

  const OVERSIZE_DRAIN_LIMIT: nat := 4 * 1024 * 1024

  /** How the promise settles: the body, a clean "too large", or a refusal by status. */
  datatype Outcome = Raw(body: Data) | TooLarge(maxBytes: nat) | Refused(status: nat)

  function Concat(chunks: seq<Data>): Data {
    if chunks == [] then [] else Concat(chunks[..|chunks| - 1]) + chunks[|chunks| - 1]
  }

  lemma ConcatSnoc(chunks: seq<Data>, c: Data)
    ensures Concat(chunks + [c]) == Concat(chunks) + c
  {
    assert (chunks + [c])[..|chunks|] == chunks;
  }

  /** The state the event handlers share. */
  class Reader {
    const maxBytes: nat
    var chunks: seq<Data>
    var size: nat
    var over: bool
    var outcome: Option<Outcome>
    /** All bytes received so far. */
    ghost var received: Data

    /** What is buffered is everything received, until that passes the cap; then nothing is. */
    ghost predicate Valid()
      reads this
    {
      size == |received| && over == (size > maxBytes) && Concat(chunks) == if over then [] else received
    }

    constructor (max: nat)
      ensures Valid() && received == [] && outcome == None && maxBytes == max
    {
      maxBytes := max;
      chunks, size, over, outcome := [], 0, false, None;
      received := [];
    }

    /** Only the first settlement counts. */
    method Finish(o: Outcome)
      modifies this`outcome
      ensures outcome == if old(outcome).Some? then old(outcome) else Some(o)
    {
      if outcome.Some? { return; }
      outcome := Some(o);
    }

    method OnData(chunk: Data)
      requires Valid()
      modifies this
      ensures Valid() && received == old(received) + chunk && |Concat(chunks)| <= maxBytes
      ensures outcome == if old(outcome).None? && |received| > maxBytes + OVERSIZE_DRAIN_LIMIT then Some(Refused(413)) else old(outcome)
    {
      size := size + |chunk|;
      received := received + chunk;
      if !over && size > maxBytes {
        over := true;
        chunks := [];
      }
      if over {
        if size > maxBytes + OVERSIZE_DRAIN_LIMIT { Finish(Refused(413)); }
        return;
      }
      ConcatSnoc(chunks, chunk);
      chunks := chunks + [chunk];
    }

    method OnEnd()
      requires Valid()
      modifies this`outcome
      ensures Valid()
      ensures old(outcome).Some? ==> outcome == old(outcome)
      ensures old(outcome).None? ==> outcome == Some(if |received| > maxBytes then TooLarge(maxBytes) else Raw(received))
    {
      Finish(if over then TooLarge(maxBytes) else Raw(Concat(chunks)));
    }

    method OnError()
      requires Valid()
      modifies this`outcome
      ensures Valid() && outcome == if old(outcome).Some? then old(outcome) else Some(Refused(400))
    {
      Finish(Refused(400));
    }
  }

  /** A whole request, ended cleanly or broken off by a transport error: how it is cut into chunks
      never matters, only the bytes do. */
  method ReadBody(chunks: seq<Data>, broken: bool, maxBytes: nat) returns (o: Outcome)
    ensures o == var body := Concat(chunks);
                 if |body| > maxBytes + OVERSIZE_DRAIN_LIMIT then Refused(413)
                 else if broken then Refused(400)
                 else if |body| > maxBytes then TooLarge(maxBytes)
                 else Raw(body)
    ensures o.Refused? && o.status == 413 <==> |Concat(chunks)| > maxBytes + 4194304
  {
    var reader := new Reader(maxBytes);
    for i := 0 to |chunks|
      invariant fresh(reader) && reader.Valid() && reader.received == Concat(chunks[..i])
      invariant reader.outcome == if |reader.received| > maxBytes + OVERSIZE_DRAIN_LIMIT then Some(Refused(413)) else None
    {
      assert chunks[..i + 1][..i] == chunks[..i];
      reader.OnData(chunks[i]);
    }
    assert chunks[..|chunks|] == chunks;
    if broken { reader.OnError(); } else { reader.OnEnd(); }
    o := reader.outcome.value;
  }
}
