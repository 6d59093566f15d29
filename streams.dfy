/**
 * Byte streams as the engine sees them, and `copyStreamDigest`, the loop
 * that feeds every chunk read both to the digest and to the output stream.
 *
 * An input stream is the sequence of results its successive `read` calls
 * return: a chunk of bytes (possibly empty) or a failure (an `IOException`).
 * When the sequence is used up, `read` returns -1, the end of the stream.
 */
module Streams {
  import opened Common

  datatype Read = Chunk(data: seq<byte>) | Fail

  /** The bytes a reader obtains before the first failure or the end. */
  function Delivered(stream: seq<Read>): seq<byte> {
    if stream == [] then []
    else match stream[0]
      case Fail => []
      case Chunk(d) => d + Delivered(stream[1..])
  }

  /** Reading one more chunk, with no failure so far, appends its bytes. */
  lemma {:induction false} DeliveredAppend(stream: seq<Read>, d: seq<byte>)
    requires Fail !in stream
    ensures Delivered(stream + [Chunk(d)]) == Delivered(stream) + d
  {
    if stream == [] {
      assert [Chunk(d)][1..] == [];
    } else {
      assert (stream + [Chunk(d)])[1..] == stream[1..] + [Chunk(d)];
      DeliveredAppend(stream[1..], d);
    }
  }

  /** Nothing after the first failure is delivered. */
  lemma {:induction false} DeliveredStopsAtFail(stream: seq<Read>, i: nat)
    requires i < |stream| && stream[i] == Fail && Fail !in stream[..i]
    ensures Delivered(stream) == Delivered(stream[..i])
  {
    if i > 0 {
      assert stream[1..][..i - 1] == stream[..i][1..];
      DeliveredStopsAtFail(stream[1..], i - 1);
    }
  }

  /** An `OutputStream`: everything written to it, in order. */
  class Sink {
    var written: seq<byte>

    constructor ()
      ensures written == []
    {
      written := [];
    }

    method Write(data: seq<byte>)
      modifies this
      ensures written == old(written) + data
    {
      written := written + data;
    }
  }

  /**
   * A `MessageDigest`: the hash itself is left abstract; the model keeps the
   * byte sequence it has been fed, of which the digest is a function.
   */
  class Digest {
    var fed: seq<byte>

    constructor ()
      ensures fed == []
    {
      fed := [];
    }

    method Update(data: seq<byte>)
      modifies this
      ensures fed == old(fed) + data
    {
      fed := fed + data;
    }
  }

  /**
   * `copyStreamDigest`: reads until `read` returns -1, feeding each chunk
   * to `md` and writing it to `out`. `failed` reports a failing `read`,
   * which the source propagates as an exception; the chunks read before it
   * have already been written and digested.
   */
  method CopyStreamDigest(input: seq<Read>, out: Sink, md: Digest) returns (failed: bool)
    modifies out, md
    ensures out.written == old(out.written) + Delivered(input)
    ensures md.fed == old(md.fed) + Delivered(input)
    ensures failed <==> Fail in input
  {
    var i := 0;
    while i < |input|
      invariant 0 <= i <= |input|
      invariant Fail !in input[..i]
      invariant out.written == old(out.written) + Delivered(input[..i])
      invariant md.fed == old(md.fed) + Delivered(input[..i])
    {
      match input[i]
      case Fail =>
        DeliveredStopsAtFail(input, i);
        return true;
      case Chunk(d) =>
        md.Update(d);
        out.Write(d);
        assert input[..i + 1] == input[..i] + [Chunk(d)];
        DeliveredAppend(input[..i], d);
      i := i + 1;
    }
    assert input[..i] == input;
    return false;
  }
}
