/**
  The copy loop of a transfer: read the body chunk by chunk, stop at the
  first zero-length read, count every chunk on the progress bar and hand it
  to the file writer, then flush.
 */
module Transfer {
  import opened Wrappers
  import opened Http

  /**
    Which I/O steps fail: opening the target file, the read with the given
    index, the write of the chunk with the given index, and the final flush.
   */
  datatype Faults = Faults(
    openFails: bool,
    readFailsAt: Option<nat>,
    writeFailsAt: Option<nat>,
    flushFails: bool)

  const NoFaults: Faults := Faults(false, None, None, false)

  /** The chunks laid end to end. */
  function Flatten(chunks: seq<seq<byte>>): seq<byte> {
    if chunks == [] then [] else Flatten(chunks[..|chunks| - 1]) + chunks[|chunks| - 1]
  }

  /** The sum of the chunk sizes. */
  function TotalSize(chunks: seq<seq<byte>>): nat {
    if chunks == [] then 0 else TotalSize(chunks[..|chunks| - 1]) + |chunks[|chunks| - 1]|
  }

  lemma {:induction false} FlattenSize(chunks: seq<seq<byte>>)
    ensures |Flatten(chunks)| == TotalSize(chunks)
  {
    if chunks != [] {
      FlattenSize(chunks[..|chunks| - 1]);
    }
  }

  lemma FlattenSnoc(chunks: seq<seq<byte>>, i: nat)
    requires i < |chunks|
    ensures Flatten(chunks[..i + 1]) == Flatten(chunks[..i]) + chunks[i]
  {
    assert chunks[..i + 1][..i] == chunks[..i];
  }

  /** The bytes of fewer chunks are a prefix of the bytes of more. */
  lemma {:induction false} FlattenPrefix(chunks: seq<seq<byte>>, k: nat, e: nat)
    requires k <= e <= |chunks|
    ensures Flatten(chunks[..k]) <= Flatten(chunks[..e])
    decreases e - k
  {
    if k < e {
      FlattenSnoc(chunks, k);
      FlattenPrefix(chunks, k + 1, e);
    }
  }

  /** A file that is `prefix` followed by part of `payload` splits back into the two. */
  lemma SplitWritten(prefix: seq<byte>, part: seq<byte>, payload: seq<byte>)
    requires part <= payload
    ensures var written := prefix + part;
            |prefix| <= |written| && written[..|prefix|] == prefix && written[|prefix|..] <= payload
  {
  }

  lemma TotalSizeSnoc(chunks: seq<seq<byte>>, i: nat)
    requires i < |chunks|
    ensures TotalSize(chunks[..i + 1]) == TotalSize(chunks[..i]) + |chunks[i]|
  {
    assert chunks[..i + 1][..i] == chunks[..i];
  }

  /**
    The index of the read that ends the stream: the first zero-length chunk,
    or the read past the last chunk, which returns nothing.
   */
  function EndIndex(body: seq<seq<byte>>): (e: nat)
    ensures e <= |body|
    ensures forall j :: 0 <= j < e ==> |body[j]| > 0
    ensures e < |body| ==> |body[e]| == 0
  {
    if body == [] || |body[0]| == 0 then 0
    else
      var e := 1 + EndIndex(body[1..]);
      assert forall j :: 1 <= j < e ==> body[j] == body[1..][j - 1];
      e
  }

  /** The bytes the loop reads before the end of the stream. */
  function Payload(body: seq<seq<byte>>): seq<byte> {
    Flatten(body[..EndIndex(body)])
  }

  /** No read up to and including the terminating one fails. */
  predicate ReadsSucceed(body: seq<seq<byte>>, faults: Faults) {
    faults.readFailsAt.None? || faults.readFailsAt.value > EndIndex(body)
  }

  /** No write of a chunk before the terminating read fails. */
  predicate WritesSucceed(body: seq<seq<byte>>, faults: Faults) {
    faults.writeFailsAt.None? || faults.writeFailsAt.value >= EndIndex(body)
  }

  /**
    The read loop: read chunks until the end of the stream, advancing the
    progress counter by each chunk before handing it to the writer.
    `copied` is the number of chunks handed to the writer, so `written` is
    `prefix` followed by exactly those chunks.
   */
  method ReadChunks(name: string, prefix: seq<byte>, start: nat, body: seq<seq<byte>>, faults: Faults)
    returns (status: Result<(), Error>, written: seq<byte>, progress: nat, copied: nat)
    ensures copied <= EndIndex(body)
    ensures written == prefix + Flatten(body[..copied])
    ensures status.Success? <==> ReadsSucceed(body, faults) && WritesSucceed(body, faults)
    ensures status.Success? ==> copied == EndIndex(body) && progress == start + TotalSize(body[..copied])
    ensures faults.readFailsAt.Some? && faults.readFailsAt.value <= EndIndex(body) &&
            (faults.writeFailsAt.None? || faults.writeFailsAt.value >= faults.readFailsAt.value) ==>
              && status == Failure(ReadFailed)
              && copied == faults.readFailsAt.value
              && progress == start + TotalSize(body[..copied])
    ensures faults.writeFailsAt.Some? && faults.writeFailsAt.value < EndIndex(body) &&
            (faults.readFailsAt.None? || faults.readFailsAt.value > faults.writeFailsAt.value) ==>
              && status == Failure(WriteFailed(name))
              && copied == faults.writeFailsAt.value
              && progress == start + TotalSize(body[..copied + 1])
  {
    written := prefix;
    progress := start;
    copied := 0;
    var end := EndIndex(body);
    while true
      invariant copied <= end
      invariant faults.readFailsAt.None? || faults.readFailsAt.value >= copied
      invariant faults.writeFailsAt.None? || faults.writeFailsAt.value >= copied
      invariant written == prefix + Flatten(body[..copied])
      invariant progress == start + TotalSize(body[..copied])
      decreases |body| - copied
    {
      if faults.readFailsAt == Some(copied) {
        status := Failure(ReadFailed);
        return;
      }
      var chunk := if copied < |body| then body[copied] else [];
      if |chunk| == 0 {
        assert copied == end;
        break;
      }
      FlattenSnoc(body, copied);
      TotalSizeSnoc(body, copied);
      progress := progress + |chunk|;
      if faults.writeFailsAt == Some(copied) {
        status := Failure(WriteFailed(name));
        return;
      }
      written := written + chunk;
      copied := copied + 1;
    }
    status := Success(());
  }

  /**
    Copy `body` into a file that already holds `prefix`, with the progress
    counter starting at `start`, then flush. `written` is the file as the
    writer sees it: `prefix`, then every byte handed to the writer, which is
    always a prefix of the payload. The progress counter is advanced before
    each write, so a chunk whose write fails is still counted. The byte count
    is never compared with any advertised length.
   */
  method CopyBody(name: string, prefix: seq<byte>, start: nat, body: seq<seq<byte>>, faults: Faults)
    returns (status: Result<(), Error>, written: seq<byte>, progress: nat)
    ensures |prefix| <= |written| && written[..|prefix|] == prefix && written[|prefix|..] <= Payload(body)
    ensures status.Success? <==> ReadsSucceed(body, faults) && WritesSucceed(body, faults) && !faults.flushFails
    ensures ReadsSucceed(body, faults) && WritesSucceed(body, faults) ==>
              && written == prefix + Payload(body)
              && progress == start + TotalSize(body[..EndIndex(body)])
    ensures ReadsSucceed(body, faults) && WritesSucceed(body, faults) && faults.flushFails ==>
              status == Failure(FlushFailed(name))
    ensures faults.readFailsAt.Some? && faults.readFailsAt.value <= EndIndex(body) &&
            (faults.writeFailsAt.None? || faults.writeFailsAt.value >= faults.readFailsAt.value) ==>
              && status == Failure(ReadFailed)
              && written == prefix + Flatten(body[..faults.readFailsAt.value])
              && progress == start + TotalSize(body[..faults.readFailsAt.value])
    ensures faults.writeFailsAt.Some? && faults.writeFailsAt.value < EndIndex(body) &&
            (faults.readFailsAt.None? || faults.readFailsAt.value > faults.writeFailsAt.value) ==>
              && status == Failure(WriteFailed(name))
              && written == prefix + Flatten(body[..faults.writeFailsAt.value])
              && progress == start + TotalSize(body[..faults.writeFailsAt.value + 1])
  {
    var copied;
    status, written, progress, copied := ReadChunks(name, prefix, start, body, faults);
    FlattenPrefix(body, copied, EndIndex(body));
    SplitWritten(prefix, Flatten(body[..copied]), Payload(body));
    if status.Success? && faults.flushFails {
      status := Failure(FlushFailed(name));
    }
  }
}
