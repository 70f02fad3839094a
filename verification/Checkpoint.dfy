/** Checkpoint metadata and the classification of a mismatch. */
module Checkpoint {

  datatype CheckpointMismatch =
    | NoMismatch | StreamId | Epoch | StartSeq | Length | EndSeq | Params | DigestValue

  datatype TimeFenceCheckpoint = TimeFenceCheckpoint(
    streamId: string, epoch: nat, startSeq: nat, endSeq: nat, len: nat, digest: nat, q: nat, p: nat)
  {
    static function New(streamId: string, epoch: nat, startSeq: nat, len: nat, digest: nat, q: nat, p: nat)
      : (c: TimeFenceCheckpoint)
      ensures c.streamId == streamId && c.epoch == epoch && c.startSeq == startSeq && c.len == len
      ensures c.ValidRange() && c.endSeq == startSeq + len
      ensures c.digest == digest && c.q == q && c.p == p
    {
      TimeFenceCheckpoint(streamId, epoch, startSeq, startSeq + len, len, digest, q, p)
    }

    predicate ValidRange() {
      endSeq == startSeq + len
    }

    /** Nothing but the digest and the parameters can tell the two apart. */
    predicate SameRangeAs(other: TimeFenceCheckpoint): (same: bool)
      ensures same <==> other == this.(digest := other.digest, q := other.q, p := other.p)
    {
      && streamId == other.streamId && epoch == other.epoch
      && startSeq == other.startSeq && endSeq == other.endSeq && len == other.len
    }

    predicate SameParamsAs(other: TimeFenceCheckpoint): (same: bool)
      ensures same <==> other == other.(q := q, p := p)
    {
      q == other.q && p == other.p
    }

    /** Only equal checkpoints match fully. */
    predicate FullyMatches(other: TimeFenceCheckpoint): (same: bool)
      ensures same <==> other == this
    {
      SameRangeAs(other) && SameParamsAs(other) && digest == other.digest
    }

    predicate AdjacentTo(next: TimeFenceCheckpoint): (adjacent: bool)
      ensures adjacent <==> next == next.(streamId := streamId, epoch := epoch, startSeq := endSeq)
    {
      streamId == next.streamId && epoch == next.epoch && endSeq == next.startSeq
    }

    /**
     * The first field that differs, in the order stream, epoch, start, length, end,
     * parameters, digest; the end is never to blame when both ranges are consistent.
     */
    function ReasonMismatch(other: TimeFenceCheckpoint): (r: CheckpointMismatch)
      ensures r == NoMismatch <==> other == this
      ensures r == StreamId <==> streamId != other.streamId
      ensures r == Epoch <==> streamId == other.streamId && epoch != other.epoch
      ensures r == StartSeq <==> streamId == other.streamId && epoch == other.epoch && startSeq != other.startSeq
      ensures r == Length <==>
        streamId == other.streamId && epoch == other.epoch && startSeq == other.startSeq && len != other.len
      ensures r == EndSeq <==>
        && streamId == other.streamId && epoch == other.epoch && startSeq == other.startSeq && len == other.len
        && endSeq != other.endSeq
      ensures r == Params <==> SameRangeAs(other) && (q != other.q || p != other.p)
      ensures r == DigestValue <==> other == this.(digest := other.digest) && digest != other.digest
      ensures ValidRange() && other.ValidRange() ==> r != EndSeq
    {
      if streamId != other.streamId then StreamId
      else if epoch != other.epoch then Epoch
      else if startSeq != other.startSeq then StartSeq
      else if len != other.len then Length
      else if endSeq != other.endSeq then EndSeq
      else if q != other.q || p != other.p then Params
      else if digest != other.digest then DigestValue
      else NoMismatch
    }
  }
}
