/** Comparing an expected checkpoint with an observed one. */
module Verifier {
  import opened Checkpoint
  import opened Wrappers

  datatype VerificationStatus = Clean | MetadataMismatch(reason: CheckpointMismatch) | DigestMismatch

  datatype VerificationReport = VerificationReport(
    status: VerificationStatus, streamId: string, epoch: nat, startSeq: nat, endSeq: nat,
    expectedDigest: nat, observedDigest: nat)
  {
    predicate IsSuspicious() {
      status != Clean
    }
  }

  /**
   * A report is clean exactly for equal checkpoints, blames the digest exactly when
   * all else is equal, and otherwise names the first metadata field that differs. It
   * points at the window of the expected checkpoint.
   */
  function VerifyCheckpoint(expected: TimeFenceCheckpoint, observed: TimeFenceCheckpoint): (r: VerificationReport)
    ensures r.status == Clean <==> !r.IsSuspicious()
    ensures r.status == Clean <==> expected == observed
    ensures r.status == DigestMismatch <==>
      observed == expected.(digest := observed.digest) && observed.digest != expected.digest
    ensures forall reason :: r.status == MetadataMismatch(reason) <==>
      reason == expected.ReasonMismatch(observed) && reason !in {NoMismatch, DigestValue}
    ensures r.streamId == expected.streamId && r.epoch == expected.epoch
    ensures r.startSeq == expected.startSeq && r.endSeq == expected.endSeq
    ensures r.expectedDigest == expected.digest && r.observedDigest == observed.digest
  {
    var status := match expected.ReasonMismatch(observed)
      case NoMismatch => Clean
      case DigestValue => DigestMismatch
      case other => MetadataMismatch(other);
    VerificationReport(status, expected.streamId, expected.epoch, expected.startSeq, expected.endSeq,
                       expected.digest, observed.digest)
  }

  /** Checkpoints compared pairwise, as far as both lists go. */
  function VerifyMany(expected: seq<TimeFenceCheckpoint>, observed: seq<TimeFenceCheckpoint>)
    : (r: seq<VerificationReport>)
    ensures |r| == if |expected| <= |observed| then |expected| else |observed|
    ensures forall i :: 0 <= i < |r| ==> r[i] == VerifyCheckpoint(expected[i], observed[i])
  {
    if expected == [] || observed == [] then []
    else [VerifyCheckpoint(expected[0], observed[0])] + VerifyMany(expected[1..], observed[1..])
  }

  /** Index of the first suspicious report. */
  function FirstBadChunkIndex(reports: seq<VerificationReport>): (r: Option<nat>)
    ensures r.Some? ==>
      && r.value < |reports| && reports[r.value].IsSuspicious()
      && forall i :: 0 <= i < r.value ==> !reports[i].IsSuspicious()
    ensures r.None? ==> forall i :: 0 <= i < |reports| ==> !reports[i].IsSuspicious()
  {
    if reports == [] then None
    else if reports[0].IsSuspicious() then Some(0)
    else
      match FirstBadChunkIndex(reports[1..])
      case None => None
      case Some(i) => Some(i + 1)
  }

  /** The first suspicious report is unique, so finding one with clean predecessors settles the index. */
  lemma FirstBadIs(reports: seq<VerificationReport>, k: nat)
    requires k < |reports| && reports[k].IsSuspicious()
    requires forall i :: 0 <= i < k ==> !reports[i].IsSuspicious()
    ensures FirstBadChunkIndex(reports) == Some(k)
  {
  }
}
