/** The stream faults injected in experiments, and what each does to the stream and to its reports. */
module Fault {
  import opened Machine
  import opened Edits
  import opened Slicing
  import opened Checkpoint
  import opened Verifier
  import opened Chunker
  import opened Localisation
  import opened Wrappers

  datatype FaultKind =
    | NoFault | DropOneFault | SwapAdjacentFault | DuplicateOneFault | TruncateTailFault | SpliceOldPrefixFault

  /** Entries before the index stay, the others move one position down over it. */
  function DropOne<T>(xs: seq<T>, index: nat): (out: seq<T>)
    ensures index >= |xs| ==> out == xs
    ensures index < |xs| ==> |out| == |xs| - 1
    ensures forall i :: 0 <= i < index && i < |xs| ==> out[i] == xs[i]
    ensures forall i :: index <= i < |xs| - 1 ==> out[i] == xs[i + 1]
  {
    if index < |xs| then xs[..index] + xs[index + 1..] else xs
  }

  /** Entries up to the index stay, and from the index on they appear one position up. */
  function Duplicated<T>(xs: seq<T>, index: nat): (out: seq<T>)
    ensures index >= |xs| ==> out == xs
    ensures index < |xs| ==> |out| == |xs| + 1
    ensures forall i :: 0 <= i <= index && i < |xs| ==> out[i] == xs[i]
    ensures forall i :: index <= i < |xs| ==> out[i + 1] == xs[i]
  {
    if index < |xs| then xs[..index + 1] + xs[index..] else xs
  }

  /** The first `newLen` entries, or all when there are fewer. */
  function TruncateTail<T>(xs: seq<T>, newLen: nat): (out: seq<T>)
    ensures |out| == Min(|xs|, newLen)
    ensures forall i :: 0 <= i < |out| ==> out[i] == xs[i]
  {
    if newLen < |xs| then xs[..newLen] else xs
  }

  /** Up to `prefixLen` old entries, then the current ones from position `prefixLen` on. */
  function Spliced<T>(current: seq<T>, old_: seq<T>, prefixLen: nat): (out: seq<T>)
    ensures var head := Min(|old_|, prefixLen);
      && |out| == head + (if prefixLen <= |current| then |current| - prefixLen else 0)
      && (forall i :: 0 <= i < head ==> out[i] == old_[i])
      && (forall i :: prefixLen <= i < |current| ==> out[head + (i - prefixLen)] == current[i])
  {
    TruncateTail(old_, prefixLen) + if prefixLen <= |current| then current[prefixLen..] else []
  }

  method SwapAdjacent(xs: seq<u128>, index: nat) returns (out: seq<u128>)
    ensures out == if index + 1 < |xs| then SwapAt(xs, index, index + 1) else xs
    ensures multiset(out) == multiset(xs) && |out| == |xs|
    ensures index + 1 < |xs| ==> out[index] == xs[index + 1] && out[index + 1] == xs[index]
    ensures forall i :: 0 <= i < |xs| && i != index && i != index + 1 ==> out[i] == xs[i]
  {
    out := xs;
    if index + 1 < |out| {
      out := out[index := out[index + 1]][index + 1 := out[index]];
    }
  }

  method DuplicateOne(xs: seq<u128>, index: nat) returns (out: seq<u128>)
    ensures out == Duplicated(xs, index)
  {
    out := [];
    for i := 0 to |xs|
      invariant out == if index < i then xs[..index + 1] + xs[index..i] else xs[..i]
    {
      out := out + [xs[i]];
      if i == index {
        out := out + [xs[i]];
      }
    }
  }

  method SpliceOldPrefix(current: seq<u128>, old_: seq<u128>, prefixLen: nat) returns (out: seq<u128>)
    ensures out == Spliced(current, old_, prefixLen)
  {
    out := [];
    var head := TruncateTail(old_, prefixLen);
    for i := 0 to |head|
      invariant out == head[..i]
    {
      out := out + [head[i]];
    }
    var tail := if prefixLen <= |current| then current[prefixLen..] else [];
    for i := 0 to |tail|
      invariant out == head + tail[..i]
    {
      out := out + [tail[i]];
    }
  }

  const OLD_PREFIX: seq<u128> := [999, 888, 777, 666]

  function Injected(xs: seq<u128>, kind: FaultKind): seq<u128> {
    match kind
    case NoFault => xs
    case DropOneFault => DropOne(xs, 1)
    case SwapAdjacentFault => if 2 < |xs| then xs[1 := xs[2]][2 := xs[1]] else xs
    case DuplicateOneFault => Duplicated(xs, 1)
    case TruncateTailFault => TruncateTail(xs, if |xs| == 0 then 0 else |xs| - 1)
    case SpliceOldPrefixFault => Spliced(xs, OLD_PREFIX, 2)
  }

  /** The streams an injected fault of this kind changes. */
  predicate Changes(xs: seq<u128>, kind: FaultKind) {
    match kind
    case NoFault => false
    case DropOneFault => |xs| >= 2
    case SwapAdjacentFault => |xs| >= 3 && xs[1] != xs[2]
    case DuplicateOneFault => |xs| >= 2
    case TruncateTailFault => |xs| >= 1
    case SpliceOldPrefixFault => !(|xs| >= 2 && xs[0] == 999 && xs[1] == 888)
  }

  /** An injected fault changes exactly these streams, and each kind changes the length in its own way. */
  method InjectFault(xs: seq<u128>, kind: FaultKind) returns (out: seq<u128>)
    ensures out == Injected(xs, kind)
    ensures out != xs <==> Changes(xs, kind)
    ensures Changes(xs, kind) ==>
      match kind
      case DropOneFault => |out| == |xs| - 1
      case TruncateTailFault => |out| == |xs| - 1 && out <= xs
      case DuplicateOneFault => |out| == |xs| + 1 && DropOne(out, 1) == xs
      case SwapAdjacentFault => multiset(out) == multiset(xs)
      case SpliceOldPrefixFault => |xs| >= 2 ==> |out| == |xs| && out[2..] == xs[2..]
      case NoFault => false
  {
    FaultChangesIff(xs, kind);
    match kind {
      case NoFault => out := xs;
      case DropOneFault => out := DropOne(xs, 1);
      case SwapAdjacentFault => out := SwapAdjacent(xs, 1);
      case DuplicateOneFault => out := DuplicateOne(xs, 1);
      case TruncateTailFault => out := TruncateTail(xs, if |xs| == 0 then 0 else |xs| - 1);
      case SpliceOldPrefixFault => out := SpliceOldPrefix(xs, OLD_PREFIX, 2);
    }
  }

  /** What each injected fault does, written out. */
  lemma InjectedEntries(xs: seq<u128>, kind: FaultKind)
    ensures var out := Injected(xs, kind);
      match kind
      case NoFault => out == xs
      case DropOneFault => out == if |xs| >= 2 then [xs[0]] + xs[2..] else xs
      case SwapAdjacentFault => out == if |xs| >= 3 then [xs[0], xs[2], xs[1]] + xs[3..] else xs
      case DuplicateOneFault => out == if |xs| >= 2 then [xs[0], xs[1], xs[1]] + xs[2..] else xs
      case TruncateTailFault => out == if |xs| >= 1 then xs[..|xs| - 1] else []
      case SpliceOldPrefixFault => out == [999, 888] + if |xs| >= 2 then xs[2..] else []
  {
  }

  /** When an injected fault changes the stream at all. */
  lemma FaultChangesIff(xs: seq<u128>, kind: FaultKind)
    ensures Injected(xs, kind) != xs <==> Changes(xs, kind)
  {
    var ys := Injected(xs, kind);
    match kind {
      case SwapAdjacentFault =>
        if |xs| >= 3 { assert ys[1] == xs[2]; }
      case SpliceOldPrefixFault =>
        assert ys[0] == 999 && ys[1] == 888;
        if |xs| >= 2 { assert ys == [999, 888] + xs[2..]; }
      case _ =>
    }
  }

  lemma DropUndoesDuplicate<T>(xs: seq<T>, index: nat)
    ensures DropOne(Duplicated(xs, index), index) == xs
  {
  }

  // ----- what the reports say about injected faults

  /** A truncated tail is missed exactly when the stream minus its last entry fills its chunks. */
  lemma InjectedTruncationReports(cfg: Config, xs: seq<u128>)
    requires cfg.Valid() && xs != []
    ensures FirstBadChunkIndex(Reports(cfg, xs, Injected(xs, TruncateTailFault)))
      == if OffsetIn(|xs| - 1, cfg.c) == 0 then None else Some(ChunkOf(|xs| - 1, cfg.c))
  {
    hide Reports, OffsetIn, ChunkOf, FirstBadChunkIndex;
    TruncationReports(cfg, xs, |xs| - 1);
  }

  /** A dropped or duplicated entry leaves a length report exactly when the shorter stream does not fill its chunks. */
  lemma InjectedLengthReports(cfg: Config, xs: seq<u128>, kind: FaultKind)
    requires cfg.Valid() && |xs| >= 2 && (kind == DropOneFault || kind == DuplicateOneFault)
    ensures NoLengthReport(Reports(cfg, xs, Injected(xs, kind)))
      <==> OffsetIn(if kind == DropOneFault then |xs| - 1 else |xs|, cfg.c) == 0
  {
    hide Reports, OffsetIn, ChunkOf, Injected;
    InjectedLength(xs, kind);
    LengthReportAnywhere(cfg, xs, Injected(xs, kind));
  }

  lemma InjectedLength(xs: seq<u128>, kind: FaultKind)
    requires |xs| >= 2 && (kind == DropOneFault || kind == DuplicateOneFault)
    ensures |Injected(xs, kind)| == if kind == DropOneFault then |xs| - 1 else |xs| + 1
  {
  }

  lemma LengthReportAnywhere(cfg: Config, xs: seq<nat>, ys: seq<nat>)
    requires cfg.Valid() && |xs| != |ys|
    ensures NoLengthReport(Reports(cfg, xs, ys)) <==> OffsetIn(Min(|xs|, |ys|), cfg.c) == 0
  {
    hide Reports, OffsetIn, ChunkOf;
    var r, m := Reports(cfg, xs, ys), Min(|xs|, |ys|);
    LengthReports(cfg, xs, ys);
    if OffsetIn(m, cfg.c) != 0 {
      assert r[ChunkOf(m, cfg.c)].status == MetadataMismatch(Length);
    }
  }
}
