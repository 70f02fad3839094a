/**
 * The metrics accumulator: 64-bit words, square exponents, and the scans that
 * compare two logs and locate their differences.
 */
module Metrics {
  import opened Modular
  import opened Accumulator
  import opened Machine
  import opened Edits
  import opened Wrappers

  /** Sum of two residues, computed without leaving 64 bits for any 64-bit modulus. */
  function AddMod64(a: u64, b: u64, p: u64): (r: u64)
    requires a < p && b < p
    ensures r < p && r == (a + b) % p
  {
    var t: u64 := p - b;
    assert (a + b) % p == if a >= t then a - t else a + b by {
      DivModUnique(a + b, if a >= t then 1 else 0, if a >= t then a - t else a + b, p);
    }
    if a >= t then a - t else a + b
  }

  /** Product modulo `p`; the intermediate product fits 128 bits. */
  function MulMod64(a: u64, b: u64, p: u64): (r: u64)
    requires p > 0
    ensures r < p && r == (a * b) % p
  {
    ProductFits(a, b);
    var product: u128 := a * b;
    product % p
  }

  lemma MultiplyAdd64(acc: u64, x: u64, w: u64, p: u64)
    requires acc < p
    ensures AddMod64(acc, MulMod64(x, w, p), p) == (acc + x * w) % p
  {
    CongSelf(x * w, p);
    CongAdd(acc, acc, (x * w) % p, x * w, p);
  }

  lemma ProductFits(a: u64, b: u64)
    ensures 0 <= a * b < TWO128
  {
    MulMono(a, 0, b);
    MulMono(a, b, TWO64);
  }

  /** Square-and-multiply on 64-bit words. */
  method PowMod64(base: u64, exp: u64, p: u64) returns (r: u64)
    requires p > 0
    ensures r == Pow(base, exp) % p
  {
    r := 1 % p;
    var b: u64 := base % p;
    var e := exp;
    CongSelf(base, p);
    CongPow(b, base, exp, p);
    CongSelf(1, p);
    CongScale(r, 1, Pow(b, e), p);
    assert 1 * Pow(b, e) == Pow(b, e);
    while e > 0
      invariant r < p
      invariant Cong(r * Pow(b, e), Pow(base, exp), p)
    {
      PowStep(r, b, e, p, if e % 2 == 1 then MulMod64(r, b, p) else r, MulMod64(b, b, p));
      if e % 2 == 1 {
        r := MulMod64(r, b, p);
      }
      b := MulMod64(b, b, p);
      e := e / 2;
    }
    SmallMod(r, p);
  }

  /** Positions below this bound have a square that fits 64 bits; beyond it the code stops with a panic. */
  const INDEX_LIMIT := 0x1_0000_0000

  datatype WindowLocalization =
    | NoWindow
    | Window(start: nat, end: nat, originalState: u64, changedState: u64,
             shiftedOriginal: u64, shiftedChanged: u64)

  datatype PrefixDivergence =
    | NoDivergence
    | Divergence(firstPrefixIndex: nat, originalState: u64, changedState: u64)

  class MetricSentry {
    var state: u64
    const q: u64
    const p: u64

    ghost predicate Valid() {
      p > 1 && q >= 1
    }

    constructor (q: u64, p: u64)
      requires p > 1 && q >= 1
      ensures Valid() && state == 0 && this.q == q && this.p == p
    {
      state, this.q, this.p := 0, q, p;
    }

    method WeightForIndex(i: u64) returns (w: u64)
      requires Valid() && i < INDEX_LIMIT
      ensures w < p && w == Pow(q, Square(i)) % p
    {
      MulMono(i, i, INDEX_LIMIT - 1);
      MulMono(INDEX_LIMIT - 1, i, INDEX_LIMIT - 1);
      w := PowMod64(q, i * i, p);
    }

    /** One accumulation step, shared by every loop below. */
    method Accumulate(acc: u64, entry: u64, i: u64) returns (r: u64)
      requires Valid() && acc < p && i < INDEX_LIMIT
      ensures r < p && r == (acc + entry * (Pow(q, Square(i)) % p)) % p
    {
      var li: u64 := entry % p;
      var w := WeightForIndex(i);
      var term := MulMod64(li, w, p);
      r := AddMod64(acc, term, p);
      r := r % p;
      ghost var weight := Pow(q, Square(i)) % p;
      CongSelf(entry, p);
      CongScale(li, entry, weight, p);
      CongSelf(entry * weight, p);
      CongAdd(acc, acc, term, entry * weight, p);
      SmallMod((acc + term) % p, p);
    }

    method IngestTelemetry(logs: seq<u64>)
      requires Valid() && |logs| <= INDEX_LIMIT
      modifies this
      ensures state == Digest(Square, logs, q, p, 0)
    {
      state := 0;
      for i := 0 to |logs|
        invariant state < p && state == Digest(Square, logs[..i], q, p, 0)
      {
        state := Accumulate(state, logs[i], i);
        assert logs[..i + 1][..i] == logs[..i];
      }
      assert logs[..|logs|] == logs;
    }

    method StateForLogs(logs: seq<u64>) returns (r: u64)
      requires Valid() && |logs| <= INDEX_LIMIT
      ensures r == Digest(Square, logs, q, p, 0) && r < p
    {
      var tmp := new MetricSentry(q, p);
      tmp.IngestTelemetry(logs);
      r := tmp.state;
      DigestIsWeighted(Square, logs, q, p, 0);
    }

    method PrefixStates(logs: seq<u64>) returns (states: seq<u64>)
      requires Valid() && |logs| <= INDEX_LIMIT
      ensures |states| == |logs|
      ensures forall k :: 0 <= k < |logs| ==> states[k] == Digest(Square, logs[..k + 1], q, p, 0)
    {
      states := [];
      var s: u64 := 0;
      for i := 0 to |logs|
        invariant s < p && s == Digest(Square, logs[..i], q, p, 0)
        invariant |states| == i
        invariant forall k :: 0 <= k < i ==> states[k] == Digest(Square, logs[..k + 1], q, p, 0)
      {
        s := Accumulate(s, logs[i], i);
        assert logs[..i + 1][..i] == logs[..i];
        states := states + [s];
      }
    }

    method ShiftedStateForLogs(logs: seq<u64>, offset: u64) returns (s: u64)
      requires Valid() && offset + |logs| <= INDEX_LIMIT
      ensures s == Digest(Square, logs, q, p, offset)
    {
      s := 0;
      for j := 0 to |logs|
        invariant s < p && s == Digest(Square, logs[..j], q, p, offset)
      {
        s := Accumulate(s, logs[j], offset + j);
        assert logs[..j + 1][..j] == logs[..j];
      }
      assert logs[..|logs|] == logs;
    }

    /** Splitting the log in the middle and composing the two states always gives the direct state. */
    method CompositionHolds(logs: seq<u64>) returns (r: Option<(u64, u64, u64, u64, bool)>)
      requires Valid() && |logs| <= INDEX_LIMIT
      ensures r.None? <==> |logs| < 2
      ensures r.Some? ==>
        var mid := |logs| / 2;
        && r.value.0 == Digest(Square, logs[..mid], q, p, 0)
        && r.value.1 == Digest(Square, logs[mid..], q, p, mid)
        && r.value.2 == r.value.3 == Digest(Square, logs, q, p, 0)
        && r.value.4
    {
      if |logs| < 2 {
        return None;
      }
      var mid := |logs| / 2;
      var a, b := logs[..mid], logs[mid..];
      var stateA := StateForLogs(a);
      var shiftedB := ShiftedStateForLogs(b, mid);
      var composed: u64 := (stateA + shiftedB) % p;
      var direct := StateForLogs(logs);
      assert a + b == logs && 0 + |a| == mid;
      Composition(Square, a, b, q, p, 0);
      r := Some((stateA, shiftedB, composed, direct, composed == direct));
    }

    /**
     * First prefix at which the states part. With a base invertible modulo `p`, that
     * is the first entry at which the logs differ modulo `p`, and no parting means
     * they agree everywhere.
     */
    method FindPrefixDivergence(logs1: seq<u64>, logs2: seq<u64>) returns (r: PrefixDivergence)
      requires Valid() && |logs1| == |logs2| <= INDEX_LIMIT
      ensures r.Divergence? ==>
        && r.firstPrefixIndex < |logs1|
        && r.originalState == Digest(Square, logs1[..r.firstPrefixIndex + 1], q, p, 0)
        && r.changedState == Digest(Square, logs2[..r.firstPrefixIndex + 1], q, p, 0)
        && r.originalState != r.changedState
      ensures forall k :: 0 <= k < (if r.Divergence? then r.firstPrefixIndex else |logs1|) ==>
        SamePrefixState(Square, logs1, logs2, k, q, p)
      ensures Invertible(q, p) ==>
        match r
        case NoDivergence => AgreeMod(logs1, logs2, p, 0, |logs1|)
        case Divergence(k, _, _) => AgreeMod(logs1, logs2, p, 0, k) && !Cong(logs1[k], logs2[k], p)
    {
      var p1 := PrefixStates(logs1);
      var p2 := PrefixStates(logs2);
      for i := 0 to |p1|
        invariant forall k :: 0 <= k < i ==> SamePrefixState(Square, logs1, logs2, k, q, p)
        invariant Invertible(q, p) ==> AgreeMod(logs1, logs2, p, 0, i)
      {
        if Invertible(q, p) {
          NextPrefix(Square, logs1, logs2, i, q, p);
        }
        if p1[i] != p2[i] {
          return Divergence(i, p1[i], p2[i]);
        }
      }
      return NoDivergence;
    }

    /** Window states of the first and last raw mismatch; the shifted states differ exactly when the whole states do. */
    method LocalizeWindow(logs1: seq<u64>, logs2: seq<u64>) returns (r: WindowLocalization)
      requires Valid() && |logs1| == |logs2| <= INDEX_LIMIT
      ensures r.NoWindow? <==> logs1 == logs2
      ensures r.Window? ==>
        && IsMismatchWindow(logs1, logs2, r.start, r.end)
        && r.originalState == Digest(Square, logs1[r.start..r.end + 1], q, p, 0)
        && r.changedState == Digest(Square, logs2[r.start..r.end + 1], q, p, 0)
        && r.shiftedOriginal == Digest(Square, logs1[r.start..r.end + 1], q, p, r.start)
        && r.shiftedChanged == Digest(Square, logs2[r.start..r.end + 1], q, p, r.start)
        && Cong(r.shiftedOriginal - r.shiftedChanged,
                Digest(Square, logs1, q, p, 0) - Digest(Square, logs2, q, p, 0), p)
        && (r.shiftedOriginal == r.shiftedChanged
            <==> Digest(Square, logs1, q, p, 0) == Digest(Square, logs2, q, p, 0))
    {
      hide Residue, Digest;
      var window := MismatchWindow(logs1, logs2);
      match window {
        case None =>
          r := NoWindow;
        case Some((start, end)) =>
          var original, changed := logs1[start..end + 1], logs2[start..end + 1];
          var state1 := StateForLogs(original);
          var state2 := StateForLogs(changed);
          var shifted1 := ShiftedStateForLogs(original, start);
          var shifted2 := ShiftedStateForLogs(changed, start);
          WindowSufficient(Square, logs1, logs2, start, end + 1, q, p, 0);
          r := Window(start, end, state1, state2, shifted1, shifted2);
      }
    }
  }

  /**
   * Prefix states separate the first differing entry: equal so far, they stay equal
   * exactly when the next entry agrees.
   */
  lemma NextPrefix(e: nat -> nat, w: seq<int>, w2: seq<int>, k: nat, q: int, p: int)
    requires p > 0 && Invertible(q, p) && k < |w| == |w2| && AgreeMod(w, w2, p, 0, k)
    ensures Digest(e, w[..k + 1], q, p, 0) == Digest(e, w2[..k + 1], q, p, 0) <==> Cong(w[k], w2[k], p)
  {
    hide Residue, Digest;
    var u, v := w[..k + 1], w2[..k + 1];
    assert AgreeMod(u, v, p, 0, k) by {
      forall i | 0 <= i < k
        ensures Cong(u[i], v[i], p)
      {
        assert Cong(w[i], w2[i], p);
      }
    }
    SingleEdit(e, u, v, k, q, p, 0);
  }

  ghost predicate SamePrefixState(e: nat -> nat, w: seq<int>, w2: seq<int>, k: nat, q: int, p: int)
    requires p > 0 && k < |w| == |w2|
  {
    Digest(e, w[..k + 1], q, p, 0) == Digest(e, w2[..k + 1], q, p, 0)
  }

  /** The sequence of prefix states determines the log modulo `p`. */
  lemma {:induction false} PrefixStatesDetermineLog(e: nat -> nat, w: seq<int>, w2: seq<int>, n: nat, q: int, p: int)
    requires p > 0 && Invertible(q, p) && n <= |w| == |w2|
    ensures (forall k :: 0 <= k < n ==> SamePrefixState(e, w, w2, k, q, p)) <==> AgreeMod(w, w2, p, 0, n)
  {
    hide Residue, Digest;
    if n != 0 {
      PrefixStatesDetermineLog(e, w, w2, n - 1, q, p);
      assert AgreeMod(w, w2, p, 0, n) <==> AgreeMod(w, w2, p, 0, n - 1) && Cong(w[n - 1], w2[n - 1], p);
      if AgreeMod(w, w2, p, 0, n - 1) {
        NextPrefix(e, w, w2, n - 1, q, p);
        assert SamePrefixState(e, w, w2, n - 1, q, p) <==> Cong(w[n - 1], w2[n - 1], p);
      }
    }
  }

  // ----- raw scans

  /** The logs differ at both ends of the window and nowhere outside it. */
  ghost predicate IsMismatchWindow(w: seq<u64>, w2: seq<u64>, start: nat, end: nat)
    requires |w| == |w2|
  {
    && start <= end < |w|
    && w[start] != w2[start] && w[end] != w2[end]
    && forall i :: 0 <= i < start || end < i < |w| ==> w[i] == w2[i]
  }

  method FirstMismatch(logs1: seq<u64>, logs2: seq<u64>) returns (r: Option<(nat, u64, u64)>)
    requires |logs1| == |logs2|
    ensures r.None? <==> logs1 == logs2
    ensures r.Some? ==> var (i, x, y) := r.value;
      i < |logs1| && x == logs1[i] != logs2[i] == y && logs1[..i] == logs2[..i]
  {
    for i := 0 to |logs1|
      invariant logs1[..i] == logs2[..i]
    {
      if logs1[i] != logs2[i] {
        return Some((i, logs1[i], logs2[i]));
      }
      assert logs1[..i + 1] == logs1[..i] + [logs1[i]] && logs2[..i + 1] == logs2[..i] + [logs2[i]];
    }
    assert logs1 == logs1[..|logs1|] && logs2 == logs2[..|logs1|];
    return None;
  }

  method AllMismatchIndices(logs1: seq<u64>, logs2: seq<u64>) returns (out: seq<nat>)
    requires |logs1| == |logs2|
    ensures forall j, k :: 0 <= j < k < |out| ==> out[j] < out[k]
    ensures forall i :: i in out <==> 0 <= i < |logs1| && logs1[i] != logs2[i]
  {
    out := [];
    for i := 0 to |logs1|
      invariant forall k :: 0 <= k < |out| ==> out[k] < i
      invariant forall j, k :: 0 <= j < k < |out| ==> out[j] < out[k]
      invariant forall j :: j in out <==> 0 <= j < i && logs1[j] != logs2[j]
    {
      if logs1[i] != logs2[i] {
        out := out + [i];
      }
    }
  }

  /** Everything there is to say about raw mismatches. */
  datatype MismatchInfo = MismatchInfo(
    mismatchExists: bool, firstIndex: Option<nat>, lastIndex: Option<nat>,
    mismatchCount: nat, mismatchIndices: seq<nat>)

  /** The first and the last mismatch are the ends of the window, and the count is that of the differing indices. */
  method MismatchInfoOf(logs1: seq<u64>, logs2: seq<u64>) returns (r: MismatchInfo)
    requires |logs1| == |logs2|
    ensures r.mismatchExists <==> logs1 != logs2
    ensures r.firstIndex.Some? <==> r.mismatchExists
    ensures r.lastIndex.Some? <==> r.mismatchExists
    ensures r.mismatchExists ==> IsMismatchWindow(logs1, logs2, r.firstIndex.value, r.lastIndex.value)
    ensures r.mismatchCount == |set i: nat | i < |logs1| && logs1[i] != logs2[i]|
    ensures forall i :: i in r.mismatchIndices <==> 0 <= i < |logs1| && logs1[i] != logs2[i]
  {
    var out := AllMismatchIndices(logs1, logs2);
    var n := |out|;
    IncreasingCount(out, set i: nat | i < |logs1| && logs1[i] != logs2[i]);
    assert n != 0 ==> out[0] in out && out[n - 1] in out && forall i :: i in out ==> out[0] <= i <= out[n - 1];
    assert n == 0 ==> forall i :: 0 <= i < |logs1| ==> i !in out;
    r := MismatchInfo(n != 0, if n == 0 then None else Some(out[0]), if n == 0 then None else Some(out[n - 1]), n, out);
  }

  lemma {:induction false} IncreasingCount(out: seq<nat>, s: set<nat>)
    requires forall j, k :: 0 <= j < k < |out| ==> out[j] < out[k]
    requires forall i :: i in out <==> i in s
    ensures |out| == |s|
  {
    if out == [] {
      assert s == {};
    } else {
      var rest, last := out[..|out| - 1], out[|out| - 1];
      assert out == rest + [last] && last !in rest;
      IncreasingCount(rest, s - {last});
    }
  }

  /** Two logs have one mismatch window at most. */
  lemma WindowUnique(w: seq<u64>, w2: seq<u64>, start: nat, end: nat, start2: nat, end2: nat)
    requires |w| == |w2| && IsMismatchWindow(w, w2, start, end) && IsMismatchWindow(w, w2, start2, end2)
    ensures start == start2 && end == end2
  {
  }

  method MismatchWindow(logs1: seq<u64>, logs2: seq<u64>) returns (r: Option<(nat, nat)>)
    requires |logs1| == |logs2|
    ensures r.None? <==> logs1 == logs2
    ensures r.Some? ==> IsMismatchWindow(logs1, logs2, r.value.0, r.value.1)
  {
    var found := FirstMismatch(logs1, logs2);
    if found.None? {
      return None;
    }
    var first := found.value.0;
    var last := first;
    var i := |logs1|;
    while i > first
      invariant first <= i <= |logs1| && last == first
      invariant forall j :: i <= j < |logs1| ==> logs1[j] == logs2[j]
    {
      i := i - 1;
      if logs1[i] != logs2[i] {
        last := i;
        break;
      }
    }
    assert forall j :: 0 <= j < first ==> logs1[j] == logs1[..first][j] == logs2[..first][j] == logs2[j];
    return Some((first, last));
  }
}
