# K-Sentry / TimeFence: the accumulator and what it detects

K-Sentry folds a stream of numbers into the digest `H(w) = Σ x_i · q^e(i) mod p`, with triangular
exponents `e(i) = i(i+1)/2` in the core crate and squares `e(i) = i²` in the metrics crate. Around the
digest sit a constant-time streaming updater, a rolling hash (linear exponents) kept for comparison,
chunked checkpoints with a verifier, scans that locate the first difference of two logs, and a Merkle
baseline. This project models those parts and proves what the digests and reports do and do not reveal.

## How it is laid out

| file | content |
|---|---|
| `Modular.dfy` | residues, congruence, powers, primality by divisors, Euclid's lemma, invertible residues |
| `Polynomial.dfy` | factor theorem and root bound over a prime |
| `Accumulator.dfy` | the digest for any exponent schedule, the unreduced sum behind it, composition, the difference polynomial, windows |
| `Edits.dfy` | exact effect of one edit, two edits, a swap, for any modulus |
| `Collision.dfy` | how many bases make two traces collide |
| `Injectivity.dfy` | traces of small entries, which never collide; cuts, deletions and insertions |
| `Rebase.dfy` | when one scalar moves a digest to another position |
| `Machine.dfy` | 64-bit and 128-bit words, wrapping modular arithmetic, square-and-multiply |
| `KSentry.dfy`, `Rolling.dfy`, `AntiRebase.dfy` | the streaming accumulators, their slow forms, the anti-rebase demonstration |
| `VerifiedSentry.dfy`, `Metrics.dfy` | the two batch accumulators and the log comparisons |
| `Slicing.dfy`, `Checkpoint.dfy`, `Verifier.dfy`, `Chunker.dfy` | chunks, checkpoints, reports |
| `Localisation.dfy`, `Fault.dfy` | what reports say about edits, swaps, arbitrary tampering, changes of length, injected faults |
| `Merkle.dfy` | level reduction with odd promotion, the collisions equal roots give away |
| `Binding.dfy` | one hash for chunks and pairs: which streams, of which lengths, share a root |

`Accumulator.Digest` is the recursive specification, reduced at every entry (`ramanujan_spec` at offset
zero, `ramanujan_shifted_spec` otherwise); `Accumulator.Weighted` is the same sum never reduced;
`Accumulator.DiffPolySum` is `diff_poly_sum_mod`; `Collision.CountBad` is `count_bad_q_up_to`. Theorems about
"any schedule" take the exponents as a function `e: nat -> nat`. `hide` statements only keep definitions out
of proofs that do not need them.

The 128-bit code multiplies two residues before reducing. The model wraps that product at 128 bits, as the
release profile does. `Machine.Exact(p)` is `p <= 2^64` or `p` divides `2^128`; `ModMulExactIff` shows that these
are precisely the moduli for which wrapping never shows in one product, and `StreamingRightIff` that they are precisely
those for which streamed digests are right. For every modulus the contracts tie the fields to `Fold` and `SlowDigest`,
the wrapped computations as functions of the stream.

## Where the source is wrong or weaker than it says

- The trusted root bound (`lemma_nonzero_poly_has_few_roots`) asks neither for a prime modulus nor for a
  difference that survives reduction. `Collision.TrustedBoundFails` gives a one-entry trace that breaks it for every
  modulus; `TrustedBoundExact` says for which pairs it holds over a prime; `CompositeBreaksBound` breaks it for every
  composite modulus, and `BoundIffPrime` makes primality the exact condition.
- `mod_mul` accepts any modulus; its product leaves 128 bits exactly when `p > 2^64`, and the streamed and the slow
  digests are right for all streams exactly when `Exact(p)` holds (`KSentry.StreamingRightIff`,
  `Rolling.StreamingRightIff`, `Machine.SlowDigestRightIff`).
- Zipping chunk lists hides a tail cut on a chunk boundary: `Localisation.TruncationReports`,
  `Fault.InjectedTruncationReports`.
- The Merkle baseline hashes chunks and pairs with the same function and no prefix, so a chunk can hold a pair of
  hashes: every stream longer than one chunk shares its root with a four-event stream (two 32-byte hashes in 16-byte
  events), by `Binding.LongStreamsAreFolded`. Up to a collision of the hash, streams of up to `L` events are bound
  exactly when they fit one chunk (`Binding.BindsUpToIff`), and two lengths are bound exactly when no subtree that ends
  the tree of the longer one can be folded to give the shorter (`Binding.LengthsBindIff`). The hash is arbitrary, so both
  name the one way out: that every stream of the longer lengths hashes a collision by itself.
- Over a composite modulus some bases hide single edits: `Edits.SingleEditsSeenIff` gives invertibility of the base as
  the exact condition, `Modular.InvertibleIffCoprime` as one on common divisors.
- Shifted positions wrap at 64 bits in the release profile; `KSentry.KSentryShiftedSpec` meets the shifted specification
  while `n + shift <= 2^64` and otherwise computes the digest of the wrapped positions.

## Model

| member | source | states |
|---|---|---|
| Modular.DomainIffPrime | proofs/finaltest_timefence_core_verified.rs:1760-1775 | the field assumption on the modulus holds exactly for primes, by divisors |
| Modular.Euclid | proofs/finaltest_timefence_core_verified.rs:2232-2301 | a product vanishes modulo a prime exactly when a factor does, with no assumption on the modulus beyond its divisors |
| Modular.PowNonzero | proofs/finaltest_timefence_core_verified.rs:2302-2353 | a power of a base not divisible by the prime is not divisible by it |
| Polynomial.FactorTheorem | proofs/finaltest_timefence_core_verified.rs:1695-1708 | dividing by X - r leaves the value at r |
| Polynomial.RootBound | proofs/finaltest_timefence_core_verified.rs:1695-1708 | a polynomial with a leading coefficient nonzero modulo a prime has at most degree many roots; proved, where the source trusts it |
| Accumulator.DigestIsWeighted | proofs/finaltest_timefence_core_verified.rs:20-40 | reducing at every entry, weights included, gives the residue of the unreduced sum, for any schedule and offset |
| Accumulator.Composition | proofs/finaltest_timefence_core_verified.rs:960-1113 | the digest of a concatenation is the sum of the first digest and the second one at its offset, for any schedule and any starting offset |
| Accumulator.DigestCong | timefence-core/src/ksentry.rs:27-37 | reducing the base and the entries first never changes a digest |
| Accumulator.DigestDiff | proofs/finaltest_timefence_core_verified.rs:1594-1624 | digests are equal exactly when the sum over the difference vanishes modulo p |
| Accumulator.DiffPolyIsDigestDifference | proofs/finaltest_timefence_core_verified.rs:1850-1883 | the residue of the digest difference is the explicit difference polynomial, for all equal-length traces |
| Accumulator.WindowSufficient | ksentry-metrics/src/main.rs:210-237 | traces agreeing outside a window differ in digest by what the shifted windows differ by, and collide exactly when those do |
| Edits.SingleEdit | proofs/finaltest_timefence_core_verified.rs:2419-2479 | one edited position, under an invertible base or with exponent zero, collides exactly when the edit vanishes modulo p, in either direction of change and for any modulus |
| Edits.SingleEditsSeenIff | proofs/finaltest_timefence_core_verified.rs:2419-2479 | all single edits are seen exactly when the base is invertible modulo p |
| Modular.PrimeInvertible | proofs/finaltest_timefence_core_verified.rs:2287-2301 | modulo a prime every base that is not a multiple of it is invertible |
| Modular.AnnihilatorOrInverse | proofs/finaltest_timefence_core_verified.rs:1760-1768 | a base without an inverse is annihilated by some nonzero residue, the edit it then hides |
| Modular.InvertibleIffCoprime | proofs/finaltest_timefence_core_verified.rs:1760-1768 | a base is invertible exactly when no divisor of the modulus above one divides it, which a caller can check |
| Edits.TwoEdits | proofs/finaltest_timefence_core_verified.rs:1975-1998 | two edited positions under an invertible base collide exactly when d_a + d_b q^(e(b)-e(a)) vanishes |
| Edits.Swap | ksentry-metrics/src/main.rs:261-273 | under an invertible base and for any modulus and schedule, swapping two positions goes unnoticed exactly when the difference of the entries times one minus the gap power of the base vanishes modulo p |
| Edits.SwapOverPrime | ksentry-metrics/src/main.rs:261-273 | over a prime that is exactly when the entries agree or the gap power of the base is one |
| Edits.AdjacentSwap | timefence-core/src/ksentry.rs:166-178 | under an invertible base and for any modulus, swapping neighbours i, i+1 goes unnoticed exactly when (w_i - w_(i+1)) (1 - q^(i+1)) vanishes modulo p |
| Edits.AdjacentSwapOverPrime | timefence-core/src/ksentry.rs:166-178 | over a prime that is exactly when the entries agree or q^(i+1) is one |
| Collision.CountIsCardinality | proofs/finaltest_timefence_core_verified.rs:1384-1411 | the recursive count of bad bases is the size of the set of bad bases |
| Collision.WeightedIsEval | proofs/finaltest_timefence_core_verified.rs:1346-1360 | the sparse sum is the lowest power of the base times an explicit dense polynomial |
| Collision.NonzeroBadBound | proofs/finaltest_timefence_core_verified.rs:2000-2014 | traces differing only between positions a and b collide for at most e(b)-e(a) nonzero bases |
| Collision.BadBound | proofs/finaltest_timefence_core_verified.rs:1695-1730 | counting base zero too, at most e(b) bases are bad |
| Collision.TamperBound | proofs/finaltest_timefence_core_verified.rs:1710-1730 | traces that differ modulo a prime collide for at most e(n-1) bases, for any increasing schedule |
| Collision.TriangularBound | proofs/finaltest_timefence_core_verified.rs:1318-1320 | the n(n-1)/2 bound for triangular exponents |
| Collision.SquareBound | verus-x86-win/finaltest1.rs:1666-1701 | the (n-1)² bound for square exponents, the numerator the metrics crate prints |
| Collision.TrustedBoundFails | proofs/finaltest_timefence_core_verified.rs:1695-1708 | for every modulus p and every schedule starting at 0 the distinct traces [p] and [0] collide for all p bases against a bound of zero |
| Collision.TrustedBoundExact | verus-x86-win/finaltest1.rs:1666-1701 | over a prime, for any increasing schedule, the bound holds exactly when the traces differ modulo p or the bound is at least p |
| Collision.BoundIsDegree | proofs/finaltest_timefence_core_verified.rs:1318-1320 | for triangular and square exponents that bound is n(n-1)/2 and (n-1)² |
| Collision.CompositeBreaksBound | proofs/finaltest_timefence_core_verified.rs:1695-1708 | every composite modulus has length-two traces differing modulo p with two bad bases |
| Collision.BoundIffPrime | proofs/finaltest_timefence_core_verified.rs:1710-1730 | the bound holds for all traces differing modulo p exactly when p is prime, for schedules starting 0, 1 |
| Injectivity.NumeralUnique | proofs/finaltest_timefence_core_verified.rs:54-64 | entries below the base are digits: equal unreduced sums of equal length mean equal traces |
| Injectivity.CollideIffZeroPadded | proofs/finaltest_timefence_core_verified.rs:1226-1287 | below the modulus, traces of any two lengths collide exactly when the longer is the shorter followed by zeros |
| Injectivity.BoundedCollisionFree | proofs/finaltest_timefence_core_verified.rs:1290-1308 | entries up to B < q and a largest numeral below p: equal digests mean equal traces, for every length |
| Injectivity.ShortNumerals | proofs/finaltest_timefence_core_verified.rs:54-64 | for two and three entries the numerals and the largest numeral are the encodings a + b q and a + b q + c q^3 |
| Injectivity.TruncationDetected | proofs/finaltest_timefence_core_verified.rs:1268-1287 | for entries below the base and a trace whose own numeral is below p, a cut changes the digest exactly when it removes a nonzero entry |
| Injectivity.DeletionDetected | ksentry-metrics/src/main.rs:291-303 | under the same bound, deleting entry k goes unseen exactly when it and everything after it is zero |
| Injectivity.InsertionDetected | ksentry-metrics/src/main.rs:275-289 | under the same bound, inserting x at k goes unseen exactly when x and everything from k on is zero |
| Rebase.RebasesIffMovesWeights | timefence-core/src/antirebase.rs:40-64 | a scalar rebases every chunk of length n exactly when it moves each of the n weights |
| Rebase.LinearAlwaysRebases | proofs/finaltest_timefence_core_verified.rs:3490-3503 | linear exponents are rebased by q^s for every length, base and modulus |
| Rebase.TriangularRebaseExact | proofs/finaltest_timefence_core_verified.rs:3597-3626 | under an invertible base, for any modulus, a scalar exists for chunks of length n exactly when n < 2 or q^s is one, and in the latter case q^T(s) serves every length |
| Rebase.RebasableIffAffine | proofs/finaltest_timefence_core_verified.rs:2914-3039 | for a finite list of at least two exponents, before reduction, every shift within the list can be done by one rational scalar exactly when the exponents are affine |
| Machine.ModMul | timefence-core/src/ksentry.rs:107-109 | the wrapped product is a residue, and the right one for exact moduli |
| Machine.ModAdd | timefence-core/src/ksentry.rs:111-113 | the wrapped sum is a residue, and the right one up to 2^127 |
| Machine.ModMulExactIff | timefence-core/src/ksentry.rs:107-109 | the product is right for all operands exactly when p <= 2^64 or p divides 2^128 |
| Machine.ModAddExactIff | timefence-core/src/ksentry.rs:111-113 | the sum is right for all operands exactly when p <= 2^127 |
| Machine.ProductFitsIff | timefence-core/src/ksentry.rs:107-109 | no intermediate product leaves 128 bits exactly when p <= 2^64 |
| Machine.ModPow | timefence-core/src/ksentry.rs:90-105 | square-and-multiply returns base^exp mod p for every exponent and exact modulus, and the wrapped power for every modulus |
| Machine.WordPowExact | timefence-core/src/ksentry.rs:90-105 | the wrapped power of a residue is its true power for exact moduli |
| Machine.SlowDigestExact | timefence-core/src/ksentry.rs:117-127 | with weights computed afresh, the wrapped digest is the specification for exact moduli, any schedule and any offset |
| Machine.SlowDigestRightIff | timefence-core/src/ksentry.rs:117-127 | the slow digest is right for every stream and base exactly for the exact moduli |
| Machine.PowStep | timefence-core/src/ksentry.rs:96-102 | one round keeps the residue of result times base^exponent |
| KSentry.TriangularExp | timefence-core/src/ksentry.rs:85-88 | the exponent of any 64-bit position is computed without its product leaving 128 bits |
| KSentry.KSentry.constructor | timefence-core/src/ksentry.rs:22-34 | a fresh accumulator holds the fold of the empty stream |
| KSentry.KSentry.Update | timefence-core/src/ksentry.rs:36-49 | one update carries acc, weight and step from the fold of a stream to the fold of the stream with one more entry, for every modulus |
| KSentry.StepExact | proofs/finaltest_timefence_core_verified.rs:3289-3337 | for exact moduli one reduced update takes the residues of the specification to those for one more entry |
| KSentry.FoldTracks | proofs/finaltest_timefence_core_verified.rs:3135-3153 | for exact moduli the fold of any stream holds the digest, q^T(n) and q^(n+1), reduced |
| KSentry.StreamingRightIff | timefence-core/src/ksentry.rs:1-9 | the streamed digest is the specification for every stream and base exactly for the exact moduli |
| KSentry.KSentryFast | timefence-core/src/ksentry.rs:130-138 | the three fields are the fold of the stream for every modulus, and for exact moduli the digest, q^T(n) and q^(n+1), reduced |
| KSentry.KSentrySpec | timefence-core/src/ksentry.rs:117-127 | the slow loop computes the wrapped digest for every modulus and the specification for exact ones |
| KSentry.KSentryShiftedSpec | timefence-core/src/antirebase.rs:17-28 | for every shift, positions wrapping at 64 bits, the slow loop computes the wrapped digest for every modulus and the digest of the wrapped positions for exact ones; while positions stay within 64 bits that is the shifted specification |
| KSentry.WrapRestarts | timefence-core/src/antirebase.rs:20-23 | a stream whose positions pass 2^64 goes on as if it started again at position zero |
| KSentry.FastMatchesSpec | timefence-core/src/ksentry.rs:153-163 | for exact moduli fast and slow digests are equal for every stream, not only the one in the test |
| Rolling.RollingHash.constructor | timefence-core/src/rolling.rs:15-26 | a fresh rolling hash holds the fold of the empty stream |
| Rolling.RollingHash.Update | timefence-core/src/rolling.rs:28-33 | one update carries acc and weight to the fold of the stream with one more entry, for every modulus |
| Rolling.FoldTracks | timefence-core/src/rolling.rs:28-33 | for exact moduli the fold of any stream holds the digest and q^n, reduced |
| Rolling.StreamingRightIff | timefence-core/src/rolling.rs:44-52 | the streamed rolling digest is right for every stream and base exactly for the exact moduli |
| Rolling.RollingHashOf | timefence-core/src/rolling.rs:44-52 | the fields are the fold of the stream for every modulus, and the sum of x_i q^i modulo p for exact ones |
| Rolling.RollingShiftedSpec | timefence-core/src/rolling.rs:54-64 | the slow loop computes the wrapped digest with exponents i + shift for every modulus, and the shifted specification for exact moduli |
| Rolling.RollingRebaseDigest | timefence-core/src/rolling.rs:66-69 | for exact moduli the digest is multiplied by q^shift modulo p |
| Rolling.RollingRebase | proofs/finaltest_timefence_core_verified.rs:3418-3488 | digest times q^s is the shifted digest, on residues, for every chunk, base and shift |
| Rolling.RebaseMeetsShiftedSpec | timefence-core/src/rolling.rs:104-117 | for exact moduli streaming, rebasing and recomputing at the shift meet for every chunk and shift |
| AntiRebase.FakeScalarRebase | timefence-core/src/antirebase.rs:35-38 | for exact moduli the digest is multiplied by q^scalar_exp modulo p |
| AntiRebase.DemoNotOneScalarRebase | timefence-core/src/antirebase.rs:40-64 | for exact moduli the demonstration succeeds exactly when q^2 and q^3 differ; over a prime, for every base but zero and one |
| VerifiedSentry.TriangularSentry.CalculateWeight | proofs/finaltest_timefence_core_verified.rs:862-925 | the linear loop gives q^T(i) mod p up to index 2^32 - 1, every product staying in its word |
| VerifiedSentry.TriangularSentry.IngestTelemetryK | proofs/finaltest_timefence_core_verified.rs:746-860 | the batch loop reaches the specification for up to k < 2^32 entries |
| VerifiedSentry.RunFromEmptyK | proofs/finaltest_timefence_core_verified.rs:932-955 | a fresh run returns the specification |
| Metrics.AddMod64 | ksentry-metrics/src/main.rs:51-54 | the branch computes (a + b) mod p without leaving 64 bits for any 64-bit modulus |
| Metrics.MulMod64 | ksentry-metrics/src/main.rs:57-59 | the product through 128 bits is (a b) mod p |
| Metrics.PowMod64 | ksentry-metrics/src/main.rs:62-74 | square-and-multiply on 64-bit words returns base^exp mod p |
| Metrics.MetricSentry.WeightForIndex | ksentry-metrics/src/main.rs:77-83 | the weight is q^(i²) mod p up to index 2^32 - 1 |
| Metrics.MetricSentry.IngestTelemetry | ksentry-metrics/src/main.rs:85-94 | ingesting replaces the state by the square-exponent digest of the logs |
| Metrics.MetricSentry.StateForLogs | ksentry-metrics/src/main.rs:96-100 | the state of a clone, leaving the accumulator as it was |
| Metrics.MetricSentry.PrefixStates | ksentry-metrics/src/main.rs:102-116 | state k is the digest of the first k + 1 entries |
| Metrics.MetricSentry.ShiftedStateForLogs | ksentry-metrics/src/main.rs:118-135 | the digest at an offset |
| Metrics.MetricSentry.CompositionHolds | ksentry-metrics/src/main.rs:317-332 | the first state, the shifted second state, their composition and the direct state are the digests they should be, and the last two are always equal |
| Metrics.MetricSentry.FindPrefixDivergence | ksentry-metrics/src/main.rs:185-208 | it is the first prefix whose states differ; with an invertible base that is the prefix of the first entry differing modulo p, and none means agreement everywhere |
| Metrics.MetricSentry.LocalizeWindow | ksentry-metrics/src/main.rs:210-237 | the window is tight, and its shifted states differ by exactly what the whole states differ by |
| Metrics.NextPrefix | ksentry-metrics/src/main.rs:185-200 | with an invertible base, prefix states equal so far stay equal exactly when the next entries agree modulo p |
| Metrics.PrefixStatesDetermineLog | ksentry-metrics/src/main.rs:102-116 | with an invertible base, equal prefix states everywhere are the same as agreement modulo p everywhere |
| Metrics.FirstMismatch | proofs/finaltest_timefence_core_verified.rs:2691-2754 | the first raw mismatch with both values, or equality of the logs |
| Metrics.AllMismatchIndices | ksentry-metrics/src/main.rs:147-156 | exactly the mismatching indices, in increasing order |
| Metrics.MismatchWindow | ksentry-metrics/src/main.rs:172-183 | the logs differ at both ends of the window and nowhere outside it |
| Metrics.WindowUnique | ksentry-metrics/src/main.rs:172-183 | two logs have at most one such window |
| Metrics.MismatchInfoOf | ksentry-metrics/src/main.rs:158-170 | first and last listed mismatch are the ends of the window, and the count is the number of differing indices |
| Slicing.ChunkAt | timefence-core/src/chunker.rs:28-30 | chunk i exists exactly when i c < n and takes the entries from i c on, up to c of them |
| Slicing.FlattenChunks | timefence-core/src/chunker.rs:28-30 | the chunks put together are the stream |
| Checkpoint.TimeFenceCheckpoint.New | timefence-core/src/checkpoint.rs:22-43 | a new checkpoint carries the given fields and an end consistent with them |
| Checkpoint.TimeFenceCheckpoint.FullyMatches | timefence-core/src/checkpoint.rs:49-69 | a full match is equality of the checkpoints |
| Checkpoint.TimeFenceCheckpoint.AdjacentTo | timefence-core/src/checkpoint.rs:71-75 | the next checkpoint is of the same stream and epoch and starts where this one ends |
| Checkpoint.TimeFenceCheckpoint.ReasonMismatch | timefence-core/src/checkpoint.rs:77-107 | no mismatch exactly for equal checkpoints, and each reason exactly when its field is the first that differs in the order stream, epoch, start, length, end, parameters, digest; the end is never blamed for consistent ranges |
| Verifier.VerifyCheckpoint | timefence-core/src/verifier.rs:38-59 | a report is clean exactly for equal checkpoints, a digest mismatch exactly when only the digests differ, otherwise it names the first differing metadata field; it carries the stream, epoch, start and end of the expected checkpoint and both digests |
| Verifier.VerifyMany | timefence-core/src/chunker.rs:47-57 | pairwise reports as far as the shorter list |
| Verifier.FirstBadChunkIndex | timefence-core/src/chunker.rs:59-61 | the least suspicious index, or none when all are clean |
| Chunker.ChunkStream | timefence-core/src/chunker.rs:16-45 | one checkpoint per chunk, with stream, epoch, parameters, start, end, length and the streamed digest of the chunk for every modulus, which is the specification for exact ones |
| Chunker.CheckpointsTile | timefence-core/src/checkpoint.rs:71-75 | checkpoints cover the stream from 0 to n, each full but the last, each starting where the one before ends |
| Chunker.AdjacentIff | timefence-core/src/checkpoint.rs:71-75 | of the checkpoints of a stream each is adjacent to its successor and to no other, so every gap and overlap shows |
| Chunker.DigestIsShiftedSum | timefence-core/src/antirebase.rs:17-28 | the digest of any list of pieces put together is the modular sum of their shifted digests |
| Chunker.StreamIsSumOfChunks | timefence-core/src/chunker.rs:28-42 | so the whole-stream digest is the sum of shifted chunk digests for every chunk size |
| Chunker.ReportAt | timefence-core/src/verifier.rs:42-48 | a report names a length mismatch first, and a digest mismatch only for equal lengths |
| Chunker.ReportWindow | timefence-core/src/verifier.rs:50-58 | the window of report i holds exactly the positions of chunk i, and the report carries the stream, the epoch and both digests of the chunk |
| Localisation.SingleEditLocalised | timefence-core/src/chunker.rs:47-61 | one entry edited modulo p under an invertible base: exactly its chunk's report is a digest mismatch, all others are clean, and it is the first bad one |
| Localisation.SwapInsideChunk | timefence-core/src/fault.rs:25-33 | under an invertible base and for any modulus, a swap inside a chunk flags that chunk alone, exactly when the difference of the entries times 1 - q^(local position + 1) does not vanish, and it is then the first bad one |
| Localisation.SwapInsideChunkOverPrime | timefence-core/src/fault.rs:25-33 | over a prime that is exactly when the entries differ and q^(local position + 1) is not one |
| Localisation.SwapAcrossBoundary | timefence-core/src/chunker.rs:86-102 | under an invertible base a swap across a boundary flags exactly both neighbouring chunks whenever the entries differ, the earlier being the first bad one |
| Localisation.DifferingChunksByPosition | timefence-core/src/chunker.rs:47-57 | for streams of one length the differing chunks are those of the positions that differ modulo p |
| Localisation.DifferenceHasFirst | timefence-core/src/chunker.rs:59-61 | streams that differ somewhere in their common range have a first difference |
| Localisation.TamperLocalised | timefence-core/src/chunker.rs:59-61 | after any tampering, drops and insertions included, all but c(c-1)/2 nonzero bases point first at the chunk of the first difference, whatever the lengths of the streams |
| Localisation.ReportsMatchIff | timefence-core/src/chunker.rs:47-57 | for any modulus and streams of any lengths the suspicious reports are exactly those of the differing chunks unless the base makes one of these chunks collide |
| Localisation.TamperLocalisedExactly | timefence-core/src/chunker.rs:47-61 | over a prime and for streams of any lengths, with m differing chunks, all but m c(c-1)/2 nonzero bases flag exactly those m chunks |
| Localisation.LengthReports | timefence-core/src/checkpoint.rs:90-92 | for different lengths the only possible length report is the one of the chunk the shorter stream leaves unfinished, and it is there exactly when such a chunk exists |
| Localisation.LengthsAgreeIff | timefence-core/src/chunker.rs:47-57 | equal lengths are the same as equal chunk counts and no length report |
| Localisation.TruncationReports | timefence-core/src/fault.rs:49-51 | a truncated stream is reported clean exactly when cut on a chunk boundary, otherwise the unfinished chunk is the first bad one |
| Fault.DropOne | timefence-core/src/fault.rs:18-23 | the entry at the index is gone, those before it stay and those after it move one position down; past the end nothing changes |
| Fault.SwapAdjacent | timefence-core/src/fault.rs:25-33 | neighbours are exchanged when both exist, every other entry stays, and the entries are the same as a multiset |
| Fault.Duplicated | timefence-core/src/fault.rs:35-47 | entries up to the index stay and those from the index on appear one position up, so the entry at the index is there twice |
| Fault.DuplicateOne | timefence-core/src/fault.rs:35-47 | the copying loop gives that stream |
| Fault.TruncateTail | timefence-core/src/fault.rs:49-51 | the first entries up to the new length, or all |
| Fault.Spliced | timefence-core/src/fault.rs:53-65 | for every old stream and prefix length: old entries up to the shorter of the two, then the current entries from the prefix length on |
| Fault.SpliceOldPrefix | timefence-core/src/fault.rs:53-65 | the two copying loops give that stream |
| Fault.InjectedEntries | timefence-core/src/fault.rs:67-79 | the result of every injected fault, entry by entry |
| Fault.FaultChangesIff | timefence-core/src/fault.rs:67-79 | exactly which streams each injected fault changes |
| Fault.DropUndoesDuplicate | timefence-core/src/fault.rs:18-23 | dropping the index that was duplicated restores the stream |
| Fault.InjectedTruncationReports | timefence-core/src/fault.rs:73-73 | the injected truncation is missed exactly when n - 1 is a multiple of the chunk size |
| Fault.InjectedLengthReports | timefence-core/src/fault.rs:70-72 | an injected drop or duplicate leaves no length report exactly when the shorter stream fills its chunks |
| Merkle.MerkleRoot | timefence-core/baseline.rs:190-207 | the nested loops terminate with the recursively defined root |
| Merkle.MerkleChunks | timefence-core/baseline.rs:171-207 | the root over the chunk hashes, an empty stream counting as one empty chunk |
| Merkle.LevelCollision | timefence-core/baseline.rs:190-205 | two different lists of one length with one level above hold a collision: a pair joined in each, different, with one parent |
| Merkle.RootCollision | timefence-core/baseline.rs:190-207 | two different lists of one length with one root: two different pairs with one parent are produced, one combined in each tree, whatever the hash size and with odd leaves promoted |
| Merkle.StreamCollision | timefence-core/baseline.rs:171-207 | two different streams of one length with one root: either two different chunks at one place with one hash or such a pair of pairs is produced |
| Binding.RootSplit | timefence-core/baseline.rs:190-207 | the reduction by levels is a tree: the root joins the root of the largest power of two of leaves below n and the root of the rest |
| Binding.SameRootIff | timefence-core/baseline.rs:164-207 | with one hash for chunks and pairs and any chunk size, lists of chunks that match as trees have one root, and lists with one root match or have had a collision hashed |
| Binding.MatchesShape | timefence-core/baseline.rs:171-207 | unless a full chunk has the size of a pair, matching lists are equal but for a tail, a subtree of two or more chunks, replaced by one chunk that holds the top pair of the subtree |
| Binding.RootsTellStreams | timefence-core/baseline.rs:164-207 | streams of any lengths with one root are equal, or one is such a fold of the other, or two different inputs hashed for them have one hash |
| Binding.RootsEqualIff | timefence-core/baseline.rs:164-207 | with a hash injective on what is hashed, roots are equal exactly for equal streams and for folds |
| Binding.CombinedIff | timefence-core/baseline.rs:190-205 | the inputs of the tree are exactly the pairs combined in the reduction |
| Binding.FoldAt | timefence-core/baseline.rs:164-207 | a fold exists at every subtree that ends the tree: a shorter stream with the same root for which nothing new is hashed |
| Binding.LongStreamsAreFolded | timefence-core/baseline.rs:164-207 | every stream longer than a chunk that has room for a pair shares its root with a stream the size of one pair |
| Binding.LengthsBindIff | timefence-core/baseline.rs:171-207 | roots bind streams of lengths n >= m up to a collision exactly when no fold leads from n to m entries, or every stream of n entries collides with itself; equal lengths always bind |
| Binding.BindsUpToIff | timefence-core/baseline.rs:171-207 | where a chunk has room for a pair, roots bind all streams of up to L entries up to a collision exactly when L is at most one chunk, or every longer one collides with itself |
| Binding.SmallChunksBind | timefence-core/baseline.rs:171-207 | with chunks too small for a pair, streams of any lengths with one root are equal or give a collision |

## Left out

- The debug profile, which panics where a product or a sum would wrap; the wrapping modelled is that of the release profile.
- Chunker.ChunkStream: sequence numbers and lengths of checkpoints are unbounded naturals, because they never exceed the length of the slice; the digests are 128-bit words.
- Metrics.MetricSentry.WeightForIndex: the panic from index 2^32 on is a precondition, as are the length assertions of the comparisons.
- Localisation.TamperLocalised: probabilities are kept as counts of bases; the floating-point ratio the metrics crate prints is not modelled.
- `first_suspicious_report`, `same_or_first_mismatch_index`, `KSentry::checkpoint` and the `is_*` helpers of checkpoints repackage results that are modelled.
- Exhaustive searches for collisions at lengths 2 and 3: finite, and covered by the injectivity theorem.
- The inlined rolling loop of the baseline benchmark repeats the rolling hash without reducing its base first.
- Binding.LengthsBindIff: for chunks of exactly the size of a pair and two different lengths only `Binding.SameRootIff` and `Binding.FoldAt` speak, because there every chunk, not only the last, may hold a pair.
- blake3, HMAC and the event hasher: a chunk hash is an arbitrary function, and so is a parent outside `Binding.dfy`; there a hash is written in `w` entries of the stream's type, two for 32 bytes.
- Incident reports, CSV and JSON output, timing, event collection, strace and eBPF capture, string filters, plotting.
- The duplicate copies of the core crate and of the proofs, and the superseded drafts limited to 31 entries.
