# Verified models of the kernels of a server framework

The framework (`lib/`, JavaScript) holds a number of small algorithms on which larger promises rest:
exact random samplers and the ledger that charges for them, a strict tar reader, calendar windows and
counters for quotas, the life of an API key, a scanner that rewrites URLs in generated text, four
small protocols for agents, a compatibility check for module surfaces, and an encoder that works in
wrapping 32-bit arithmetic. This project models each of them in Dafny and proves what it is for.

Code that updates variables is modelled by methods and classes that update the same variables, each
proved equal to a function of its inputs or of the old state. The theorems are about those functions:
all inputs, all runs, or all interleavings.

| file | models |
|---|---|
| `DpFractions.dfy`, `DpUniform.dfy`, `DpSamplers.dfy`, `DpExpLaw.dfy`, `DpLaws.dfy`, `DpGeometricLaw.dfy`, `DpLaplaceLaw.dfy`, `DpZeroVariance.dfy` | rational arithmetic, the uniform draw and the samplers of `lib/ai-dp.js`, and their laws |
| `DpBudget.dfy`, `DpBudgetCalls.dfy` | its privacy budget, under both accountings |
| `TarPax.dfy`, `TarWalk.dfy`, `TarLayout.dfy`, `TarRefusals.dfy`, `TarAgreement.dfy`, `TarExtract.dfy`, `TarRoundTrip.dfy` | pax records, the block walk, the archive format byte by byte, its refusals, the sources of names and sizes, the size accounting of `lib/archive-tar-read.js`, and reading what was written |
| `Calendar.dfy`, `CalendarDates.dfy`, `QuotaKeys.dfy`, `Quota.dfy` | windows, counter keys, limits and the counter store of `lib/ai-quota.js` |
| `ApiKeyFormat.dfy`, `ApiKey.dfy`, `ApiKeyCalls.dfy` | the token format and the life of a key row of `lib/api-key.js` |
| `AiScan.dfy`, `AiRewrite.dfy`, `AiSafety.dfy`, `AiPasses.dfy` | the bracket scanner and the rewriter of `lib/ai-output.js`, and what they promise |
| `AgentSnapshot.dfy`, `AgentSnapshotSignatures.dfy`, `AgentStream.dfy`, `AgentStreamDrains.dfy`, `AgentSaga.dfy`, `AgentIdempotency.dfy` | re-signing, draining streams, sagas and idempotency claims |
| `ApiTree.dfy`, `ApiCapture.dfy`, `ApiCompare.dfy`, `ApiCompatibility.dfy` | capture and comparison of `lib/api-snapshot.js` |
| `Base32.dfy` | the encoder of `lib/acme.js` |
| `Arith.dfy`, `Bytes.dfy`, `Results.dfy` | arithmetic facts, numerals, optional values |

`dafny verify dfyconfig.toml` checks all of it.

## How randomness, time and concurrency appear

*Randomness.* A sampler runs on a tape that holds the outcomes of the calls it makes; on a tape that is
too short it stops at its next call. A call has a weight for each outcome, a tape weighs the product.
The uniform draw is counted exactly, over byte strings. `exp` is any function `E` with `E(0) = 1` and
`E(a + b) = E(a) * E(b)`. A rejection loop is described after any fixed history of rejected attempts:
the law of what comes next is the same whatever the history, with a factor that does not depend on it.

*Time.* Every clock reading is an input, and two readings in one call are two inputs.

*Concurrency.* A call that waits is a process cut at every await or database access; theorems quantify
over all sequences of turns.

## What turned out not to hold as promised

- Re-signing a snapshot can lose it. With a sealer wired, the stored wrapper does not record the schema
  version the seal was bound to (`lib/agent-snapshot.js:463-500`), and loading assumes version 1. An
  envelope with another version is counted as re-signed and then loads under no key:
  `VersionTwoIsLost`; exactly when a row survives: `PersistedLoadsExactly`, `ResignPartitionsExactly`.
- A `put` that read the key as absent before a claim can store its own fingerprint over the claim's:
  `OvertakenPutHappens`; exactly when that is excluded: `FingerprintFixedExactly`.
- A saga must be resumed at the number of checkpointed steps; the record's `stepIndex` is one less:
  `ResumeIndexExact`.
- A quota call whose store reads the clock after its window has ended finds the counter expired and
  starts over, so a full budget can be spent twice: `CrossingBreaksCeiling`; exactly when a call keeps
  the ledger: `CrossingExactly`. If both readings are in one window the ceiling holds
  (`HardCeiling`), and then the clock may even run backwards between calls.
- Second and minute windows use the language's `%` and fail to contain an instant before 1970 unless it
  is a whole second or minute: `RemainderWindowExactly`.
- Limit overrides for a pair are looked up under the tenant, a bar and the model, unencoded, so an
  override can reach another pair: `OverrideReachesOtherTenant`; exactly which pairs share one:
  `OverrideAmbiguousExactly`. The counters themselves are never shared (`KeyInjective`).
- A fresh Renyi scope may start above its epsilon, and then accepts nothing: `FreshScopeAbove`; exactly
  when it starts and stays within it: `FreshRunExactly`, `RdpWithinExactly`.
- A positive variance that rounds to zero leaves a Gaussian sampler that cannot return:
  `ZeroVarianceFails`; exactly when its exponent is defined: `BiasDefinedExactly`.
- A stream that meets an empty batch, or `done` too early, finishes before the source's end:
  `EmptyBatchEndsStream`; exactly when it delivers everything: `DeliversAllExactly`, `DrainAndResume`.
- `next` after `return` can open a cursor that nothing closes: `OpenedTooLate`; exactly when one is left
  open: `LeftOpenExactly`.
- An entry need not agree with every record that supplies its name, link target or size: a sparse name
  overrules a path (`SparseNameHidesPath`), and the last record of a key the ones before
  (`RepeatedPathHides`), without an error; exactly when it agrees: `NamesAgreeExactly`,
  `SizeAgreesExactly`, `MembersAgree`.
- A refused link can survive inside a URL that is kept: `RefusedLinkSurvives`; the verdicts for which
  none ever does: `SafeExactly`.
- The link pass can spoil an image that the image pass settled: `PassesInterfere`; exactly when:
  `SpoilsExactly`.
- With underscored keys captured, a member `__proto__` is not recorded and its removal not noticed:
  `LostProtoUnnoticed`; exactly which paths are recorded: `CaptureExactly`.
- Captured members are not in sorted key order when keys are array indices: `IndicesByValue`.

## Model

| member | source | states |
|---|---|---|
| DpFractions.ComputeGcd | lib/ai-dp.js:76-81 | for all integers, negative and zero too, the remainder loop gives a common divisor that every common divisor divides |
| DpFractions.FrMeaning | lib/ai-dp.js:82-86 | normalising keeps the value, makes the denominator positive and reaches lowest terms; a zero denominator stays zero |
| DpFractions.FrMulValue | lib/ai-dp.js:90 | the reduced product has the product of the values |
| DpFractions.FrSubValue | lib/ai-dp.js:91 | the reduced difference has the difference of the values |
| DpFractions.FrGtValue | lib/ai-dp.js:92 | cross multiplication decides the order of the values, both directions |
| DpFractions.FloorSqrt | lib/ai-dp.js:165-174 | doubling then bisection ends with the integer whose square is the last one at or below the fraction |
| DpFractions.FloorSqrtUnique | lib/ai-dp.js:165-174 | that integer is unique |
| DpUniform.UniformBelow | lib/ai-dp.js:94-108 | the answer is the masked value of the first buffer that falls below m; earlier ones did not; m <= 0 is refused, m = 1 draws nothing |
| DpUniform.FibreSize | lib/ai-dp.js:97-105 | every value the mask can give comes from exactly 2^(8n - bits) byte strings of length n |
| DpUniform.UniformIsExact | lib/ai-dp.js:94-108 | for every m >= 2, with the byte count and mask the code uses, all values below m are equally frequent, nothing else is accepted, and at least half of all strings are |
| DpSamplers.BernoulliExp1 | lib/ai-dp.js:122-129 | the counting loop as a run over the outcomes of its uniform draws |
| DpExpLaw.Exp1IsExact | lib/ai-dp.js:122-129 | for every rational x in [0, 1]: over all outcomes, the chance of having returned 1 within 2m+1 draws is the Taylor sum of exp(-x) to degree 2m+1, and the chance of still running after n draws is x^n / n! |
| DpExpLaw.Exp1Brackets | lib/ai-dp.js:122-129 | a number between consecutive Taylor sums, as exp(-x) is, differs from the chance of 1 by at most the chance of still running |
| DpSamplers.BernoulliExp | lib/ai-dp.js:130-136 | the unit-peeling loop as a run over the coins it tosses |
| DpLaws.ExpHalts | lib/ai-dp.js:130-136 | the peeling loop always ends, after at most floor-many units plus one coin, and gives 1 exactly when all its coins are 1 |
| DpLaws.ExpIsExact | lib/ai-dp.js:130-136 | the single tape that gives 1 weighs exp(-x), for every rational x |
| DpSamplers.GeometricExpSlow | lib/ai-dp.js:137-143 | the counting loop as a run over its coins |
| DpLaws.GeoSlowIsExact | lib/ai-dp.js:137-143 | k is returned on exactly k successes and a failure, with weight (1 - exp(-x)) exp(-kx) |
| DpSamplers.GeometricExpFast | lib/ai-dp.js:144-155 | the rejection loop, the slow geometric and the division as a run; x = 0 gives 0 |
| DpLaws.PairIndex | lib/ai-dp.js:148-153 | draws (v, u) with u < t correspond one to one to the numbers v*t + u, both directions |
| DpLaws.GeoFastBins | lib/ai-dp.js:144-155 | after any rejected attempts, (u, v) gives k exactly when v*t + u lies in the k-th run of x.num consecutive integers |
| DpLaws.GeoFastIsExact | lib/ai-dp.js:144-155 | after any rejected attempts, the accepted attempts of bin k together weigh one constant times exp(-kx) |
| DpGeometricLaw.GeoFastNormalised | lib/ai-dp.js:144-155 | the law of the slow sampler: summed over all histories, k is returned within N+1 attempts with weight (1 - exp(-x)) exp(-kx), times one minus the weight of rejecting them all |
| DpSamplers.SampleDLaplace | lib/ai-dp.js:156-164 | the sign and magnitude loop as a run |
| DpLaws.LaplacePairs | lib/ai-dp.js:156-164 | after any negative zeros, every integer is returned by exactly one (sign, magnitude) |
| DpLaws.LaplaceIsExact | lib/ai-dp.js:156-164 | z comes with a constant times exp(-abs(z)/scale), symmetric in z |
| DpLaplaceLaw.LaplaceNormalised | lib/ai-dp.js:156-164 | the normalised law: with q = exp(-1/scale), z is returned within N+1 attempts with weight (1-q)/(1+q) * q^abs(z) times 1 - ((1-q)/2)^(N+1) |
| DpSamplers.SampleDGauss | lib/ai-dp.js:175-187 | t is floor(sqrt(sigma2)) + 1 and the loop is a run over candidates and coins |
| DpLaws.BiasValue | lib/ai-dp.js:180-185 | the fraction computed as bias is (abs(y) - sigma2/t)^2 / (2 sigma2) |
| DpLaws.BiasCompletesSquare | lib/ai-dp.js:180-185 | bias + abs(y)/t = y^2/(2 sigma2) + sigma2/(2 t^2) |
| DpLaws.GaussIsExact | lib/ai-dp.js:175-187 | after any rejected candidates, y is returned exactly by accepting y, with a weight proportional to exp(-y^2/(2 sigma2)); the factor depends neither on y nor on the history |
| DpZeroVariance.BiasDefinedExactly | lib/ai-dp.js:175-185 | the bias has a non-zero denominator exactly when the variance is not zero |
| DpZeroVariance.ZeroVarianceFails | lib/ai-dp.js:175-187 | with a variance rounded to zero, after any rejected candidates, no other candidate than zero can be accepted, and zero asks for a uniform number below 0 |
| DpBudget.RdpToEpsilon | lib/ai-dp.js:217-225 | the loop returns the least of the per-order sums |
| DpBudget.EpsilonMonotone | lib/ai-dp.js:217-225 | non-negative charges never lower the accountant's epsilon |
| DpBudget.Budget.constructor | lib/ai-dp.js:381-384 | a new scope has spent nothing |
| DpBudget.Budget.Consume | lib/ai-dp.js:403-457 | refused calls, in the source's order of reasons, leave the state as it was; accepted ones charge exactly the mechanism, and report the cost and the remaining budget |
| DpBudget.Budget.RemainingNow | lib/ai-dp.js:388-396 | the clamped difference to the totals, under either accounting |
| DpBudget.Budget.Reset | lib/ai-dp.js:459-463 | the state of a new scope |
| DpBudget.BasicStaysWithin | lib/ai-dp.js:388-463 | over every run, resets included, recorded spend stays within the totals plus 1e-12 |
| DpBudget.BasicLedger | lib/ai-dp.js:414-447 | between resets the recorded spend is the sum of the accepted epsilons and deltas |
| DpBudget.BasicCeiling | lib/ai-dp.js:414-447 | the accepted amounts of any run without reset sum to at most the totals plus 1e-12 |
| DpBudget.RdpTelescopes | lib/ai-dp.js:428-450 | the returned costs sum to the growth of the accountant's epsilon |
| DpBudget.RdpWithinExactly | lib/ai-dp.js:428-450 | over any run without reset the accountant ends within the total plus 1e-12 exactly when it started there; if it started above, the state never changes |
| DpBudget.FreshRunExactly | lib/ai-dp.js:428-463 | over every run of a new scope, resets included, the accountant ends within the total plus 1e-12 exactly when log(1/delta)/255 is; if it is not, no call is ever accepted |
| DpBudget.FreshScopeAbove | lib/ai-dp.js:428-450 | a scope with epsilon 0.05 and delta 1e-9 refuses every release |
| DpBudget.RemainingNeverIncreases | lib/ai-dp.js:388-396 | between resets neither component of the remaining budget increases, under either accounting |
| DpBudgetCalls.BasicAcceptsExactly | lib/ai-dp.js:403-457 | under basic accounting, after any calls, a release is accepted exactly when its mechanism is in order, the amounts accepted so far with its own stay within the totals plus 1e-12, and its value is finite |
| DpBudgetCalls.BasicRemainingExactly | lib/ai-dp.js:388-396 | remaining is what the accepted amounts left of the totals, and zero below that |
| DpBudgetCalls.ReasonExactly | lib/ai-dp.js:403-447 | which reason a refused release is given, in order: kind, a Gaussian without a delta, budget, value |
| DpBudgetCalls.RdpAcceptsExactly | lib/ai-dp.js:217-450 | under Renyi accounting, after any calls, a release is accepted exactly when it is in order and some of the 18 orders certifies an epsilon within the total plus 1e-12 for all charges so far and its own |
| DpBudgetCalls.RdpRemainingExactly | lib/ai-dp.js:388-396 | remaining is the total less the best epsilon that any order certifies for the accepted charges, and all of delta |
| TarPax.ScanLength | lib/archive-tar-read.js:109-120 | the digit loop gives the numeral's value or stops as soon as it passes the remaining bytes |
| TarPax.ParsePaxRecords | lib/archive-tar-read.js:105-172 | the in-place scan equals parsing record by record, with the same first error |
| TarPax.LegalExactly | lib/archive-tar-read.js:105-172 | a record byte by byte: digits, space, key, equals sign, value and newline, a length that counts them all, and what keys and names may not hold |
| TarPax.ParseExactly | lib/archive-tar-read.js:105-172 | a body is accepted with map m exactly when it is the gapless concatenation of legal records whose last-wins map is m |
| TarPax.TilingUnique | lib/archive-tar-read.js:105-172 | a body has at most one such tiling |
| TarPax.FailsExactly | lib/archive-tar-read.js:105-172 | a body is refused with an error exactly when it is legal records and then something to which that error is due: no well-made record, or one whose value may not be a name |
| TarPax.BuildPaxRecord | lib/archive-tar.js:342-351 | iterating the length ends with a length field that counts the whole record, its own digits included |
| TarPax.WriteThenRead | lib/archive-tar-read.js:105-172 | any legal keys and values, written one after the other, read back as their last-wins map |
| TarPax.PaxSizeExactly | lib/archive-tar-read.js:174-187 | size attributes are exactly the canonical decimal strings of safe integers |
| TarWalk.SkipGnuSparseExtensions | lib/archive-tar-read.js:219-242 | the block chain loop, its two refusals and its end position |
| TarWalk.ReadExtension | lib/archive-tar-read.js:509-549 | the extension headers: caps, truncation, redundant or dangling records, global attributes |
| TarWalk.Walk | lib/archive-tar-read.js:496-653 | the whole loop, on every byte string, equals the recursive walk; it always ends |
| TarWalk.AbsorbCollects | lib/archive-tar-read.js:509-549 | the pending slots accept one more header exactly while at most one of each kind was read since the last entry |
| TarWalk.WalkExactly | lib/archive-tar-read.js:504-652 | the walk succeeds with entries es exactly when a recursive grammar derives the archive with es: every x, X, L and K header belongs to the entry after it, at most one of each kind, none reaches a later entry, none is left over |
| TarLayout.ExtensionExactly | lib/archive-tar-read.js:196-549 | which header blocks are extension headers, with what value and where the next header is: exactly the x, X, g, L and K headers whose body fits and is well formed, g without entry keys, L and K up to the first NUL and 65536 bytes |
| TarLayout.EndExactly | lib/archive-tar-read.js:504-507 | the archive ends exactly where fewer than 512 bytes are left or a block of zeros stands |
| TarLayout.CollectedExactly | lib/archive-tar-read.js:514-557 | the records held for an entry are exactly those its own x or X, L and K headers carry, at most one of each |
| TarLayout.EntryExactly | lib/archive-tar-read.js:550-648 | an entry header is accepted with an entry exactly when that is what the format describes: its name, link target, size, time, kind flags and refusals, and where its body lies: at byte 512 of the header, or behind k extension blocks, the first without a continuation mark being the k-th |
| TarLayout.WalkReadsExactly | lib/archive-tar-read.js:496-653 | the walk succeeds with entries es exactly when the archive is written, byte by byte, as members that each begin where the body before ends, global headers, and an end |
| TarLayout.EveryBodyPlaced | lib/archive-tar-read.js:632-648 | each body starts at byte 512 of its header or behind its extension blocks, has the entry size within the cap, and is filled up to a multiple of 512, where the next member begins |
| TarRefusals.ExtRefusedExactly | lib/archive-tar-read.js:196-293 | with which error an extension header is refused: size, truncation, records, global entry keys, empty or undecodable long names |
| TarRefusals.EntryRefusedExactly | lib/archive-tar-read.js:550-648 | with which error an entry header is refused: the first that applies of records before a label or ACL, the size record, conflicts, UTF-8, sizes and targets where none belong, the entry cap, the size cap, the extension blocks and truncation |
| TarRefusals.WalkFailsExactly | lib/archive-tar-read.js:496-653 | the walk fails with an error exactly when members stand at the front of the archive, then extension headers that do not repeat, and then a block at which it must stop with that error |
| TarRoundTrip.ArchiveReadsBack | lib/archive-tar.js:482-518 | files and directories written as headers, bodies and zeros up to the next block, then an end, are read as one entry each, in order, with the written name and body, right behind the header block |
| TarRoundTrip.OneFile | lib/archive-tar-read.js:632-648 | a single file: its body is read from byte 512 |
| TarRoundTrip.WriteThenRead | lib/archive-tar-read.js:734-758 | extraction of such an archive within the caps yields exactly the written names and bodies of the files and is not stopped |
| TarAgreement.NamesAgreeExactly | lib/archive-tar-read.js:557-603 | name and link target agree with every record that supplies them, repeated keys and L and K records included, exactly when these records agree among themselves and one is in force or the header's own value is the same |
| TarAgreement.SizeAgreesExactly | lib/archive-tar-read.js:565-569 | the size agrees with every size record exactly when these agree among themselves |
| TarAgreement.SparseNameHidesPath | lib/archive-tar-read.js:275-279 | for all two such records, a sound regular entry is read under the sparse name, without an error |
| TarAgreement.RepeatedPathHides | lib/archive-tar-read.js:167-169 | of two legal path records with different values a sound regular entry takes the last, without an error |
| TarAgreement.MembersAgree | lib/archive-tar-read.js:504-652 | each entry of an archive relates in that way to the very records that tile the body of the x or X header between the previous entry and it, and to its L and K records; none of another entry matters |
| TarExtract.WalkIsLaidOut | lib/archive-tar-read.js:630-645 | header blocks and bodies are in bounds, on block boundaries, disjoint and in order |
| TarExtract.BodiesDisjoint | lib/archive-tar-read.js:630-645 | a later header starts at or after the end of every earlier padded body |
| TarExtract.BodiesConserved | lib/archive-tar-read.js:630-645 | bodies plus one block per entry fit in the source |
| TarExtract.ExtractEntries | lib/archive-tar-read.js:741-757 | what was yielded is exactly the bodies of the first entries; each of the two stops happens only for its reason, and the total is never exceeded |
| TarExtract.KindExactly | lib/archive-tar-read.js:324-339 | which byte of the header makes an entry a file, directory, link, device or FIFO, and that sparse entries and all other bytes are of no known kind |
| TarExtract.AllowedExactly | lib/archive-tar-read.js:673-706 | files and directories may be extracted, links of a kind that was opted in to, and nothing else |
| TarExtract.ReadArchive | lib/archive-tar-read.js:736-757 | for a source within the read cap, as a random-access source always is (lines 295-308), the cumulative size check never fires, and reading is stopped exactly when some entry may not be extracted |
| Calendar.MonthIsInterval | lib/ai-quota.js:116-117 | year and month of an instant are y, m exactly when its day lies between the first days of two consecutive months |
| CalendarDates.MonthWindowsExactly | lib/ai-quota.js:100-133 | an instant lies in the n-th month since January 1970 exactly when its month window begins with that month and ends with the next, for months of 31, 28 or 29, 31, 30, ... days written out, with the Gregorian leap years |
| CalendarDates.WindowsExactly | lib/ai-quota.js:100-133 | start and end of the window of every period, in milliseconds written out; weeks from 1970-01-05, months from their first day |
| Calendar.WindowContains | lib/ai-quota.js:100-133 | start <= now < resetsAt for every period, Monday weeks and year ends included |
| Calendar.WindowUnique | lib/ai-quota.js:100-133 | every instant of a window has that window |
| Calendar.WindowsAbut | lib/ai-quota.js:100-133 | the reset of a window is the start of the next |
| Calendar.WeeksBeginOnMonday | lib/ai-quota.js:109-114 | week windows begin on a Monday |
| Calendar.RemainderWindowExactly | lib/ai-quota.js:103-104 | with the language's remainder, a window contains an instant exactly when it is not before 1970 or is a multiple of the width |
| QuotaKeys.DecodeEncode | lib/ai-quota.js:281-287 | percent-encoding over UTF-8 is inverted by decoding, for every string of characters |
| QuotaKeys.EncodesExactly | lib/ai-quota.js:281-287 | which characters stay, and that every other one becomes one escape for each octet of its UTF-8 form |
| QuotaKeys.KeyInjective | lib/ai-quota.js:281-284 | two counters have the same key exactly when dimension, period, tenant, model and window are the same |
| QuotaKeys.PrefixExactly | lib/ai-quota.js:285-287 | the prefix of a tenant-wide reset matches exactly that tenant's counters |
| QuotaKeys.OverrideAmbiguousExactly | lib/ai-quota.js:273-279 | for non-empty names, some other pair shares the override entry exactly when the tenant has a bar after its first character or the model one before its last |
| QuotaKeys.OverrideReachesOtherTenant | lib/ai-quota.js:273-279 | an override written for one pair is the limit of another: the bar between tenant and model can be read one name further right |
| QuotaKeys.OverridesReachExactly | lib/ai-quota.js:273-279 | how far an override reaches: a pair override before a tenant one, that before a model one, and that before the general limit |
| Quota.MemoryStore.Reserve | lib/ai-quota.js:137-152 | refusal or charge, the reported usage, and the whole new map, a renewed slot included |
| Quota.MemoryStore.Add | lib/ai-quota.js:153-157 | the charge and the whole new map |
| Quota.MemoryStore.KeysWithPrefix | lib/ai-quota.js:166-170 | exactly the keys with the prefix |
| Quota.Budget.Consume | lib/ai-quota.js:321-384 | counters and answer are those of one step, in all three modes and for bad arguments |
| Quota.Budget.Check | lib/ai-quota.js:386-397 | the reading of the counter, and the flags it gives |
| Quota.Budget.Reset | lib/ai-quota.js:399-425 | one counter, one tenant's counters or all are removed, and nothing else |
| Quota.CountersAreLedger | lib/ai-quota.js:135-175 | over every run of calls and resets, a counter holds what its window's calls were told was applied since the last reset that covers it, and does not expire before the window ends |
| Quota.AnswersExactly | lib/ai-quota.js:321-384 | a call is refused exactly when it is hard and would pass the limit; used, remaining, allowed and exceeded are those of the ledger |
| Quota.BadCallsExactly | lib/ai-quota.js:324-333 | a call without tenant, without model or with a negative amount is told the first of these and changes no counter |
| Quota.ResetsExactly | lib/ai-quota.js:402-425 | a reset without the names it needs is told so and changes nothing; any other only removes counters |
| Quota.CounterEndsExactly | lib/ai-quota.js:137-145 | a missing or expired counter lives one window length from the store reading; another keeps its end |
| Quota.HardCeiling | lib/ai-quota.js:337-353 | in hard mode the amounts accepted for a tenant, model and window never pass the limit |
| Quota.CheckReportsLedger | lib/ai-quota.js:386-397 | a check reports the ledger |
| Quota.CrossingExactly | lib/ai-quota.js:137-145 | a call keeps the ledger exactly when its counter is not an expired one that holds something, which takes a store reading past the window's end |
| Quota.CrossingBreaksCeiling | lib/ai-quota.js:337-353 | a run of two hard calls that spends a full budget twice in one window |
| ApiKeyFormat.ParseExactly | lib/api-key.js:158-171 | a token parses to p exactly when p is well formed and the token is p composed |
| ApiKeyFormat.ComposedIdInjective | lib/api-key.js:172-174 | row ids are unambiguous, even for a namespace with colons |
| ApiKey.Table.constructor | lib/api-key.js:314-355 | the row of a newly issued key |
| ApiKey.Table.Decide | lib/api-key.js:388-484 | verify after its read: the checks in order and the write it will make |
| ApiKey.Table.Resume | lib/api-key.js:388-560 | every piece of every call, up to its next database access, with the compare-and-set of the rehash write |
| ApiKey.VerifyExactly | lib/api-key.js:388-459 | in every interleaving a verify accepts exactly when the row it read was live and its secret was the current one then, or the previous one within its grace |
| ApiKey.RotatedOutRejected | lib/api-key.js:527-560 | once a secret is out, every later read rejects it, past any rehash, rotation, revocation or purge in flight |
| ApiKey.RotationPutsOut | lib/api-key.js:527-560 | a cutover puts the old secrets out at once, a graceful rotation after its deadline, both directions |
| ApiKey.RevokedRejectsAll | lib/api-key.js:487-498 | a verify that reads after a revocation rejects every secret, whatever runs beside it |
| ApiKeyCalls.RevokeExactly | lib/api-key.js:487-498 | revocation sets the time on a row in force and nothing else, says whether it did, and leaves any other row alone |
| ApiKeyCalls.PurgeExactly | lib/api-key.js:642-669 | a purge removes exactly the rows revoked or run out more than the given time ago, never one that still works |
| ApiKeyCalls.RotateRefusedExactly | lib/api-key.js:528-536 | a rotation is refused, with nothing written, exactly when the row is missing or revoked |
| ApiKeyCalls.RotateEnds | lib/api-key.js:527-574 | a rotation that began ends with the new secret current, the one it read secondary until the end of the grace, and the other fields as they are, whatever runs in between |
| ApiKeyCalls.VerifyWritesExactly | lib/api-key.js:438-450 | what an accepting verify is about to write: the time if use is tracked, a fresh hash of the same secret if the primary hash is outdated, and nothing when not leader |
| ApiKeyCalls.WriteExactly | lib/api-key.js:449-468 | the write happens unless the row is gone or its hash changed meanwhile, and touches two fields at most |
| ApiKeyCalls.CurrentSecretAccepted | lib/api-key.js:367-485 | a key without an end that nobody revokes stays in force in every interleaving, and every verify accepts the secret current at its read |
| AiScan.NextClose.From | lib/ai-output.js:61-67 | the cached search equals a fresh one for non-decreasing queries; for an earlier query it is the search from the furthest position asked |
| AiScan.FindBracketUrls | lib/ai-output.js:69-92 | the loop, with its early returns and its cache, gives all spans of the text |
| AiScan.LinkExactly | lib/ai-output.js:54-92 | what a link is, character by character, with the bounds 2048 and 256 and the white space written out |
| AiScan.SpansSound | lib/ai-output.js:69-92 | every span is the URL of a link as defined by its brackets, bang, bounds and gap; spans are in order and apart |
| AiScan.SpansComplete | lib/ai-output.js:69-92 | every link's URL is found, unless its bracket lies inside a URL that is found |
| AiRewrite.RewriteUrls | lib/ai-output.js:174-186 | the splicing loop gives the text with every refused URL replaced |
| AiRewrite.NeutralExactly | lib/ai-output.js:52 | a kept URL stays, a refused one becomes about:blank#blocked |
| AiRewrite.WeaveIsText | lib/ai-output.js:174-186 | a text is its gaps and URLs in turn |
| AiRewrite.Rescan | lib/ai-output.js:69-92 | scanning a rewritten rest, from any position and behind any prefix, finds the same gaps and the fixed URLs |
| AiRewrite.PassIsFaithful | lib/ai-output.js:174-186 | after one pass the text between URLs is unchanged, each URL is the kept or the neutral one, the scanner finds them again, and a second pass changes nothing |
| AiSafety.SafeExactly | lib/ai-output.js:280-287 | for every verdict: after a pass no link of any text has a refused URL exactly when the verdict keeps no URL in which an opening bracket begins, or lets later text complete, a link with a refused URL |
| AiSafety.TextIsSafe | lib/ai-output.js:280-287 | on a text, whatever the verdict keeps elsewhere: if no URL found and kept in it has an opening bracket, the pass leaves no refused link |
| AiSafety.RefusedLinkSurvives | lib/ai-output.js:280-287 | for every prefix p and URL r such that the verdict keeps p followed by a link with URL r, and refuses r: a text that the pass returns unchanged with the refused link in it |
| AiPasses.ImagesSafeExactly | lib/ai-output.js:286-287 | on every text, the link pass leaves no refused image exactly when no refused image is out of its reach and none is spoiled: no image URL ends in a refused link's URL and is refused itself with the neutral URL for an end, unless a replaced URL swallows its bracket |
| AiPasses.SpoilsExactly | lib/ai-output.js:286-287 | so on a text without refused images it leaves none exactly when it spoils none |
| AiPasses.TwoPassesSettle | lib/ai-output.js:286-287 | if no URL that either pass finds and keeps in the text has an opening bracket, the two passes leave no refused image and no refused link, and both again change nothing |
| AiPasses.PassesInterfere | lib/ai-output.js:286-287 | for every image URL that is kept, ends in a refused link's URL and is refused with the neutral URL for an end: a text whose image the first pass accepts and the second turns into a refused one |
| AgentSnapshot.Resign | lib/agent-snapshot.js:656-692 | rows, counts and refused ids after the loop, and the refusal of a bad previous key |
| AgentSnapshotSignatures.LoadsUnderKeyExactly | lib/agent-snapshot.js:534-630 | a signed row loads under the previous key exactly when it opens, passes guard and fields, its recorded key is usable, it carries that key's signature over its own body, and it is sealed or plaintext may be read |
| AgentSnapshotSignatures.LoadsNowExactly | lib/agent-snapshot.js:534-644 | the same for the current signer of each kind: audit signer, operator with an exposed key, operator without |
| AgentSnapshotSignatures.UnsignedLoadsExactly | lib/agent-snapshot.js:579-592 | an unsigned row loads exactly when it is in order and plaintext may be read |
| AgentSnapshotSignatures.AbortsExactly | lib/agent-snapshot.js:534-654 | the three cases in which a load aborts, and which error it gives |
| AgentSnapshotSignatures.PersistsExactly | lib/agent-snapshot.js:463-500 | what is stored for an envelope, and the first objection to storing it, in order |
| AgentSnapshotSignatures.ResignsSignedRows | lib/agent-snapshot.js:656-692 | every listed row that is not current and carries the previous key's signature over its body is stored anew, signed by the current key; every other row is unchanged; refused are exactly the listed rows that are neither |
| AgentSnapshotSignatures.ForgedRowRefused | lib/agent-snapshot.js:679-683 | a listed row with neither key's signature over its body, as every altered or forged one, is refused and unchanged |
| AgentSnapshotSignatures.TallyExactly | lib/agent-snapshot.js:674-687 | resigned counts the listed rows of the first kind, current those that load as they are |
| AgentSnapshotSignatures.StopsWhereDue | lib/agent-snapshot.js:679-685 | a pass over any store that stops has done what a pass over the ids before some id does, and stops because that row aborts a load or cannot be stored anew |
| AgentSnapshot.PersistedLoadsExactly | lib/agent-snapshot.js:463-500 | a persisted row loads with the same body exactly when no sealer is wired or the schema version is the current one |
| AgentSnapshot.ResignSettles | lib/agent-snapshot.js:656-692 | every visited row is settled once, rows not visited are untouched, no id appears or vanishes |
| AgentSnapshot.TallyAddsUp | lib/agent-snapshot.js:674-687 | the three counts add up to the rows visited |
| AgentSnapshot.ResignPartitionsExactly | lib/agent-snapshot.js:656-692 | afterwards a row loads under the current signer with its body, or is listed as refused and unchanged, exactly when it did not have to be sealed again under another schema version |
| AgentSnapshot.RefusedExactly | lib/agent-snapshot.js:682-683 | the refused list grows by exactly the visited rows that load under neither signer |
| AgentSnapshot.SecondResignIdle | lib/agent-snapshot.js:656-692 | a second pass re-signs nothing and changes nothing |
| AgentSnapshot.VersionTwoIsLost | lib/agent-snapshot.js:463-500 | a row that loads under the previous key, is counted as re-signed and then loads under no key |
| AgentStream.Iterator.Next | lib/agent-stream.js:161-217 | one call: buffer, marker, opening, an object without `fetchBatch`, fetching, closing and errors |
| AgentStream.Iterator.Return | lib/agent-stream.js:218-221 | a consumer that leaves closes what is open, if it was not closed before |
| AgentStreamDrains.AskAnswered | lib/agent-stream.js:161-217 | over every run, what each ask of a stream that is not over is answered: the next row, a marker, the end or an error, and when the cursor is closed |
| AgentStreamDrains.DrainGivesMarker | lib/agent-stream.js:172-189 | from every run: a draining ask with nothing buffered gives exactly one marker with the last row's cursor, fetches nothing and leaves the cursor open; the next ask ends the stream and closes it |
| AgentStreamDrains.RaisedFlagDrains | lib/agent-stream.js:161-217 | if the flag stays raised and the consumer keeps asking, every stream neither done nor over ends drained with exactly one marker and every fetched row delivered |
| AgentStreamDrains.DrainEnds | lib/agent-stream.js:161-217 | the same for every stream not over, within two asks more than there are rows buffered; one that was done ends without a marker |
| AgentStreamDrains.AsksDeliverAll | lib/agent-stream.js:161-217 | a stream never drained, over a source whose fetches give rows until it ends, ends by itself with the whole rest of the source delivered |
| AgentStream.ClosedAtMostOnce | lib/agent-stream.js:146-226 | over every sequence of next, return and throw, whatever the cursor answers, the cursor is closed at most once and stays closed |
| AgentStream.LeftOpenExactly | lib/agent-stream.js:146-226 | over every sequence of calls, a cursor is left open with the iterator closed exactly when some next opened it after the iterator was closed |
| AgentStream.OpenedTooLate | lib/agent-stream.js:161-221 | such a sequence: a cursor opened by a next after return is never closed, whatever is called later |
| AgentStream.StreamLosesNothing | lib/agent-stream.js:146-226 | over every run, with breaks, throws and failing opens and fetches and whatever the source does: the rows received are a contiguous piece of the source from where it was opened; at most one marker, reporting the last row, with nothing buffered and no row after it; a cursor that is there is closed exactly once when the loop is over |
| AgentStream.DeliversAllExactly | lib/agent-stream.js:161-217 | a stream that ends by itself without a drain or an error delivered the whole rest of the source exactly when no batch was empty before the end and `done` came only with the last row |
| AgentStream.DrainedIsHonest | lib/agent-stream.js:161-217 | a stream that was drained met only such batches |
| AgentStream.ReopensBehind | lib/agent-stream.js:233-239 | a drained stream reopens exactly behind the last row it delivered |
| AgentStream.DrainAndResume | lib/agent-stream.js:146-239 | over any number of drains the rows received are the source exactly when the last stream's batches are such |
| AgentStream.EmptyBatchEndsStream | lib/agent-stream.js:161-217 | a stream that an empty first batch ends with nothing delivered |
| AgentSaga.Compensate | lib/agent-saga.js:219-242 | the backward loop: calls made, state, and the first compensator that threw |
| AgentSaga.RunSaga | lib/agent-saga.js:157-285 | steps, checkpoints, failure and compensation as one trace |
| AgentSaga.UnwindExactly | lib/agent-saga.js:219-242 | exactly the completed steps with a compensator are compensated, in strictly descending order, down to the first that throws |
| AgentSaga.UnwindStops | lib/agent-saga.js:219-242 | no failure is reported only if every compensator succeeded, each on the state of the one before; step lo is reported only if those above succeeded and its own threw, and the state is the one that left |
| AgentSaga.CompletesExactly | lib/agent-saga.js:157-285 | a saga completes exactly when every run succeeds and, with a store, every checkpoint is saved; then each step ran once, in order, and nothing was compensated |
| AgentSaga.FailureShape | lib/agent-saga.js:157-285 | a failed saga ran the steps up to the failed one, each on the state the one before left, and then compensated the completed ones; the failed step is among them exactly when its run succeeded, and then its checkpoint failed |
| AgentSaga.FailureRestores | lib/agent-saga.js:157-285 | if compensators undo their steps, a failed saga, resumed or not, ends in the initial state and no compensator throws |
| AgentSaga.ResumeSame | lib/agent-saga.js:128-149 | resuming after a crash gives the same runs, compensations and end as the uninterrupted saga |
| AgentSaga.ResumeIndexExact | lib/agent-saga.js:128-149 | resuming at k continues the crashed saga exactly when k is the number of checkpointed steps |
| AgentIdempotency.Backend.PutIfAbsent | lib/agent-idempotency.js:401-406 | the atomic insert |
| AgentIdempotency.Backend.Resume | lib/agent-idempotency.js:151-325 | every piece of a claim or a put, up to its next await |
| AgentIdempotency.AtMostOneClaim | lib/agent-idempotency.js:151-220 | in every interleaving at most one call is told that a key is unclaimed |
| AgentIdempotency.ClaimStores | lib/agent-idempotency.js:151-185 | a claim of an absent key is told unclaimed and leaves a pending row with its own fingerprint and clock |
| AgentIdempotency.PutEndsStored | lib/agent-idempotency.js:275-325 | a put whose check finds no other fingerprint is accepted whatever runs before its write, which stores its fingerprint, its result and the time of the row it read |
| AgentIdempotency.OthersSeeLastPut | lib/agent-idempotency.js:186-220 | every other claim sees pending, the last put result, or a refusal for another fingerprint |
| AgentIdempotency.FingerprintFixedExactly | lib/agent-idempotency.js:275-325 | the fingerprint of a claimed key stays fixed in all continuations exactly when no put that looked before the claim is about to write another |
| AgentIdempotency.OvertakenPutHappens | lib/agent-idempotency.js:275-325 | such a put, from an empty store |
| AgentIdempotency.OtherFingerprintRefused | lib/agent-idempotency.js:186-220 | a call with another fingerprint is refused and changes nothing |
| AgentIdempotency.OtherArgsRefused | lib/agent-idempotency.js:151-325 | end to end from an empty store: after a claim with a fingerprint inserted a key, with no overtaken put and every put supplying one, every later claim or put with another fingerprint ends refused |
| AgentIdempotency.FirstAtFixedExactly | lib/agent-idempotency.js:275-325 | the time a key was first seen stays fixed in all continuations exactly when every put about to write read the row that holds it |
| AgentIdempotency.ClaimTimeFixedExactly | lib/agent-idempotency.js:151-325 | from a claim on, the stored time is the clock of its turn for good exactly when no put of the key is then about to write |
| ApiCapture.Walker.WalkNode | lib/api-snapshot.js:82-113 | the walk, with its shared set restored, gives the capture; it ends on every object graph |
| ApiCapture.CaptureExactly | lib/api-snapshot.js:82-113 | the tree has a node at a path exactly when the path passes no object twice, stays within the depth cap and has no key `__proto__`; the node says what is there, and `cycle` exactly at an object already passed |
| ApiCapture.DepthBounded | lib/api-snapshot.js:93 | no path of the tree is longer than maxDepth |
| ApiCapture.CaptureSorted | lib/api-snapshot.js:103-111 | members are in the language's enumeration order at every level: array indices by value, then the other keys in sorted order |
| ApiTree.IndexExactly | lib/api-snapshot.js:103-111 | array indices are the numerals without leading zeros of the numbers up to 2^32 - 2 |
| ApiTree.BeforeExactly | lib/api-snapshot.js:103-111 | the enumeration order: indices first and by value, then the other keys in text order |
| ApiTree.LessExactly | lib/api-snapshot.js:103 | text order: a proper beginning, or the smaller character at the first difference |
| ApiCapture.IndicesByValue | lib/api-snapshot.js:103-111 | keys sorted as 10, 9 are listed as 9, 10 |
| ApiCompare.Comparison.WalkCompare | lib/api-snapshot.js:267-351 | what is pushed to the three lists, in order, behind what they held |
| ApiCompatibility.FindingsExactly | lib/api-snapshot.js:267-351 | a finding is listed exactly when it is due at some path, judged from what the two trees have there |
| ApiCompatibility.BreakingExactly | lib/api-snapshot.js:380-398 | nothing breaking is listed exactly when every old path survives with the same kind, constructor and primitive type and no smaller arity |
| ApiCompatibility.NothingMeansEqual | lib/api-snapshot.js:380-398 | for captured trees, nothing is listed exactly when they are equal |
| ApiCompatibility.CompatibleChain | lib/api-snapshot.js:380-398 | comparing a tree with itself lists nothing, and compatibility is transitive |
| ApiCompatibility.TypeChangesAreBreaking | lib/api-snapshot.js:270-279 | the third list is the type changes of the first, in order |
| ApiTree.KindsExactly | lib/api-snapshot.js:82-113 | the six type names, and that two nodes have the same one exactly when they are alike built |
| ApiCompatibility.RenderInjective | lib/api-snapshot.js:288 | printed paths are unambiguous while no key is empty or has a dot |
| ApiCompatibility.RenderExactly | lib/api-snapshot.js:288 | a path prints as its keys with dots between them |
| ApiCapture.SurfaceExactly | lib/api-snapshot.js:82-398 | from graphs to verdict: nothing breaking is listed exactly when every path without `__proto__` that the first capture reaches is reached by the second and serves its callers there |
| ApiCapture.DefaultSurfaceExactly | lib/api-snapshot.js:82-398 | with underscored keys skipped, the default, the exception about `__proto__` is empty |
| ApiCapture.LostProtoUnnoticed | lib/api-snapshot.js:105-109 | otherwise a member `__proto__` can be removed with nothing listed |
| Base32.ShiftIn | lib/acme.js:1355 | one byte shifted into a word that wraps at 32 bits leaves the pending bits exact |
| Base32.Base32lc | lib/acme.js:1349-1366 | the output is the left-aligned 5-bit groups of the input |
| Base32.GroupsSpell | lib/acme.js:1349-1366 | the groups spell the input's bits and fewer than five zeros |
| Base32.SymbolExactly | lib/acme.js:1350 | symbols 0 to 25 are a to z, 26 to 31 are 2 to 7 |
| Base32.EncodeDecode | lib/acme.js:1349-1366 | ceil(8n/5) symbols of the alphabet, and decoding gives the input back |

## Left out

- DpLaws.GaussIsExact: for sigma2 > 0, as `ZeroVarianceFails` says of sigma2 = 0. Weights of the sampler below it are used up to its constant factor; the sum over all integers, and so the constant and the sum over histories, is not computed.
- DpExpLaw.Exp1Brackets: that exp(-x) lies between consecutive Taylor sums is a hypothesis, since exp is abstract.
- Floating point: the snapping Laplace mechanism, rounding of sigma2 to a rational, the closed-form Renyi charges and log(1/delta) are inputs or absent; amounts are reals.
- TarPax.ParseExactly: the runtime's UTF-8 decoder and validity test are parameters, and the order of the three name objections is that of the code.
- TarWalk.WalkExactly: the 512-byte header codec, the UTF-8 codec and the pax time syntax are parameters; the file list that the guards and `inspect` build is not modelled.
- TarRoundTrip.ArchiveReadsBack: for regular files and directories, as the writer makes them; its header codec is the inverse of the one that is a parameter.
- TarExtract.ReadArchive: adapters appear as the bytes they give; the fixed cap on sequential sources, the guard before extraction and the file system are absent.
- Quota.CountersAreLedger: the store is the in-memory one; rounding of float sums is absent.
- QuotaKeys.DecodeEncode: identifiers are strings of Unicode scalar values; lone surrogates, which the source's encoder rejects with an exception, are absent.
- Calendar.WindowContains: the upper end of the language's date range is not modelled, and instants are not negative (see `RemainderWindowExactly`).
- Quota.Budget.Consume: NaN and non-number amounts, and the validation of the options of `create`, are absent throughout the quota model.
- ApiKey.RotatedOutRejected: the best-effort rehash write is modelled as succeeding or finding the row changed, not as failing; rotations of one key do not overlap and new secrets are fresh; sealed columns, scopes, owners, the actor and audit are absent, and hashes are ideal.
- AiRewrite.RewriteUrls: the callback answers after the scan, not during it; the scan does not look at the answers.
- Reference-style definitions, HTML attributes, the regular expressions and the HTML sanitiser of `lib/ai-output.js` are absent.
- AgentSnapshot.ResignPartitionsExactly: signatures and seals are ideal; an envelope that fails the guard or the size cap aborts the pass and is outside the hypothesis.
- AgentStream.DrainAndResume: for rows that carry distinct cursors.
- AgentStream.StreamLosesNothing: every object that `openCursor` gives is taken to have a `close`.
- AgentSaga.ResumeSame: the operator's `loadResumePoint` is taken to give the saved state and the number of checkpointed steps; resumption of finished sagas, which the code refuses, is absent.
- AgentIdempotency.AtMostOneClaim: for a store with an atomic insert and no deletion, expiry or eviction of the key; the replay counter and sealing of results are absent.
- ApiCompatibility.FindingsExactly: for snapshots made by `capture`; malformed nodes read from a file are absent.
- ApiCapture.CaptureExactly: getters, proxies and symbol keys are absent; keys are sorted by character, which differs from code-unit order beyond the Basic Multilingual Plane.
- Base32.EncodeDecode: the host's signed 32-bit view of the word is modelled as residues modulo 2^32; each symbol takes five bits of it, so the sign does not matter.
- The network, HTTP, audit, metrics, hashing, encryption and start-up code of the repository is absent.
