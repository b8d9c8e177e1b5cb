# Tracked-item scheduling, modelled in Dafny

A tracked item is something used repeatedly, such as a medicine, under one or more rate
constraints ("targets"). A target allows at most `Qty` occurrences in every rolling window
of length `Frequency`. The item records each occurrence twice. The *actual* timestamp is
when it happened. The *safety* timestamp is the moment it counts as having happened for the
rate limits. The model covers:

- the three window computations of a target: the status, the earliest permitted time and
  the evenly spaced time;
- the item's combination of all eligible targets (`Qty > 0` and `Frequency > 0`), by
  taking the latest prediction or the worst status;
- the two projections of future due times;
- recording an occurrence, including the retroactive repair of later entries;
- archiving of old entries, and the stock level;
- the urgency ordering of items;
- the first-match claim lookup of the signed-in user;
- the pure helpers of the device-token code: big-endian integers, the re-encoding of a raw
  ES256 signature `R || S` (section 3.4 of RFC 7518) as a DER `Ecdsa-Sig-Value` (section
  2.2.3 of RFC 3279; ITU-T X.690 sections 8.3 and 8.9), and the claim and time-window
  checks.

Time is `Ticks`: a .NET `DateTime` as an unbounded integer count of 100 ns ticks.
`DateTime.MinValue` is 0. Every operation is a pure function. The mutating C# methods
`AddOccurrence` and `CheckForArchiving` return the new item. The retroactive repair in
`AddOccurrence` is written as an in-order fold over the live list, as the C# loop runs.

Files, one module each:

- `wrappers.dfy`: `Option`, `Result` and `Outcome`, plus the `Clock` constants.
- `records.dfy`: `Occurrence`, `StockAcquisition`, `TrackedItemArchive` and the usage sums.
- `target.dfy`: `Targets`, which is `Shared/Target.cs`.
- `tracked_item.dfy`: `Tracking`, which is `Shared/TrackedItem.cs`.
- `projection.dfy`: `Projection`, the feed-back unfolding that both projections use.
- `stable_sort.dfy`: `StableSort`, which is LINQ `OrderBy` on the actual timestamp.
- `comparer.dfy`: `Comparers`, which is `Shared/Comparers/TrackedItemComparer.cs`.
- `auth_user.dfy`: `Auth`, which is `Shared/AuthUser.cs`.
- `jwt.dfy`: `Jwt`, the pure parts of `weathered-base-bad8/src/auth/jwt.ts`.
- `scenarios.dfy`: `Scenarios`, the unit-test scenarios worked through the model.

## Model

| member | source | states |
|---|---|---|
| Targets.MaxStatus | Shared/TrackedItem.cs:33 | The worse of two statuses is one of them and ranks at least as high as both (Ok < AtLimit < OverLimit). |
| Targets.CountAfter | Shared/Target.cs:16-18 | The count is the number of positions whose timestamp lies strictly after the window start. |
| Targets.AtOrAfter | Shared/Target.cs:38-40 | The filtered list has one entry per position whose timestamp is at or after the window start, and its values are exactly the history's timestamps at or after that start. Its order is fixed by the three lemmas below. |
| Targets.AtOrAfterConcat | Shared/Target.cs:38-40 | Filtering a history made of two parts gives the filtered first part followed by the filtered second part, so the filter never reorders. |
| Targets.AtOrAfterAll | Shared/Target.cs:38-40 | A history lying wholly at or after the window start is kept whole, in its own order. For a single timestamp inside the window, the result is that timestamp. |
| Targets.AtOrAfterNone | Shared/Target.cs:38-40 | A history lying wholly before the window start is dropped. For a single timestamp outside the window, the result is empty. Together with the two lemmas above, this makes the filtered list the matching timestamps in history order. |
| Targets.SeqMin | Shared/Target.cs:48 | `Min()` of a non-empty list is an element of the list and is at most every element. |
| Targets.MinBelow | Shared/Target.cs:70 | Nothing exactly when every element is later than the bound. Otherwise an element not later than the bound and not larger than any such element. |
| Targets.MinAtMost | Shared/Target.cs:70 | The smallest element not after `now`, or the default when every element is later. |
| Targets.GetStatus | Shared/Target.cs:12-32 | Ok, AtLimit or OverLimit exactly when the number of timestamps strictly after `now - Frequency` is below, equal to or above `Qty`. |
| Targets.AgeOut | Shared/Target.cs:46-53 | For a full or over-full window, the freed slot is one relevant timestamp plus `Frequency`. |
| Targets.GetEarliestOccurrence | Shared/Target.cs:34-54 | Never before `now`. It is `now` when fewer than `Qty` timestamps are at or after `now - Frequency`. A full window frees its slot at the oldest relevant timestamp plus `Frequency`, and never later than any relevant one. An over-full window frees it at the element `Qty` places from the end of the filtered list, in history order. |
| Targets.ProRata | Shared/Target.cs:72-74 | The spacing step for `used` slots is non-negative and at most one `Frequency` when `used <= Qty`. |
| Targets.GetSpacedOccurrence | Shared/Target.cs:56-93 | Never before the earliest prediction, which is never before `now`. It is `now` for an empty window. Below the limit it is `max(now, anchor + Frequency*count/Qty)`, where the anchor is the minimum relevant timestamp not after `now`, or `MinValue`. At or above the limit it equals the earliest prediction. |
| Targets.BoundaryAsymmetry | Shared/Target.cs:14-61 | A timestamp exactly `Frequency` before `now` leaves the status unchanged but adds one to the window of the two predictions. |
| Targets.EarliestStableUntilDue | Shared/Target.cs:42-48 | For a window that is not over-full, asking again at any moment between `now` and the predicted time gives the same prediction. |
| Targets.EarliestNowIffOkSorted | Shared/Target.cs:20-53 | For a sorted history, the earliest prediction is `now` exactly when the status is Ok. |
| Targets.OverLimitDelaysSorted | Shared/Target.cs:28-53 | For a sorted history, an OverLimit status means the earliest prediction lies strictly after `now`. |
| Targets.OverLimitNotDelayedUnsorted | Shared/Target.cs:38-52 | For the unsorted history `[5, 7, 0]` (qty 1, frequency 10, now 10), the status is OverLimit yet the earliest prediction is `now`. |
| Targets.SpacedSpreadsEvenly | Shared/Target.cs:68-83 | With `k < Qty` relevant timestamps all at `a`, the spaced prediction is `max(now, a + Frequency*k/Qty)`. |
| Tracking.EligibleTargets | Shared/TrackedItem.cs:26 | The filter keeps exactly the targets with `Qty > 0` and `Frequency > 0`. |
| Tracking.CombinedIsLatest | Shared/TrackedItem.cs:51 | `Select(...).Max()` over the eligible targets is one target's prediction, and no target predicts later. |
| Tracking.SpacedCombinedNotBefore | Shared/TrackedItem.cs:53-55 | The combined spaced prediction is never before the combined earliest prediction, so the override can only delay. |
| Tracking.WorstStatus | Shared/TrackedItem.cs:31-33 | The combined status is one target's status, and no target's status ranks higher. |
| Tracking.GetStatus | Shared/TrackedItem.cs:24-34 | Ok when no target is eligible. Otherwise the worst status of the eligible targets over the safety timestamps. |
| Tracking.ProjectStep | Shared/TrackedItem.cs:51-56 | One step is at least the combined earliest prediction, which is at least `now`. It is replaced by the combined spaced prediction exactly when the earliest one is `now` and every eligible `Qty` exceeds 1. |
| Projection.Unfold | Shared/TrackedItem.cs:49-60 | The k-th value produced is the step applied to the history extended by all values produced before it. |
| Tracking.FutureSteps | Shared/TrackedItem.cs:49-60 | `k` values, each the projection step at the fixed `now` over the history extended by the earlier values, and each at least `now`. |
| Tracking.GetFutureOccurrences | Shared/TrackedItem.cs:36-61 | Nothing when no target is eligible. Otherwise exactly `max(count, 0)` values, each at least `now`, each the projection step over the safety timestamps extended by the values before it. The item is not changed. |
| Tracking.SpacedSteps | Shared/TrackedItem.cs:76-84 | The first value is the combined spaced prediction at the cursor. Each later value is that prediction at the previous value, over the history extended by the values before it. The values are non-decreasing and not before the cursor. |
| Tracking.GetFutureSpacedOccurrences | Shared/TrackedItem.cs:63-85 | Nothing when no target is eligible. Otherwise `max(count, 0)` values: a chain whose first value is the spaced prediction at `now` and each later one is the prediction at the previous value. The chain is non-decreasing and never before `now`. |
| Tracking.SafetyAt | Shared/TrackedItem.cs:101 | The safety timestamp for an entry at `stamp` is never before `stamp`. |
| Tracking.Recompute | Shared/TrackedItem.cs:107-110 | The repair keeps length, actual timestamps and stock. It leaves entries before the start position, and entries not after `stamp`, untouched. |
| Tracking.RecomputeFold | Shared/TrackedItem.cs:103-110 | Each repaired entry's safety timestamp is read from the list in which the earlier entries are already repaired and the later ones not yet. |
| Tracking.RecomputeNothingLater | Shared/TrackedItem.cs:103-110 | When no entry happened after `stamp`, the repair changes nothing. |
| Tracking.AddOccurrence | Shared/TrackedItem.cs:89-111 | Exactly one entry is appended, last. It has the given actual timestamp and stock, and a safety timestamp not before it. No entry is reordered or loses its actual timestamp or stock. Entries at or before the timestamp are unchanged. With no eligible target the safety timestamp is the timestamp itself. Nothing but the history changes. |
| Tracking.AddOccurrenceInOrder | Shared/TrackedItem.cs:101-105 | Recording after every existing entry only appends the new entry with its computed safety timestamp. |
| Tracking.AddOccurrenceSafety | Shared/TrackedItem.cs:101 | The new safety timestamp is the latest earliest prediction of the eligible targets over the safety timestamps of entries that happened strictly before it. |
| Tracking.AddOccurrenceRepair | Shared/TrackedItem.cs:103-110 | Every entry that happened after the new one gets the latest earliest prediction over the live list: earlier entries already repaired, later ones not yet, the new entry last. |
| Tracking.AddOccurrenceWithDefault | Shared/TrackedItem.cs:87 | The one-argument overload records with the item's default stock usage. |
| StableSort.Insert | Shared/TrackedItem.cs:119 | Inserting into a sorted list keeps it sorted and adds exactly the new entry to the multiset. |
| StableSort.SortByActual | Shared/TrackedItem.cs:119 | The result is sorted by actual timestamp and is a permutation of the input. Entries with equal actual timestamps keep their input order. Total usage is unchanged. |
| Tracking.CheckForArchiving | Shared/TrackedItem.cs:113-135 | At most 200 entries: no archive, item unchanged. Above 200: an archive carrying the item's id and the creation time, holding 100 entries, with the item keeping the other `n - 100`. Nothing else on the item changes. |
| Tracking.ArchivingPartition | Shared/TrackedItem.cs:119-121 | The archive followed by the kept entries is the stable sort of the history. No archived entry is later than a kept one. |
| Tracking.ArchivingKeepsEverything | Shared/TrackedItem.cs:119-132 | Archived plus kept entries are a permutation of the old history, sorted, with equal timestamps in their original order. |
| Tracking.AddOccurrenceStock | Shared/TrackedItem.cs:137-142 | Recording an occurrence lowers the computed stock level by exactly its usage (none counts as zero). |
| Tracking.ArchivingStock | Shared/TrackedItem.cs:132-141 | Archiving raises the stock level computed from the item alone by the usage of the archived entries. |
| Comparers.MaxActual | Shared/Comparers/TrackedItemComparer.cs:26-27 | The latest actual timestamp is one entry's and is not exceeded by any entry. |
| Comparers.NextDue | Shared/Comparers/TrackedItemComparer.cs:41-42 | `MaxValue` when no target is eligible. Otherwise the first projected occurrence, which is never before `now`. |
| Comparers.CompareTicks | Shared/Comparers/TrackedItemComparer.cs:44 | `CompareTo` is -1, 0 or 1 exactly when the first time is earlier, equal or later. |
| Comparers.Compare | Shared/Comparers/TrackedItemComparer.cs:20-58 | Items without history compare equal. An item with history is greater than one without. A last use more than one day later wins. Within a day either way, the item due sooner is greater and equal due times give 0. |
| Comparers.CompareDescending | Shared/Comparers/TrackedItemComparer.cs:12-15 | The descending comparer is the negation of the ordering, which equals the ordering with the arguments swapped. |
| Comparers.CompareAntisymmetric | Shared/Comparers/TrackedItemComparer.cs:20-58 | Swapping the arguments negates the result. |
| Comparers.CompareReflexive | Shared/Comparers/TrackedItemComparer.cs:20-58 | Every item compares equal to itself. |
| Comparers.CompareNotTransitive | Shared/Comparers/TrackedItemComparer.cs:29-45 | Items last used at day 0, 1 and 2 compare equal pairwise for neighbours, but the day-0 item is less than the day-2 item. |
| Auth.FirstValue | Shared/AuthUser.cs:22-30 | The value of the first claim of the requested type, no claim of that type appearing before it. The empty string when no claim has the type. |
| Auth.GetClaimValue | Shared/AuthUser.cs:22-30 | The loop returns what the first-match lookup defines. |
| Auth.FirstValueIgnoresLater | Shared/AuthUser.cs:24-28 | Claims after the first match never affect the result. |
| Auth.FirstValueSkipsUnmatched | Shared/AuthUser.cs:24-29 | A prefix of claims of other types is skipped entirely. |
| Auth.AccessorsReadTheirClaims | Shared/AuthUser.cs:32-35 | `FirstName`, `LastName`, `Email` and `Name` read `given_name`, `family_name`, `emails` and `name`. |
| Auth.DefaultUserIsAnonymous | Shared/AuthUser.cs:20 | A default user has no claims, so all four accessors give the empty string. |
| Jwt.BytesToBigInt | weathered-base-bad8/src/auth/jwt.ts:69-73 | The big-endian value of `n` bytes is below `256^n`. |
| Jwt.Digits | weathered-base-bad8/src/auth/jwt.ts:77-83 | The base-256 digits of `v`: none for 0, a non-zero leading digit otherwise, and their big-endian value is `v`. |
| Jwt.MinimalUnsigned | weathered-base-bad8/src/auth/jwt.ts:75-90 | Zero gives `[0]`. A positive value gives a non-empty encoding whose big-endian value is the value. A negative value gives no bytes, because the digit loop never runs. |
| Jwt.MinimalUnsignedIsMinimal | weathered-base-bad8/src/auth/jwt.ts:85-87 | The first byte has its sign bit clear. A leading zero appears only before a byte with the high bit set, or for the value 0. |
| Jwt.MinimalUnsignedLength | weathered-base-bad8/src/auth/jwt.ts:75-90 | A value below `256^n` encodes to between 1 and `n + 1` bytes. |
| Jwt.DerInteger | weathered-base-bad8/src/auth/jwt.ts:105-106 | An INTEGER is tag 0x02, a length byte equal to the body length, then the body. |
| Jwt.SigValue | weathered-base-bad8/src/auth/jwt.ts:107-111 | The SEQUENCE starts with 0x30 and a length byte counting every byte after the header. |
| Jwt.RawEcdsaSigToDer | weathered-base-bad8/src/auth/jwt.ts:92-112 | A signature that is not 64 bytes is returned unchanged when it is non-empty and starts with 0x30, and is otherwise rejected with its length. |
| Jwt.ParseEcdsaSigValue | weathered-base-bad8/src/auth/jwt.ts:105-111 | An independent DER reader. Whatever it accepts starts with the SEQUENCE tag 0x30 and a short-form length equal to the number of bytes after the header. |
| Jwt.ParseEncoded | weathered-base-bad8/src/auth/jwt.ts:105-111 | Reading back the SEQUENCE built from two minimal INTEGER bodies gives their big-endian values. |
| Jwt.RawEcdsaSigToDerRoundTrip | weathered-base-bad8/src/auth/jwt.ts:100-111 | A 64-byte signature always converts. The SEQUENCE length is at most 70, so the overlong-sequence guard never fires. Reading it back gives the two 32-byte halves as integers. |
| Jwt.MinimalHalf | weathered-base-bad8/src/auth/jwt.ts:100-103 | A 32-byte half encodes to a minimal INTEGER body of at most 33 bytes. |
| Jwt.ValidateClaims | weathered-base-bad8/src/auth/jwt.ts:155-191 | Accepts exactly when kid and sub are non-empty and equal the thumbprint, iat and exp are numbers, `iat <= now + 300`, `exp >= now - 300` and `exp - iat <= 2592000`. A missing kid is reported before a missing sub, and each time error is reported only when its condition holds. |
| Jwt.AcceptedWindow | weathered-base-bad8/src/auth/jwt.ts:179-191 | An accepted token was issued no more than 30 days and 5 minutes ago, and expires no more than 30 days and 5 minutes from now. |
| Jwt.GetJwtSubject | weathered-base-bad8/src/auth/jwt.ts:229-238 | The subject is returned exactly when it is a non-empty string. Otherwise "Missing JWT sub". |
| Jwt.AcceptedSubjectIsThumbprint | weathered-base-bad8/src/auth/jwt.ts:156-168 | The subject of a token that passed the claim checks is the key thumbprint. |
| Scenarios.OncePerDay | Shared.Tests/Target.tests.cs:12-38 | Once a day: free at noon on 28 and 29 February, then due at noon on 1 March. |
| Scenarios.FourPerDaySpaced | Shared.Tests/Target.tests.cs:100-130 | Four a day, spaced, asked at noon as occurrences pile up: 12:00, 18:00, 00:00, 06:00, 12:00. |
| Scenarios.SafetyDelayedByFourHourRule | Shared.Tests/TrackedItem.tests.cs:270-280 | With four-a-day and one-per-four-hours, 19:00 recorded after 12:00 and 16:00 counts from 20:00. |
| Scenarios.OutOfOrderRepairs | Shared.Tests/TrackedItem.tests.cs:337-355 | Recording 23:00 after 02:00 of the next day leaves 23:00 free at once and moves the later entry's safety timestamp from 02:00 to 03:00. |
| Scenarios.ReplayOrderMatters | Shared/TrackedItem.cs:103-110 | The same three occurrences recorded forwards and backwards end with different safety timestamps. |

## Where the code does less than its names suggest

In a few places the code's behaviour is narrower than its method and variable names
suggest. The model follows the code, and each case is stated as a lemma. None of them is
claimed as a bug in the code, because the unit tests of the system expect the behaviour
as written where they reach it. So no corrected definition replaces
the code's behaviour anywhere in the model.

- The filtered window list keeps the caller's order. The over-full branch of
  `Target.GetEarliestOccurrence` indexes that list without sorting it (Shared/Target.cs:38-40,
  52). For sorted histories, an OverLimit status always delays the next occurrence
  (`Targets.OverLimitDelaysSorted`). For an unsorted one it need not
  (`Targets.OverLimitNotDelayedUnsorted`).
- "The earliest time is `now` exactly when fewer than `Qty` timestamps are in the window"
  holds in one direction only. Counting the boundary as `GetEarliestOccurrence` does, a
  full window whose oldest entry sits on the boundary frees its slot right now. The first
  step of `Scenarios.OncePerDay` is such a case. The model proves the sufficient direction
  in the contract of `Targets.GetEarliestOccurrence`. For sorted histories it proves the
  exact statement, which counts strictly inside the window (`Targets.EarliestNowIffOkSorted`).
- The anchor of the spaced branch, named `mostRecentOccurrence`, is the minimum relevant
  timestamp not after `now`, defaulting to `DateTime.MinValue` (Shared/Target.cs:70). The
  contract of `Targets.GetSpacedOccurrence` states it that way.
- The retroactive repair of `AddOccurrence` reads the live list in list order. Each
  repaired entry therefore sees the entries already repaired before it
  (`Tracking.RecomputeFold`, `Tracking.AddOccurrenceRepair`). The result depends on the
  order in which occurrences were recorded (`Scenarios.ReplayOrderMatters`).
- The urgency ordering treats items last used within a day of each other as tied before
  looking at due times. That tie is not transitive (`Comparers.CompareNotTransitive`).
- `CalculateCurrentStockLevel` sums only the live history. Archiving therefore raises the
  stock level computed from the item alone (`Tracking.ArchivingStock`).

## Left out

- Targets.GetEarliestOccurrence: requires `Qty > 0`. For `Qty <= 0` the C# code throws:
  `Min()` of an empty list at Shared/Target.cs:48, or an out-of-range index at
  Shared/Target.cs:52. Every caller passes only eligible targets, so those throw paths are
  not modelled.
- Targets.GetSpacedOccurrence: requires an eligible target (`Qty > 0`, `Frequency > 0`).
  The C# code's behaviour for other targets is not modelled, because every caller passes
  only eligible targets. That behaviour includes the out-of-range index at
  Shared/Target.cs:91 for `Qty <= 0` with a non-empty window. It also includes the throw
  of `DateTime.MinValue.Add` on the negative step of a negative `Frequency`, at
  Shared/Target.cs:76.
- Targets.GetStatus: ticks are unbounded integers. The `ArgumentOutOfRangeException` that
  `now - Frequency` raises below `DateTime.MinValue` (Shared/Target.cs:14) is not modelled.
- Targets.GetEarliestOccurrence: likewise, the range overflow of `now - Frequency` and
  `Add(Frequency)` beyond `DateTime.MaxValue` (Shared/Target.cs:36, 48, 52) is not modelled.
- Targets.GetSpacedOccurrence: likewise, the range overflow at Shared/Target.cs:58, 76, 87
  and 91 is not modelled.
- Targets.ProRata: Shared/Target.cs:74 computes the step in double milliseconds through
  `TimeSpan.FromMilliseconds`. The model uses exact integer ticks, `Frequency*count/Qty`
  rounded down. The two differ when the frequency is not evenly divisible.
- Records.Occurrence: the C# `decimal?` stock usage is a `real`. The precision and range
  limits of `decimal` are not modelled.
- Records.StockAcquisition: the C# `decimal` quantity is a `real`, for the same reason.
- Comparers.Compare: Shared/Comparers/TrackedItemComparer.cs:41-42 reads `DateTime.UtcNow`
  once per item. The model uses one `now` for both, so two readings that straddle a tick
  are not modelled.
- Tracking.CheckForArchiving: the `Guid` item id is a natural number, and the creation
  time `DateTime.UtcNow` (Shared/TrackedItem.cs:128) is the parameter `createdAt`.
- Jwt.ValidateClaims: `iat` and `exp` are JavaScript numbers (weathered-base-bad8/src/auth/jwt.ts:170-177).
  They may be fractional, and a non-finite or non-number value is rejected. The model
  takes them as optional integers, with `None` for the rejected values, so fractional
  claims are not modelled.
- Jwt.ValidateClaims: the JWK thumbprint (RFC 7638; `getEs256PublicJwkThumbprint`,
  weathered-base-bad8/src/auth/jwt.ts:51-67, used at :154) is a parameter. The SHA-256
  digest, the JSON canonicalisation, and the throw for a non-P-256 key are not modelled.
- Jwt.ValidateClaims: `Date.now()` is the parameter `nowSeconds`. The token split and the
  header/payload decoding at weathered-base-bad8/src/auth/jwt.ts:147-152 are not modelled;
  the decoded fields are the input.
- Jwt.GetJwtSubject: the token split, the "Invalid JWT format" throw, and the
  base64url/JSON decoding of the payload (weathered-base-bad8/src/auth/jwt.ts:230-232) are
  not modelled. The decoded `sub` field is the input, as an `Option<string>`.
- `verifyEs256JwtSignature`, `extractJwk`, `getBearerToken`, `tryParseJson`,
  `asJsonWebKey`, `decodeJwtJsonPart`, and base64url encoding and decoding: these call
  `crypto.subtle`, `atob`/`btoa`, `TextEncoder`, JSON parsing or the HTTP request, none of
  which is modelled.
- `TrackedItem` metadata (`Name`, `Category`, `Favourite`) is not modelled, because no core
  operation reads it. `DefaultStockUsage`, `Targets`, `PastOccurrences`,
  `StockAcquisitions` and `Id` are modelled.
- `AuthUser` JSON property names and `AuthResponse` are serialisation details and are not
  modelled.
- Everything outside the files named in "## Model" is not part of this model: the browser
  scripts, client services, API endpoints, durable objects and DTOs. They are I/O, timers
  and serialisation.
