# Verified models of the toolbox services

Dafny models of the algorithms behind the service's endpoints, with proofs of what they promise.
`dafny verify dfyconfig.toml` checks everything.

## What is modelled

- **JSON patch and diff** (`Json*.dfy`). The two walkers append printed entries to a list all levels
  share; the applier changes a document in place. The values it puts in are the objects of the
  patch and of the second document, so writing into one changes all three: a node of the document
  carries the place in the second document where its value stands, and the run keeps what has
  become of each value. The main theorem says for all documents exactly when the patch leads from
  the first to the second; another says exactly when a library that follows RFC 6901 and RFC 6902
  agrees. Pointers are printed and read back as text; diff changes and counts, patch length and the
  structural limits are tied to the same edits.
- **Rate limiter** (`RateLimit.dfy`, `RateLimitRuns.dfy`, `RateLimitExact.dfy`,
  `RateLimitWindows.dfy`) and **cache** (`Cache.dfy`,
  `CacheProtocol.dfy`). Bounded tables with eviction against unbounded ones, two limiter backends
  against each other, and the coalescing lookup as interleaved steps of any number of callers.
- **Body guard** (`ScanGuard.dfy`). A byte automaton fed in chunks against a grammar of JSON text.
- **Schedules** (`Calendar.dfy`, `Cron*.dfy`). Field expansion, the calendar search, its horizon,
  and what generated expressions mean.
- **Passwords** (`Password.dfy`), **versions and ranges** (`SemVer.dfy`), **browser permits and
  budgets** (`Browser.dfy`, `BrowserBudgets.dfy`), **XML and JSON trees** (`Xml.dfy`, `XmlConvert.dfy`,
  `XmlService.dfy`, `XmlReread.dfy`, `XmlLimits.dfy`),
  **identifiers** (`Identifiers.dfy`, `UuidV7.dfy`), **colours** (`Colors.dfy`, `Rounding.dfy`), **image quality and
  page slices** (`Imaging.dfy`).

`Text.dfy` holds the string operations of Python that several modules need.

Python integers are unbounded and so are Dafny's; times are integer milliseconds; `//`, `%`, `int`,
`split`, `strip` and `round` are written out with Python's rules where they matter. Random draws are
arbitrary choices within their range, and clocks are parameters.

## Where code and documentation differ

The models follow the code.

- `docs/api.md:647` says any JSON Patch library can apply the patch. The root is printed as `/` and
  items of an array document as `//0`, which RFC 6901 reads as empty keys; `WrittenPatch` says for
  which documents the claim holds.
- The patch reader drops empty components, so a difference under an empty key makes the patch miss
  (`PatchExact`, `EmptyKeyFails`). The service then reports it as not transformable.
- In that case the trial application can also write into a value of the patch before the patch is
  returned (`PatchChanged`), and a library is then led elsewhere (`ReturnedPatchWrong`).
- Of a converted XML document nested 101 levels deep the JSON text is refused on the way back, although
  the limit on elements is 200 levels (`ThereAndBack`, `DeepTreeRefused`).
- When more keys are alive than the memory limiter holds, it drops live counters and then answers some
  next request otherwise than the script would (`LimiterExact`); it can grant more (`CrowdedExceeds`).
- `docs/api.md:884` names SemVer 2.0.0, but the service ranks a prerelease above its release
  (`PrecedenceExact`, `PrereleaseAbove`).
- `app/schemas/password.py:10` says digits are excluded, but a request that requires no category gets the
  fallback pool, which holds them (`Excluded`, `ExcludedDigits`).
- A context creation that is cancelled keeps its permit, because the handler for failures does not
  catch cancellation (`PermitsConserved`, `CancelledPermitLost`).
- A dated description such as "on march 5, 2026 at 09:30" loses its year: the expression recurs every
  year (`GeneratedMeans`, `YearForgotten`).
- A schedule field such as "," is accepted as an empty set, which never matches (`EmptyExactly`,
  `CommaField`).
- The five-year horizon of the schedule search misses 29 February across a century without its leap
  day (`FoundExactly`, `SkippedLeapDay`).
- A ULID of the year 10000 or later is well formed but makes the validator raise (`GeneratedAccepted`,
  `YearTenThousandRaises`).

## Model

| member | source | states |
|---|---|---|
| `JsonPointer.UnescapeEscape` | app/services/data_tools_service.py:62-65 | reading an escaped component gives the component back, for every text, with any "~" and "/" |
| `JsonPointer.ParsePointer` | app/services/data_tools_service.py:62-65 | a printed pointer reads back as its non-empty components, in order |
| `JsonPointer.PointerRoundTrip` | app/services/data_tools_service.py:165-169 | printing and reading a pointer is the identity if and only if no component is empty |
| `JsonPointer.ParseItemPointer` | app/services/data_tools_service.py:139-143 | the path of an added or removed item, also at the root, reads back as the array's path and the index |
| `JsonPatchStandard.StandardText` | app/services/data_tools_service.py:62-65 | read by RFC 6901 instead, a printed path names its location if and only if that is neither the root nor an item added to or removed from an array document |
| `JsonPatchStandard.AddressedExactly` | app/services/data_tools_service.py:117-145 | a standard reader understands every path of the patch if and only if the documents are equal, two objects, or two arrays of one length |
| `JsonPatchStrict.StrictWorks` | docs/api.md:647 | for all documents, also with an empty key: located by its components, every operation works by the strict rules of RFC 6902 and the run ends in the second document, with the values the operations carry |
| `JsonPatchStandard.WrittenPatch` | docs/api.md:647 | the walker's patch, read by RFC 6901 and applied by RFC 6902, yields the second document if and only if the documents are equal, two objects, or two arrays of one length |
| `JsonPatchStandard.ReturnedPatch` | docs/api.md:647 | the returned patch does so if and only if moreover the trial application left every value in it equal to the one given; for pairs without a difference under an empty key it always has |
| `JsonPatchStandard.ReturnedPatchWrong` | docs/api.md:647 | two objects whose returned patch a standard library does not turn into the second |
| `JsonPatchApart.ApartUntouched` | app/services/data_tools_service.py:161-191 | before any run: if no path, as it is read, may lead one component below a null of the first document or into a container or null that an earlier operation put in place, the trial application leaves every value as the walker found it |
| `JsonPatchApart.ReturnedApart` | docs/api.md:647 | the returned patch is then the written one, and yields the second document if and only if the pair is portable |
| `Json.EqualMeans` | app/services/data_tools_service.py:58-60 | documents are equal if and only if they are the same once truth values, integers and decimals are read as numbers and the order of members is forgotten |
| `Json.NumbersEqual` | app/services/data_tools_service.py:58-60 | two numbers are equal exactly when they have the same value, true being 1 and false 0, and a number equals nothing else |
| `Json.DeepEqualReflexive` | app/services/data_tools_service.py:58-60 | document equality is reflexive |
| `Json.DeepEqualSymmetric` | app/services/data_tools_service.py:58-60 | document equality is symmetric |
| `Json.DeepEqualTransitive` | app/services/data_tools_service.py:58-60 | document equality is transitive |
| `JsonShared.Document.constructor` | app/services/data_tools_service.py:149-150 | the document starts as a copy of the target that shares nothing |
| `JsonShared.Document.Apply` | app/services/data_tools_service.py:161-191 | one operation on the document in place: it fails or leaves exactly the specified document, and changes every inserted value it reaches into |
| `JsonShared.Document.ResolveLoop` | app/services/data_tools_service.py:152-159 | walking down component by component finds the node at the path or fails |
| `JsonShared.ApplyPatch` | app/services/data_tools_service.py:148-192 | applying a patch is running its operations in order, each on the document and the shared values the one before left |
| `JsonShared.EraseEdit` | app/services/data_tools_service.py:161-191 | sharing does not show in the document itself: it evolves as if values were copied |
| `JsonSharedFrames.NodeLocality` | app/services/data_tools_service.py:152-190 | edits under one component act on that member and on the values inside it alone |
| `JsonMutated.ValueInside` | app/services/data_tools_service.py:117-192 | whatever the run did to it, the value of an operation lies as deep in the second document as its location says |
| `JsonSharedKinds.MutatedDiffers` | app/services/data_tools_service.py:117-192 | documents that differed still differ after the second has been changed through shared values |
| `JsonSharedDirty.SlotOverwritten` | app/services/data_tools_service.py:117-192 | a member overwritten by a value from inside its own counterpart never catches up with it |
| `JsonSharedDirty.DirtyOff` | app/services/data_tools_service.py:117-192 | a difference under an empty key below the root makes the run fail or miss what the second document has become |
| `JsonPatchTheorem.Locality` | app/services/data_tools_service.py:152-190 | edits under one key or index end in the container as it was, with that member's own result in its place |
| `JsonPatchTheorem.Descend` | app/services/data_tools_service.py:152-159 | the first component selects the member on which the rest of the path acts |
| `JsonPatchTheorem.AddsRun` | app/services/data_tools_service.py:138-140 | adds with rising indices at or beyond the end append the missing items in order |
| `JsonPatchTheorem.RemovesRun` | app/services/data_tools_service.py:141-143 | removes from the last index downwards leave exactly the first items: no index shifts before it is used |
| `JsonPatchTheorem.IndexTexts` | app/services/data_tools_service.py:157-190 | a written index counts from the start and a negative one from the end; an insertion beyond either end is made at that end |
| `JsonPatchTheorem.CleanLocated` | app/services/data_tools_service.py:117-145 | without a difference under an empty key every edit of two containers keeps part of its path |
| `JsonPatchTheorem.CleanRuns` | app/services/data_tools_service.py:117-192 | for such containers every edit finds its target and the run ends in a document equal to the second |
| `JsonPatchConverse.KeyFrames` | app/services/data_tools_service.py:152-190 | edits under other keys leave a key's member alone |
| `JsonPatchConverse.ItemFrames` | app/services/data_tools_service.py:152-190 | edits at later indices leave an item alone |
| `JsonPatchConverse.OnlyFirstUnlocated` | app/services/data_tools_service.py:117-145 | only the first edit of a walk can lose its whole path to the reader |
| `JsonPatchExact.CleanQuiet` | app/services/data_tools_service.py:117-192 | without such a difference every value is put in place once and no operation enters what another put there |
| `JsonPatchExact.DirtyNeverTransforms` | app/services/data_tools_service.py:117-192 | with one, the whole application, values shared, fails or misses what the second document has become |
| `JsonPatchExact.PatchExact` | app/services/data_tools_service.py:117-192 | for all documents, with values shared between patch, first and second document: the patch applied to the first gives what the second has become if and only if no difference sits under an empty key, and then no value was changed |
| `JsonPatchExact.NoEmptyKeyClean` | app/services/data_tools_service.py:165-169 | documents without empty keys always meet that condition |
| `JsonExamples.EmptyKeyFails` | app/services/data_tools_service.py:165-169 | a concrete pair on which the generated patch does not work |
| `JsonExamples.PatchChanged` | app/services/data_tools_service.py:213-223 | a concrete pair whose reported patch is not the one the walker wrote: the second operation writes into the value of the first |
| `JsonPatchShape.EditsApart` | app/services/data_tools_service.py:117-145 | no two operations of a patch address the same place or places inside one another |
| `JsonPatchShape.PatchLength` | app/services/data_tools_service.py:117-145 | a patch has at most as many operations as the two documents have nodes together |
| `JsonService.ReadText` | app/services/data_tools_service.py:62-65 | every text the walker prints reads back as the location without its empty components |
| `JsonService.RunRendered` | app/services/data_tools_service.py:148-192 | running the printed operations is running the edits, on the document and on the shared values |
| `JsonService.OpList.Append` | app/services/data_tools_service.py:117-145 | one operation is appended to the list that all levels share |
| `JsonService.PatchWalk` | app/services/data_tools_service.py:117-145 | the walker appends exactly the specified edits, printed under its path; it raises on depth or length only beyond the limit |
| `JsonService.AppendAdds` | app/services/data_tools_service.py:138-140 | the adds are appended with rising indices |
| `JsonService.AppendRemoves` | app/services/data_tools_service.py:141-143 | the removes are appended with falling indices |
| `JsonService.ComparePatch` | app/services/data_tools_service.py:213-223 | a document is refused if and only if it is too deep or too large; the walker's depth guard then never fires; otherwise the report carries the walker's operations with the values the trial application left in them, none if and only if the documents have the same canonical form, calls the patch transformable if and only if no difference sits under an empty key, and is then the walker's own patch |
| `JsonDiff.ChangesTell` | app/services/data_tools_service.py:67-115 | every change of a diff is true of the two documents: what it says was removed, added or modified stands there |
| `JsonDiff.ChangesMatchEdits` | app/services/data_tools_service.py:67-145 | changes and patch operations correspond one to one: same places, added to add, removed to remove, modified to replace |
| `JsonDiff.DiffReport` | app/services/data_tools_service.py:196-211 | a diff has no change if and only if the documents are equal, and as many changes as the patch has operations |
| `JsonDiffService.DiffWalk` | app/services/data_tools_service.py:67-115 | the walker appends exactly the specified changes, printed under its path; it raises on depth or length only beyond the limit |
| `JsonDiffService.TallySame` | app/services/data_tools_service.py:201-203 | the counts per kind do not depend on the order of the entries |
| `JsonDiffService.CompareDiff` | app/services/data_tools_service.py:196-211 | a document is refused if and only if it is too deep or too large; the depth guard then never fires; otherwise the report lists the changes, says equal exactly for documents with the same canonical form, and its counts are the adds, removes and replaces of the patch and sum to the total |
| `JsonLimits.ValidateJsonStructure` | app/core/limits.py:10-24 | the stack walk passes if and only if the recursive node count and depth are within the limits, and names a limit that is exceeded |
| `RateLimit.MemoryRateLimiter.constructor` | app/core/ratelimit.py:32-36 | a new limiter is empty and keeps at least one key |
| `RateLimit.MemoryRateLimiter.Check` | app/core/ratelimit.py:38-61 | one check is one step of the specified table: cleanup, eviction of an oldest entry, decision and new count |
| `RateLimit.CleanupDrops` | app/core/ratelimit.py:43-45 | a cleanup keeps exactly the entries that a window of the request's length still covers |
| `RateLimit.AlwaysBounded` | app/core/ratelimit.py:38-61 | in every run whatsoever the table never exceeds its maximum |
| `RateLimit.EvictsExpired` | app/core/ratelimit.py:44-53 | while fewer other keys are alive than the table holds, the entry evicted is always an expired one |
| `RateLimit.StepAgrees` | app/core/ratelimit.py:38-61 | one check decides as the unbounded table does and keeps the two in agreement |
| `RateLimit.BoundedAgrees` | app/core/ratelimit.py:38-61 | with one window, a monotone clock and fewer live other keys than the maximum, every decision of the run is that of an unbounded, never cleaned counter per key |
| `RateLimit.BisimilarStep` | app/core/ratelimit.py:70-98 | one request keeps the count of the unbounded counter equal to the smaller of the script's count and the limit, with the same end of window |
| `RateLimit.BackendsAgree` | app/core/ratelimit.py:38-98 | with limit and window fixed per key, the unbounded counter and the script give the same allowed and remaining on every request of every run |
| `RateLimit.SpanBound` | app/core/ratelimit.py:54-61 | grants of the unbounded counter in a span of one window's length, from any state of the key |
| `RateLimit.AnySpan` | app/core/ratelimit.py:54-61 | for the unbounded counter no span of one window's length holds more than twice the limit less one grants |
| `RateLimit.SpanBoundMet` | app/core/ratelimit.py:54-61 | a run that reaches this bound |
| `RateLimitRuns.LimiterAgrees` | app/core/ratelimit.py:38-61 | in every run of the limiter that drops no entry still inside its window, every decision is that of the unbounded counter |
| `RateLimitRuns.UncrowdedKeepsLive` | app/core/ratelimit.py:44-53 | with one window, a monotone clock and fewer live other keys than places no such entry is dropped |
| `RateLimitRuns.LimiterMatchesScript` | app/core/ratelimit.py:38-98 | the limiter then gives the script's allowed and remaining on every request of the run |
| `RateLimitRuns.LimiterSpan` | app/core/ratelimit.py:38-61 | and grants a key at most twice the limit less one in any span of one window's length |
| `RateLimitRuns.CrowdedExceeds` | app/core/ratelimit.py:50-53 | a crowded run in which the limiter grants more than that bound and the script refuses |
| `RateLimitExact.NextExactly` | app/core/ratelimit.py:38-61 | in any state: every request that may come next is answered as by the unbounded counter if and only if the two hold the same live entries; a missing or different one shows in the answer to some request of its key |
| `RateLimitExact.NextOfRun` | app/core/ratelimit.py:38-98 | at any point of any run, crowded or not, the limiter answers every possible next request as the script would if and only if it holds the live entries of the unbounded counter |
| `RateLimitExact.LimiterExact` | app/core/ratelimit.py:38-98 | it does so throughout a run if and only if the run never drops an entry of another key inside its window |
| `RateLimitWindows.ResetOfChecks` | app/core/ratelimit.py:38-61 | in any state: a request of the same key once the reset time has passed begins a new window with all but one grant left; a second before that the old window goes on, one grant fewer or still refused |
| `RateLimitWindows.ResetInRun` | app/core/ratelimit.py:38-61 | the same for two requests of a key in a run that drops no live entry |
| `RateLimitWindows.FirstOpens` | app/core/ratelimit.py:54-61 | the first request of a key begins a window as long as its policy says |
| `RateLimitWindows.WindowExact` | app/core/ratelimit.py:54-61 | a window decides every later answer of its key: until it ends, allowed, remaining and reset time follow from the number of requests since it began and the clock; the first request after its end begins the next one |
| `RateLimit.KeyPinsPolicy` | app/core/middleware.py:146-180 | two requests with the same counter key have the same policy and client, so limit and window are fixed per key |
| `Cache.MemoryCache.constructor` | app/repositories/cache.py:77-87 | a new cache is empty and holds at least one entry |
| `Cache.MemoryCache.GetRaw` | app/repositories/cache.py:115-125 | a lookup returns the live value or nothing, and drops the entry when it is expired |
| `Cache.MemoryCache.Set` | app/repositories/cache.py:132-148 | a time to live below one is refused; otherwise the entry is stored, after evicting a soonest-to-expire one when the cache is full |
| `Cache.MemoryCache.Delete` | app/repositories/cache.py:150-153 | exactly the named entry goes |
| `Cache.AlwaysBounded` | app/repositories/cache.py:115-153 | in every run the cache never exceeds its maximum, and a lookup returns only what the last write to its key inserted, before its time to live is over |
| `Cache.ReturnedIsStored` | app/repositories/cache.py:115-148 | a value returned was put by the last accepted write to its key, at a time from which its time to live is not over |
| `Cache.EvictsExpired` | app/repositories/cache.py:139-146 | while fewer other keys are live than the cache holds, the entry evicted is always expired |
| `Cache.BoundedAgrees` | app/repositories/cache.py:115-153 | as long as that is so at each insertion, every lookup of the run agrees with an unbounded map of timed entries |
| `Cache.LookupExactly` | app/repositories/cache.py:115-153 | such a run returns a value if and only if the last accepted write to the key put it and its time to live is not over |
| `CacheProtocol.LocksAlways` | app/repositories/cache.py:98-113 | in every interleaving a key has one lock object, and whoever is inside holds its key's lock |
| `CacheProtocol.OneFactoryPerKey` | app/repositories/cache.py:158-183 | in every interleaving at most one caller per key is inside the lock, so at most one factory of a key runs at any time |
| `CacheProtocol.ReturnsOwnKey` | app/repositories/cache.py:158-183 | in every interleaving each stored or returned value was produced or set for its own key |
| `CacheProtocol.SingleFlight` | app/repositories/cache.py:158-183 | without expiry, eviction, delete, failure or None result each factory runs at most once and all callers of a key return the same value |
| `ScanGuard.Guard.constructor` | app/core/middleware.py:276-281 | the guard starts outside strings at depth zero |
| `ScanGuard.Guard.Receive` | app/core/middleware.py:282-312 | one chunk is objected to if and only if the size, or the depth or count after some byte, exceeds its limit; otherwise the state is that after all its bytes |
| `ScanGuard.FeedConcat` | app/core/middleware.py:289-312 | scanning two pieces in a row is scanning them joined, also inside strings and escapes |
| `ScanGuard.ChunksIrrelevant` | app/core/middleware.py:282-312 | how a body is split into chunks makes no difference |
| `ScanGuard.FeedNode` | app/core/middleware.py:289-312 | the text of any JSON value, with white space, escapes and braces inside strings, moves the scanner exactly by its nesting and container count |
| `ScanGuard.GuardExact` | app/core/middleware.py:276-312 | for every JSON text and every split, the guard objects if and only if nesting or container count exceeds its limit |
| `ScanGuard.HeightWithinNesting` | app/core/limits.py:10-24 | the depth the stack walk measures is at most the nesting the scanner measures |
| `ScanGuard.PassImpliesShallow` | app/core/middleware.py:276-312 | a body that passes the scanner at a depth passes the stack walk's depth check at that depth |
| `Cron.NextTimes` | app/services/cron_service.py:285-319 | the result is exactly the first matching minutes of the horizon, not before the reference, strictly increasing, none skipped or repeated, as many as asked for if there are; with one weekday and every day of the month open all of them fall on that weekday |
| `Cron.StampOrder` | app/services/cron_service.py:306-316 | increasing means later by year, month, day, hour and minute |
| `Cron.WalkDays` | app/services/cron_service.py:300-318 | the calendar walk collects what the visit of all days in order offers |
| `Cron.CollectDay` | app/services/cron_service.py:306-316 | the two inner loops collect the day's candidates in order, skipping those before the reference and stopping when enough are found |
| `Cron.FirstOnes` | app/services/cron_service.py:271-319 | collecting that visit gives exactly the first due minutes, under the either-or rule for restricted day fields |
| `Calendar.NextDayOrdinal` | app/services/cron_service.py:317-318 | the next day's number is one higher and its date valid, so days are walked without gap |
| `Calendar.WeekdayFormula` | app/services/cron_service.py:301 | for every valid date the weekday is that of Zeller's congruence in year, month and day |
| `Calendar.WeekdayNext` | app/services/cron_service.py:301-318 | the next day is the next weekday |
| `Calendar.MillenniumSaturday` | app/services/cron_service.py:301 | 1 January 2000 is a Saturday |
| `CronHorizon.CommonYearFound` | app/services/cron_service.py:27-28 | a schedule with non-empty fields whose day fields can be met in a common year has a time within the horizon of every reference |
| `CronHorizon.OnlyLeapDays` | app/services/cron_service.py:271-283 | a time of any other schedule is on 29 February of a leap year |
| `CronHorizon.FoundExactly` | app/services/cron_service.py:285-319 | a result exists if and only if hours and minutes are given and either the day fields can be met in a common year or a leap day that they take lies in the horizon, not before the reference |
| `CronHorizon.LeapDayFound` | app/services/cron_service.py:27-28 | such a leap day is found, also on the reference's own date while a time is left |
| `CronHorizon.LeapDayNeeded` | app/services/cron_service.py:271-319 | a result of a schedule that no common year meets shows such a leap day |
| `CronHorizon.LateLeapDay` | app/services/cron_service.py:27-28 | asked on 1 June 2099, 29 February 2104 is still found |
| `CronHorizon.SkippedLeapDay` | app/services/cron_service.py:27-28 | asked on 1 January 2097, 29 February is not found, because 2100 is no leap year |
| `CronFields.ExpandField` | app/services/cron_service.py:215-268 | a field is refused if and only if one of its items is; otherwise its set is exactly the values some item stands for |
| `CronFields.AddAll` | app/services/cron_service.py:248-249 | the stepping loop adds exactly the values start, start + step, and so on up to the end |
| `CronFields.MeaningInRange` | app/services/cron_service.py:215-268 | an accepted field only has values of its range |
| `CronFields.EmptyExactly` | app/services/cron_service.py:215-268 | an accepted field is empty if and only if every item between its commas is blank |
| `CronFields.CommaField` | app/services/cron_service.py:215-268 | the field "," is accepted and empty |
| `CronItems.ItemExactly` | app/services/cron_service.py:230-262 | an item written as star, number, weekday name or range, with or without a step, is refused if and only if its step is zero or its ends are out of bounds or out of order; otherwise it covers every step-th value from its first to its last |
| `CronItems.FieldExactly` | app/services/cron_service.py:215-268 | a field written from such items is refused if and only if one of them is, and otherwise stands for exactly the values they include |
| `CronItems.NameSpelled` | app/services/cron_service.py:219-223 | a text is read as a weekday name if and only if it is that name with any of its letters capital |
| `CronFields.AcceptedDescriptions` | app/services/cron_service.py:92-150 | a recognised description is accepted if and only if its numbers are in range and its weekday is known |
| `CronFields.GeneratedAccepted` | app/services/cron_service.py:92-150 | whatever the generator writes, the field parser accepts |
| `CronFields.GeneratedMeans` | app/services/cron_service.py:92-150 | the parsed fields of a generated expression match a minute if and only if the description speaks of it, except that a dated description is read for every year: the two disagree exactly on matches of another year |
| `CronFields.YearForgotten` | app/services/cron_service.py:92-150 | "on march 5, 2026 at 09:30" also matches 5 March 2027 |
| `Password.ShuffleKeeps` | app/services/password_service.py:87-90 | the shuffle keeps the characters, for all choices |
| `Password.ShuffleOneToOne` | app/services/password_service.py:87-90 | different choice vectors give different arrangements of distinct elements |
| `Password.ShuffleOnto` | app/services/password_service.py:87-90 | every arrangement comes from some choice vector |
| `Password.ShuffleInPlace` | app/services/password_service.py:87-90 | the loop of swaps leaves the array in the arrangement of its choices |
| `Password.AppendFrom` | app/services/password_service.py:78-85 | the drawn characters come from their bucket, as many as asked for |
| `Password.Required` | app/services/password_service.py:77-82 | the required part has the required number from every category |
| `Password.SelfCheck` | app/services/password_service.py:92-97 | the closing check passes if and only if every required category occurs, and it never fails on a password that meets the requirements |
| `Password.GeneratePassword` | app/services/password_service.py:45-97 | refused if and only if the length is not between 4 and 256 or the positive minimums of the included categories together exceed it; otherwise the password has exactly the length, each included category at least as often as its minimum, only pool characters, no excluded special character, and no excluded digit as long as some category is required |
| `Password.Excluded` | app/services/password_service.py:51-71 | special characters are out of the pool whenever they are excluded, digits if and only if some category is still required |
| `Password.ExcludedDigits` | app/services/password_service.py:67-71 | an accepted request that excludes digits and whose pool holds them all |
| `Password.ValidateRequest` | app/services/password_service.py:100-112 | a request is accepted if and only if it meets the service-level constraints |
| `Password.ValidNeverRefused` | app/services/password_service.py:45-112 | a schema-conforming request that is accepted never makes generation raise |
| `SemVer.SemverParts` | app/services/dev_tools_service.py:199-206 | the prerelease is split into numeric and alphanumeric parts |
| `SemVer.SemverCompare` | app/services/dev_tools_service.py:208-239 | the loop compares core first, then parts |
| `SemVer.EqualMeans` | app/services/dev_tools_service.py:208-239 | versions compare equal if and only if core and prerelease are the same; build metadata is ignored |
| `SemVer.Antisymmetric` | app/services/dev_tools_service.py:208-239 | swapping the versions negates the result, so any two are comparable |
| `SemVer.Transitive` | app/services/dev_tools_service.py:208-239 | the order is transitive |
| `SemVer.PrecedenceExact` | app/services/dev_tools_service.py:208-239 | the order agrees with item 11 of SemVer 2.0.0 if and only if the two are not a release and a prerelease of the same core |
| `SemVer.PrereleaseAbove` | app/services/dev_tools_service.py:208-239 | a concrete pair that the service orders the other way |
| `SemVer.RangesConvex` | app/services/dev_tools_service.py:303-331 | caret and tilde sets are convex |
| `SemVer.BelowRelease` | app/services/dev_tools_service.py:303-331 | lying below a release is decided by the core alone |
| `SemVer.CaretMeans` | app/services/dev_tools_service.py:303-320 | a version matches a caret if and only if it is not below the bound and shares its components up to and including the leftmost nonzero one |
| `SemVer.TildeMeans` | app/services/dev_tools_service.py:322-331 | a version matches a tilde if and only if it is not below the bound and shares major and minor |
| `SemVer.TildeAgainstCaret` | app/services/dev_tools_service.py:303-331 | tilde implies caret when major is positive, they agree for 0.y.z with y positive, and caret implies tilde for 0.0.z |
| `SemVer.OperatorsCompare` | app/services/dev_tools_service.py:276-295 | each operator in terms of the two versions' components is the comparison that the service makes, and each is the complement or union of others |
| `SemVer.BelowExactly` | app/services/dev_tools_service.py:208-239 | one version compares below another if and only if its core is smaller, or of two equal cores it alone is a release, or of two prereleases its identifiers come first |
| `SemVer.Satisfies` | app/services/dev_tools_service.py:242-300 | a range is invalid if and only if an unparsable comparator is reached before an alternative matched; otherwise the version matches if and only if all operators of some alternative hold of the components |
| `SemVer.CompareWith` | app/services/dev_tools_service.py:276-295 | one comparator is decided by what its operator says of the components |
| `Browser.ManagedContext.constructor` | app/services/design_system_service.py:263-274 | all counters of a new context start at zero |
| `Browser.ManagedContext.AdmitRequest` | app/services/design_system_service.py:319-333 | the first locked section: the new counters and the answer for one request |
| `Browser.ManagedContext.AddBytes` | app/services/design_system_service.py:352-357 | the second locked section: the body is counted only if the total stays within the budget |
| `Browser.PermitsAlways` | app/services/design_system_service.py:233-259 | in every interleaving free permits, contexts being created, live contexts and permits of cancelled creations add up to the maximum |
| `Browser.PermitsConserved` | app/services/design_system_service.py:233-259 | free permits, contexts being created and live contexts add up to the maximum if and only if no creation was cancelled |
| `Browser.LostForGood` | app/services/design_system_service.py:233-259 | in every continuation of a trace free permits, contexts being created and live contexts together stay below the maximum by as many as creations were cancelled before |
| `Browser.NoneLeft` | app/services/design_system_service.py:233-259 | once as many creations were cancelled as there are permits, no context is ever acquired or created again |
| `Browser.CancelledPermitLost` | app/services/design_system_service.py:233-259 | with one permit, one creation begun and cancelled is a run after which no permit is free, nothing is being made or live, and no step is possible |
| `Browser.BudgetsRespected` | app/services/design_system_service.py:319-357 | in every interleaving of handlers the fetches started, the image fetches started and the bytes handlers add stay within their budgets |
| `BrowserBudgets.AdmittedExactly` | app/services/design_system_service.py:319-333 | a request is let through if and only if, by what its context asked for before, an image is within the image limit and the request within the request limit; images beyond their limit do not count as requests |
| `BrowserBudgets.BodyKeptExactly` | app/services/design_system_service.py:352-357 | a body is kept if and only if it fits with all bytes the context has had so far |
| `Xml.GroupSelect` | app/services/data_tools_service.py:289-304 | grouping by tag keeps for every tag its children in their order |
| `Xml.RoundTrip` | app/services/data_tools_service.py:289-349 | for every tree with accepted names, building from its object gives its normal form, and that has the same object |
| `Xml.OtherNamesRefused` | app/services/data_tools_service.py:306-327 | a parsed tree converts back if and only if all its tags and attribute names are accepted |
| `Xml.NormalFormExact` | app/services/data_tools_service.py:289-349 | two trees have the same object if and only if they have the same normal form, and a tree survives unchanged if and only if it is its own |
| `Xml.NormalKeeps` | app/services/data_tools_service.py:289-304 | the normal form keeps attributes, stripped text and the order of children per tag |
| `Xml.StripExactly` | app/services/data_tools_service.py:295-297 | stripping takes off white space at both ends, and all of it |
| `XmlReread.RereadExactly` | app/services/data_tools_service.py:289-349 | a JSON value converted to an element and back has become what a function of values says: scalars are text, objects keep attributes, text and members in order, members become arrays, empty arrays vanish |
| `XmlReread.BuiltExactly` | app/services/data_tools_service.py:306-349 | up to the limits a value is converted if and only if all names that become tags or attributes are accepted and no array stands inside an array |
| `XmlConvert.XmlNodeToObj` | app/services/data_tools_service.py:289-304 | the recursive converter gives the specified object, or raises if and only if the counter would pass the limit |
| `XmlConvert.BuildElement` | app/services/data_tools_service.py:311-349 | the recursive builder gives the specified element, or raises if and only if a name, an array, the depth or the element count forbids it |
| `XmlConvert.NormalSize` | app/services/data_tools_service.py:289-349 | the normal form has as many elements as the tree and the same depth |
| `XmlConvert.RoundTripWithinLimits` | app/services/data_tools_service.py:289-349 | the two converters alone: a tree with accepted names survives if and only if it is within the depth and element limits |
| `XmlService.XmlToJson` | app/services/data_tools_service.py:351-362 | the document is refused if and only if it has too many elements |
| `XmlService.JsonToXml` | app/services/data_tools_service.py:364-387 | JSON text becomes the specified element: it must be within the limits on JSON documents, and its element within those on elements |
| `XmlLimits.LoadableExactly` | app/services/data_tools_service.py:49-56 | the condition on the JSON document is the structural check's: at most 200 levels and 100000 nodes, in whatever order members stand |
| `XmlService.ThereAndBack` | app/services/data_tools_service.py:351-387 | a parsed tree survives the endpoint there and back if and only if its names are accepted and its JSON document is within the limits on JSON depth and nodes; it comes back in its normal form |
| `XmlService.DeepTreeRefused` | app/services/data_tools_service.py:351-387 | 101 nested elements are converted, but their JSON document, 201 levels deep, is refused on the way back |
| `XmlReread.BackAgain` | app/services/data_tools_service.py:351-387 | whatever document the service converts to XML comes back as its reread form under the root's name |
| `Identifiers.UlidGenerate` | app/services/toolbox_service.py:154-162 | the loop of shifts writes the 26 base-32 digits of time and random part |
| `Identifiers.UlidValidate` | app/services/toolbox_service.py:165-173 | text is valid if and only if it has 26 allowed characters, upper-cased, the first at most 7; then the time is its upper 48 bits, shown unless the calendar ends before it |
| `Identifiers.GeneratedWellFormed` | app/services/toolbox_service.py:154-173 | every generated ULID is well formed and its milliseconds are recovered |
| `Identifiers.GeneratedAccepted` | app/services/toolbox_service.py:154-173 | it is accepted if and only if its time is before the year 10000 |
| `Identifiers.CaseIgnored` | app/services/toolbox_service.py:165-173 | the case of letters makes no difference to the verdict on a generated ULID |
| `Identifiers.CalendarEnds` | app/services/toolbox_service.py:165-173 | the calendar ends with the first millisecond of the year 10000 |
| `Identifiers.YearTenThousandRaises` | app/services/toolbox_service.py:165-173 | the first ULID that is not |
| `Identifiers.AcceptedGenerated` | app/services/toolbox_service.py:154-173 | every accepted text is the ULID of exactly one time and random part |
| `Identifiers.UlidOrder` | app/services/toolbox_service.py:154-162 | text order of ULIDs is the order of time, then random part |
| `UuidV7.Layout` | app/services/toolbox_service.py:134-138 | the five fields stand at the positions of section 5.7 of RFC 9562 |
| `UuidV7.Injective` | app/services/toolbox_service.py:134-138 | equal identifiers come from equal times and random bits |
| `Colors.HslExact` | app/services/color_tools.py:118-181 | for all real channels, RGB to HSL and back is the identity before rounding |
| `Colors.HsvExact` | app/services/color_tools.py:138-206 | the same for HSV |
| `Colors.HslRecovers` | app/services/color_tools.py:118-181 | with two decimals kept, every integer triple is recovered from HSL |
| `Colors.HsvRecovers` | app/services/color_tools.py:138-206 | the same for HSV |
| `Colors.SectorRamps` | app/services/color_tools.py:159-181 | the six-sector table is continuous and closed: it equals three clamped ramps of the hue up to and including 360 degrees |
| `Colors.HslComponents` | app/services/color_tools.py:118-135 | level is half the sum of the highest and lowest channel, saturation their difference in percent of the sum or of what the sum leaves to two |
| `Colors.HsvComponents` | app/services/color_tools.py:138-156 | level is the highest channel, saturation the difference in percent of it |
| `Colors.HueRamps` | app/services/color_tools.py:118-135 | the hue places every channel on its ramp |
| `Imaging.EncodeUnderTarget` | app/services/image_service.py:770-786 | for every encoder the quality found fits and the next one does not, or nothing was found and the lowest is too large; for sizes nondecreasing in quality it is the largest that fits; ten probes suffice |
| `Imaging.Paginate` | app/services/image_service.py:922-956 | the page slices tile the rows exactly; each is the n-th piece of as many rows as the printable area is high at the page's width, its ends rounded, none printed higher than the area; it is refused on each condition exactly, too many pages by comparing areas |
| `Imaging.EveryRowOnce` | app/services/image_service.py:943-950 | every row of the image stands on exactly one page |
| `Rounding.Round` | app/services/image_service.py:945-946 | to a nearest integer, and of two equally near ones to the even one |

## Left out

- JsonShared.Document.Apply: a shared value is named by the place where the walker found it rather than by a heap reference; the values of one patch stand at places none of which is inside another (`EditsApart`), so a node has at most one name.
- JsonPatchStandard.ReturnedPatch: for pairs with a difference under an empty key the condition is about the values after the trial application; `ApartUntouched` gives one that is sufficient and can be seen on the paths.
- JsonPatchStandard.StandardRun: of RFC 6902 only the three operations that are generated.
- JsonService.PatchWalk: which of two limits is reported first, and how far the list has grown when it raises.
- CronFields.ExpandField: digits, letter case and white space beyond ASCII; the same holds for array indices read by `Text.PyInt`.
- CronItems.FieldExactly: spellings beyond its grammar that the parser also reads, such as leading zeros, white space around items, or a sign in a step.
- JsonLimits.ValidateJsonStructure: objects are visited in key order rather than insertion order, which can change which of two exceeded limits is named.
- Reading and printing JSON text, NaN and infinities, and floating-point comparison of large integers.
- RateLimit.BackendsAgree: exact expiry in milliseconds and atomic steps; outages, fallback and rounding of the remaining time in Redis are not modelled.
- CacheProtocol.SingleFlight: waiting callers enter in any order rather than first come first served; metrics are not modelled.
- ScanGuard.Guard.Receive: sending the error response, and the check of the declared content length.
- Cron.NextTimes: time zones, formatting of results and dates beyond the year 9999.
- CronFields.GeneratedMeans: matching the description text itself; it starts from the recognised description and its numbers. The English description of an expression is not modelled.
- Password.GeneratePassword: uniformity of the draws; each draw is an arbitrary member of its range or bucket.
- SemVer.EqualMeans: decimal digits beyond ASCII, which the version pattern also accepts and which compare by their value.
- SemVer.Satisfies: reading versions and operators from text; it starts from parsed comparators. An alternative has at least one comparator, as splitting gives.
- Browser.BudgetsRespected: the unguarded addition of the source document's bytes, address checks, web sockets and closing a context twice.
- XmlService.JsonToXml: JSON text and its printing. Attribute names of one element are distinct, as a parser delivers them.
- Xml.NormalFormExact: text that follows a child element; both converters drop it, so a tree that has such text does not survive unchanged. The model's elements have none.
- Xml.RoundTrip: XML text, namespaces and entities; Python's limit on recursion. Tags that look like attribute or text keys, which no parser delivers, are excluded in `OtherNamesRefused`.
- Identifiers.UlidValidate: characters beyond ASCII that upper-casing turns into allowed ones.
- Colors.HslRecovers: floating-point rounding; channels and the two-decimal rounding are exact reals.
- Imaging.Paginate: floating-point rounding, pixel work and PDF writing; an encoder is any function from quality to size.
- Pages, design tokens, network tools, routes, configuration, logging and the library-backed tools.
