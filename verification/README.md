# A verified model of the event pipeline

The repository joins web-application-firewall and bot-management events from several vendors into
one record per request, stores them, searches and exports them, and alerts on them. This project
models the parts of it that carry the stated guarantees and proves those guarantees for every
input, every run and every interleaving of the modelled steps.

Verify everything with `dafny verify dfyconfig.toml`.

## What is modelled

| files | part of the pipeline |
|---|---|
| `Common.dfy` | strings and their order, trimming, the length-prefixed field encoding, tables that keep the newest version of a row |
| `Filing.dfy`, `PartnerWalk.dfy` | events filed in buckets by identifier; the lockstep walk that gathers, for every due window, the whole request it belongs to |
| `UnionFind.dfy`, `Grouping.dfy` | disjoint sets of identifiers and the grouping of a horizon's events into requests |
| `Verdicts.dfy`, `Records.dfy` | classification of verdicts; building one record from a group |
| `Amendment.dfy`, `AmendmentRuns.dfy`, `LiveRows.dfy` | folding a late closing into a stored record; versioned inserts and what a whole run of them keeps; which rows `FINAL` then shows |
| `CatchUp.dfy` | the closer's schedule: claims, passes, ticks and the catch-up loop |
| `Cursor.dfy`, `Paging.dfy`, `Export.dfy` | paging tokens; `LIMIT 1 BY` with a tuple cursor against `FINAL`; the export walk and its row cap |
| `FilterBuilder.dfy` | `LIKE` escaping and parameterised conditions |
| `AuditChain.dfy` | the hash-chained audit trail, its two checks and the repository that appends to it |
| `Secrets.dfy` | credentials in a cache in front of a sealed durable copy, with failures at every call |
| `Normalizer.dfy`, `Identity.dfy` | the batch normalizer against the one-at-a-time form, retries, redaction; event identities |
| `Delivery.dfy`, `Cooldown.dfy` | webhook delivery with bounded retries and wrapping backoff; alert suppression across replicas |
| `Limits.dfy`, `NameCache.dfy` | fixed-window limits and quotas; read-through caches of names |

Objects whose methods update their fields are classes here, loops are loops, and each such method is
proved against a specification function or predicate; the properties are then lemmas about that
specification. Failures of stores are parameters of the operations: a call may be refused, may land
and still report an error, or may land in part, and the theorems hold for every combination.

## What the code does not do

Proving the stated guarantees showed where the code, its comments or its documentation promise more
than it keeps. The model follows the code; each of these is a lemma with the exact condition.

- The catch-up is meant to leave nothing due. A pass whose batch held an entry that does not decode
  reports the schedule drained (`CatchUp.DrainedReport`), a tick reports what its *first* pass did
  (`CatchUp.Closer.Tick`), and one window that fails to build ends the loop after its tick. Read in
  batch-sized blocks, the schedule is left with work exactly when some block with work behind it stops
  the loop (`CatchUp.CatchUpLeavesWorkExactlyWhen`); with no failed build such a block is one that
  holds an undecodable entry and opens a tick (`CatchUp.MalformedBlockStopsWhenItOpensATick`).
- The comment beside the bounded read says that an amendment which does not find its record is
  discarded by the engine. The table's sorting key holds the date of the window start, so nothing is
  discarded: the id keeps a live row for every day it was ever stored on
  (`LiveRows.OutOfReachLeavesBoth`, `LiveRows.BatchReplacesOnlyItsDays`). The same happens in reach: a
  window start moved back over midnight leaves the superseded row live, and an id has one live row
  exactly when no later window opens on an earlier day than the first
  (`LiveRows.OneLiveRowExactlyWhen`, `LiveRows.MidnightLeavesTheOldRow`). When an older copy is in
  reach and the newest is not, the record can split into two rows of one version
  (`LiveRows.ThreeEmissionsSplitARecord`).
- A merge takes the matched rule ids of the late side only (`Amendment.MergeKeepsBothSides`), and a
  stored first time that was never set is ignored (`Amendment.FirstTimesNeverMoveLater`).
- A score conflict is lost when a vendor that neither allows, blocks nor challenges is added
  (`Verdicts.DisagreementSurvivesAVendor`).
- `LIMIT 1 BY` stands in for `FINAL` exactly when the matching copies of an event have one sort value and
  the newest of each day matches too (`Paging.DedupeReplacesFinalExactlyWhenCopiesAgree`); where an event's copies
  match at two times, one page or the next differs from `FINAL` (`Paging.MovedCopyIsShownTwice`).
- An export says it was truncated only when its cap is not a whole number of pages, so never at the
  default cap of 100 000 (`Exports.ExportOfAFrozenTable`).
- Neither audit check notices a removed tail, and the range check does not notice a removed head
  (`AuditChain.RemovedBlock`). Two appends in one millisecond, or a clock stepping back, break the
  listed chain without any tampering unless the later entry also sorts last
  (`AuditChain.AuditTrail.Append`).
- A deletion that could not clear the cache leaves the credential working, and the next lookup by a
  process that has not marked it restores the durable copy (`SecretRuns.FailedDeleteIsUndone`).
- A delivery worker acting on an old listing can return a delivered or failed alert to pending
  (`Delivery.StaleListingReopens`), and any error in reading the rule, not only its absence, ends the
  alert (`Delivery.DeliveryWorker.DeliverOne`).
- Two vendors of one feed can share event identities exactly when, spaces in front of the names aside,
  one name is the other followed by the separator and a tail that does not open with a space
  (`Identities.VendorsCollideExactlyWhen`).
- An event whose score has no JSON form is an error handled alone and is skipped in a batch
  (`NormalizerRuns.FailuresAreTheUndecodable`).

## Model

| member | source | states |
|---|---|---|
| Filing.WritesForShape | backend/internal/correlate/batch.go:95-127 | an event is written under every exact key it is known by, and under one closing window, the only write that schedules |
| Filing.KeyNamesItsRequest | backend/internal/correlate/keys/keys.go:157-159 | of one tenant, two bucket keys are equal exactly when the trimmed request ids are |
| Filing.FiledExactlyUnder | backend/internal/correlate/closer.go:729-740 | an event is filed under the key of a request id exactly when it carries that id, trimmed |
| Filing.OneBucketExactlyWhen | backend/internal/correlate/closer.go:729-740 | two events of a tenant meet in a bucket exactly when a non-blank trimmed id among vendor and linked request id of one is among those of the other |
| Filing.WrittenOncePerRequest | backend/internal/correlate/batch.go:95-127 | an event is written once under each request id it carries, and once under its closing window, the only write that schedules |
| Filing.FiledOnce | backend/internal/correlate/closer.go:729-740 | no request id is filed twice, although an event may carry it twice |
| Filing.ClosingKeyTells | backend/internal/correlate/batch.go:95-127 | two events close in one window exactly when they have one heuristic key, or neither has one and they are one event |
| Filing.WindowStore.AddBatch | backend/internal/correlate/window/batch.go:42-85 | all members are appended, then all closing windows scheduled; of a call that fails, any of its commands may have gone through, and a failure among the appends has scheduled nothing |
| Filing.WindowStore.PushMany | backend/internal/data/redis/client.go:276-295 | appends every entry in order, or the commands that went through of a failing call |
| Filing.WindowStore.ScheduleMany | backend/internal/data/redis/client.go:297-315 | scores every entry, a later one moving the deadline, or the commands that went through of a failing call |
| Filing.WindowStore.HandleBatch | backend/internal/correlate/batch.go:29-61 | a fetch is filed whole or fails with some of its commands applied; exact buckets are never scheduled |
| Filing.EveryDecodedEventIsFiled | backend/internal/correlate/batch.go:29-127 | a batch written whole files every decoded event with a tenant and an id under each request id it carries and in its closing window, which then has a deadline |
| Filing.OnlyDecodedEventsAreFiled | backend/internal/correlate/batch.go:77-127 | what a list gains are decoded events that belong in it |
| Filing.AppendsInOrder | backend/internal/data/redis/client.go:276-295 | a write appends its member behind its own list and touches no other |
| Filing.DeadlineIsTheLast | backend/internal/correlate/window/batch.go:42-85 | a deadline is the lag after the event of the last write that scheduled the window |
| Filing.FailureSays | backend/internal/correlate/window/batch.go:42-85 | a call that fails among its appends has scheduled nothing; one that fails later has appended everything |
| Filing.PushKeepsFiledExcept | backend/internal/correlate/batch.go:95-127 | one append of a batch keeps every event that is not pending filed under all its identifiers |
| Filing.AnyInterleavingFiles | backend/internal/correlate/batch.go:26-61 | several workers write their batches in any order, repeat writes and break off anywhere: only the events of batches nobody finished are filed in part |
| Filing.RedeliveryCompletesTheFiling | backend/internal/correlate/batch.go:29-61 | writing a batch whole leaves only the other pending events pending, whatever an earlier failed attempt left behind, and stores no other event |
| Filing.PartialWriteThenRetry | backend/internal/correlate/window/batch.go:42-85 | a partial write followed by the redelivery leaves nothing more pending than before |
| Filing.ClosureIsWholeComponents | backend/internal/correlate/closer.go:586-620 | in a filed store a window collects exactly its members and every event that a chain of events leads to, each sharing a trimmed request id with the next |
| Filing.WindowsAgreeOnSharedEvents | backend/internal/correlate/closer.go:569-585 | two windows that reach one event both hold that event's whole component |
| Filing.EveryHopSeesTheSameRequest | backend/internal/correlate/closer.go:569-585 | one-event windows on different hops of a request collect the same events |
| PartnerWalk.CollapseByEvent | backend/internal/correlate/closer.go:628-650 | the first copy of each event, in order, and the ids seen |
| PartnerWalk.PartnerWalk.constructor | backend/internal/correlate/closer.go:628-650 | a window's walk starts from its own collapsed members, nothing visited |
| PartnerWalk.PartnerWalk.Visit | backend/internal/correlate/closer.go:658-684 | a window asks for the identifiers of its frontier it has not visited, each once and in order, and marks them |
| PartnerWalk.PartnerWalk.Absorb | backend/internal/correlate/closer.go:704-727 | a window takes the partners its own identifiers reached and has not seen; they become its next frontier |
| PartnerWalk.NewPartnerWalks | backend/internal/correlate/closer.go:628-650 | one fresh walk per due window |
| PartnerWalk.NextIdentifiers | backend/internal/correlate/closer.go:658-684 | per window what it wants, and per tenant exactly the union of what that tenant's windows want |
| PartnerWalk.MembersMany | backend/internal/correlate/window/window.go:266-310 | a batched read returns each requested list as the single read would |
| PartnerWalk.ReadBuckets | backend/internal/correlate/closer.go:685-702 | one read per tenant covers every identifier asked for; any failing read fails the level |
| PartnerWalk.AdvanceWalks | backend/internal/correlate/closer.go:704-727 | every window moves by one step of its own walk, whatever the others found |
| PartnerWalk.WalkOneLevel | backend/internal/correlate/closer.go:586-620 | a level either fails with its read, finishes with every window's final answer, or keeps every answer and shrinks what is unvisited |
| PartnerWalk.ExpandExactPartners | backend/internal/correlate/closer.go:586-620 | the lockstep walk ends and gives every due window the sequence it would get alone, independent of map order and of the other windows |
| PartnerWalk.StepKeepsTheAnswer | backend/internal/correlate/closer.go:586-620 | a further level never changes a window's answer, so a finished window may wait in the batch |
| PartnerWalk.ClosureIsLeastClosedSet | backend/internal/correlate/closer.go:586-742 | a window's answer starts with its members, has no event twice, is closed under shared identifiers, and lies in every closed set holding its members |
| PartnerWalk.NoEventTwice | backend/internal/correlate/closer.go:704-727 | no event is collected twice by one window |
| UnionFinds.UnionFind.Find | backend/internal/correlate/group/group.go:194-206 | returns the representative, points the value straight at it and leaves every class as it was |
| UnionFinds.UnionFind.Link | backend/internal/correlate/group/group.go:208-218 | merges two classes, the smaller root winning |
| UnionFinds.RepresentativesAreCanonical | backend/internal/correlate/group/group.go:182-190 | representatives tell connected components apart and are their smallest identifiers |
| UnionFinds.CanonicalIsUnique | backend/internal/correlate/group/group.go:182-190 | the representative is a function of the component alone |
| Grouping.ConfirmExact | backend/internal/correlate/group/group.go:141-180 | every identified event gets its component's smallest identifier; an identity is confirmed when more than one vendor reported it |
| Grouping.SameKeyMeansConnected | backend/internal/correlate/group/group.go:134-166 | two events share an exact key exactly when their identifiers are connected |
| Grouping.OneKeyExactlyWhenLinked | backend/internal/correlate/group/group.go:128-166 | two events with identifiers have one exact key exactly when a chain of batch events leads from one to the other, each sharing an identifier with the next |
| Grouping.KeyIsSmallestIdentifier | backend/internal/correlate/group/group.go:182-218 | an exact key is the smallest identifier that any linked event carries |
| Grouping.ExactGroupsAreRequests | backend/internal/correlate/group/group.go:102-180 | the exact groups of a batch: with one event a group holds exactly the events linked to it, of more than one vendor, and every event linked to one of another vendor is in one |
| Grouping.SpokesAre | backend/internal/correlate/group/group.go:148-153 | an event ties its first identifier to each of the others, and nothing else |
| Grouping.KeysIgnoreOrder | backend/internal/correlate/group/group.go:156-157 | an event's key depends on which events there are, not on their order |
| Grouping.ConfirmedMeansSecondVendor | backend/internal/correlate/group/group.go:128-133 | an event joins on an exact key exactly when an event of another vendor is linked to it by a chain of events sharing identifiers |
| Grouping.GroupsFromExact | backend/internal/correlate/group/group.go:221-244 | one group per confirmed key, in order of first use, with its events in order |
| Grouping.GroupsFromHeuristic | backend/internal/correlate/group/group.go:247-287 | the unclaimed events by window key, a neighbouring open window being joined, keyless events alone |
| Grouping.HeuristicGroupsStayClose | backend/internal/correlate/group/group.go:289-305 | an event joins its own window if that is open, else an open neighbour, else opens its own |
| Grouping.HeuristicSlotSays | backend/internal/correlate/group/group.go:247-309 | exactly the events tier one claimed are left out; an event without a client or host is alone under a key of its own; of two open neighbours the earlier window is joined |
| Grouping.KeyTextTells | backend/internal/correlate/keys/keys.go:185-199 | two heuristic keys are one exactly when the requests look alike and the windows start in one second |
| Grouping.KeysSay | backend/internal/correlate/keys/keys.go:215-243 | windows are counted from the year one; the neighbours lie one width before and after |
| Grouping.Batch | backend/internal/correlate/group/group.go:102-113 | every event of the batch ends in exactly one group, once, and every group is scored |
| Grouping.BatchIgnoresOrder | backend/internal/correlate/group/group.go:97-101 | on the same events in any order the batch makes the same groups, each with the same members under the same key but for the number of a lone event |
| Grouping.DerivedIsTimed | backend/internal/correlate/keys/keys.go:175-243 | heuristic keys derived from event times: events at one time have one set of keys or none in common, whatever the width of a window |
| Grouping.SlotIsSettledBefore | backend/internal/correlate/group/group.go:294-306 | the window an event joins is settled by the windows opened at earlier times |
| Grouping.SlotsIgnoreOrder | backend/internal/correlate/group/group.go:97-101 | an event goes to one group whatever order the batch came in |
| Grouping.ScoreOf | backend/internal/correlate/group/group.go:312-358 | an exact join has one candidate; otherwise the most events one vendor has; several vendors joined by heuristic are less than certain, and low when an address was shared or a vendor had several candidates |
| Grouping.ScoreSays | backend/internal/correlate/confidence/confidence.go:37-58 | an exact join and a record of one vendor are certain; any other is uncertain when a member with a heuristic key is on a shared address or a vendor has two members |
| Grouping.ScoresIgnoreOrder | backend/internal/correlate/confidence/confidence.go:37-58 | the score depends on the members alone, not on their order |
| Grouping.SortedIsOrdered | backend/internal/correlate/group/group.go:116-126 | groups are built in time and vendor order whatever order events came in |
| Grouping.SortedSays | backend/internal/correlate/group/group.go:116-126 | in time order, within an instant by vendor, alike events as they were listed |
| Grouping.SortedKeeps | backend/internal/correlate/group/group.go:116-126 | sorting loses and repeats nothing |
| Verdicts.MostRestrictive | backend/internal/vendors/normalize.go:28-36 | a verdict of highest rank among those given |
| Verdicts.MostRestrictiveIsUnique | backend/internal/vendors/normalize.go:14-36 | the result depends only on which verdicts were given |
| Verdicts.RanksAre | backend/internal/vendors/normalize.go:14-36 | the order of the six verdicts |
| Verdicts.OutcomeByPrecedence | backend/internal/vendors/normalize.go:14-36 | the combined outcome is the first of blocked, rate limited, challenged, monitored and allowed that some vendor reached |
| Verdicts.Classify | backend/internal/normalize/disagreement.go:47-96 | the disagreement kind and combined outcome of a list of verdicts, branch by branch |
| Verdicts.KindSays | backend/internal/normalize/disagreement.go:47-122 | the kind of a disagreement by what the vendors said: allowing against blocking or limiting, then against challenging, then a high bot score on a request everyone allowed |
| Verdicts.FindHighBotScore | backend/internal/normalize/disagreement.go:109-122 | true exactly when some bot score reaches the threshold |
| Verdicts.CheckAllAllowed | backend/internal/normalize/disagreement.go:99-107 | true exactly when every verdict allows |
| Verdicts.ClassifyIgnoresOrder | backend/internal/normalize/disagreement.go:47-96 | a permutation of the verdicts classifies the same, so map order decides nothing |
| Verdicts.ClassifyDependsOnVerdictsOnly | backend/internal/normalize/disagreement.go:47-96 | how many verdicts, which ones and whether a bot score is high fix the classification |
| Verdicts.AddingVendorsNeverWeakens | backend/internal/normalize/disagreement.go:47-96 | more vendors never weaken the outcome and never lose an allow-vs-block disagreement |
| Verdicts.DisagreementSurvivesAVendor | backend/internal/normalize/disagreement.go:47-96 | a disagreement survives one more vendor exactly unless it is a score conflict and the new verdict neither allows, blocks nor challenges |
| Records.SortedMembers | backend/internal/correlate/record.go:142-153 | members in time order, listed order kept among equal times |
| Records.AppendUnique | backend/internal/correlate/record.go:226-234 | the union of rules in arrival order without blanks or repeats |
| Records.RequestShape | backend/internal/correlate/record.go:168-199 | each request field from the first member that reports it; the shared flag sticks; network and country from the most trusted vendor |
| Records.MostTrusted | backend/internal/correlate/geo.go:61-85 | the value of the most trusted vendor with a usable one, the first of its events that has one |
| Records.NetworkIgnoresOrder | backend/internal/correlate/geo.go:41-50 | the network does not depend on the order of arrival, as long as equally trusted events report the same one |
| Records.FirstReportedFieldWins | backend/internal/correlate/record.go:168-199 | address, host, path and method each come from the first member that reports one and are blank exactly when none does |
| Records.SharedIsSticky | backend/internal/correlate/record.go:168-199 | the record is shared exactly when some member was |
| Records.LastReadingWins | backend/internal/correlate/record.go:81-139 | a vendor's verdict, score and rule are those of its last event that has one |
| Records.MatchedRulesAreTheVendors | backend/internal/correlate/record.go:226-234 | a vendor's matched rules are exactly those its events matched, once each, none blank |
| Records.TrustSays | backend/internal/correlate/geo.go:19-60 | the trust order of the vendors, and whose network counts |
| Records.BuildRecord | backend/internal/correlate/record.go:81-139 | a record field by field from its group |
| Records.BuiltRecordCoversItsGroup | backend/internal/correlate/record.go:81-139 | the record names every member's vendor and event and its span covers every member |
| Records.BuiltRecordReportsTheEarliest | backend/internal/correlate/record.go:168-199 | address, host, path and method of a built record are those of the earliest member that reports one; it is shared exactly when some member is |
| Records.BuiltRecordHoldsTheLatest | backend/internal/correlate/record.go:81-139 | a built record holds of each vendor the verdict of its latest event, the score of its latest scored one and the rule of its latest with one, and nothing of anyone else |
| Records.BuiltRecordListsEveryRule | backend/internal/correlate/record.go:81-139 | a built record lists of each vendor exactly the rules its events matched |
| Records.BuiltRecordSpansItsGroup | backend/internal/correlate/record.go:81-166 | the span runs from the earliest member to the latest; the window is the key's or the five seconds the earliest falls into; counts stop at 255 |
| Records.BuiltOutcomeReadsItsMembers | backend/internal/correlate/record.go:81-139 | a built record is classified by each member's own verdict and score |
| Records.BuiltNetworkIsTheMostTrusted | backend/internal/correlate/geo.go:41-85 | network and country come from a member whose vendor is trusted most among those with a usable one, and are blank exactly when there is none |
| Amendment.UnionStrings | backend/internal/correlate/merge.go:152-168 | the union of two lists |
| Amendment.UnionShape | backend/internal/correlate/merge.go:152-168 | nothing lost but blanks, nothing repeated, stored order first |
| Amendment.UnionFlattens | backend/internal/correlate/merge.go:152-168 | nested unions equal the union of the concatenation |
| Amendment.UnionAssociative | backend/internal/correlate/merge.go:152-168 | the union is associative |
| Amendment.MergeMap | backend/internal/correlate/merge.go:170-190 | both sides' keys, the late value where both have one |
| Amendment.ClassifyMerged | backend/internal/correlate/merge.go:114-131 | the classification of a merged verdict map, whatever order the map yields it in |
| Amendment.WidenSpan | backend/internal/correlate/merge.go:31-82 | first time and window start taken earlier, last time later |
| Amendment.StrengthenJoin | backend/internal/correlate/merge.go:138-146 | tier and confidence of the stronger join |
| Amendment.MergeRecords | backend/internal/correlate/merge.go:31-82 | the merged record, field by field |
| Amendment.MergeKeepsBothSides | backend/internal/correlate/merge.go:31-112 | a merge keeps what either side knew; matched rule ids are the late side's |
| Amendment.MergeTakesTheLateReading | backend/internal/correlate/merge.go:31-112 | verdict, rule and score of a vendor, and each request field, are the late side's where it has one and the stored side's otherwise |
| Amendment.MergeKeepsTheBetterJoin | backend/internal/correlate/merge.go:31-82 | an exact join beats a heuristic one, which beats none; the larger candidate count and the later end are kept |
| Amendment.ListingIs | backend/internal/correlate/merge.go:114-131 | a merged record is classified by one entry for each vendor, its score read as a bot score |
| Amendment.OutcomeSays | backend/internal/correlate/merge.go:114-131 | the kind of disagreement of a record by its own verdicts and scores |
| Amendment.FirstTimesNeverMoveLater | backend/internal/correlate/merge.go:31-82 | first times move later exactly when the stored one was never set |
| Amendment.NewVendorsNeverWeakenTheOutcome | backend/internal/correlate/merge.go:114-131 | late new vendors never weaken the outcome nor hide an allow-vs-block conflict |
| Amendment.MergeKeepsVendorsMatched | backend/internal/correlate/merge.go:31-82 | the vendor list equals the verdict keys after a merge if it did on both sides |
| Amendment.ReclassifyingABuiltRecordAgrees | backend/internal/correlate/record.go:103-136 | reclassifying a built record by vendor agrees with its own classification when each vendor gave one event and all scores are bot scores |
| AmendmentRuns.PartitionBound | backend/internal/correlate/closer.go:409-420 | one bound around every emission's window start, widened by the slack |
| AmendmentRuns.SlackIsCovered | backend/internal/correlate/closer.go:392-420 | a stored copy within the slack of an emission lies in the bound |
| AmendmentRuns.BoundSays | backend/internal/correlate/closer.go:406-426 | the bound opens a day and the lateness before the earliest window start, ends as long after the latest, and takes in whole days |
| AmendmentRuns.BoundedReadFindsTheNewest | backend/internal/data/clickhouse/correlated.go:96-180 | a bounded read finds an id's newest row when the bound covers it |
| AmendmentRuns.CorrelatedStore.Versions | backend/internal/data/clickhouse/correlated.go:225-275 | the newest version of each id inside the bound |
| AmendmentRuns.CorrelatedStore.ByIDs | backend/internal/data/clickhouse/correlated.go:133-175 | the newest stored record of each id inside the bound |
| AmendmentRuns.CorrelatedStore.Insert | backend/internal/data/clickhouse/correlated.go:181-216 | appends the rows; a failed call may have landed |
| AmendmentRuns.VersionsOf | backend/internal/correlate/closer.go:362-389 | chunked lookups answer exactly what one whole lookup would |
| AmendmentRuns.Versioned | backend/internal/correlate/closer.go:429-458 | each emission is stamped from the snapshot: version one, or the stored version plus one merged with the stored record |
| AmendmentRuns.StampSays | backend/internal/correlate/closer.go:429-458 | a first emission is version one as it is; an amendment is the found copy merged with it, one version up and marked |
| AmendmentRuns.InsertEmissions | backend/internal/correlate/closer.go:466-525 | one tenant's closed windows are versioned against what is stored and written together; a failed read writes nothing |
| AmendmentRuns.BatchAmendsTheNewest | backend/internal/correlate/closer.go:429-507 | a batch in reach amends the newest row of each id it mentions and leaves the others |
| AmendmentRuns.RunWithinSlackIsInReach | backend/internal/correlate/closer.go:391-420 | if batches are looked up under their own bounds and emissions of one id open within the slack of each other, no amendment misses its record |
| AmendmentRuns.RunIsFold | backend/internal/correlate/closer.go:429-507 | after any run within the slack the newest row of an id is the fold of its emissions |
| LiveRows.FinalShowsOneRowPerDay | deploy/clickhouse/migrations/0002_events.up.sql:165-167 | FINAL shows one row of an id for each day it was stored on, the newest of that day, the newest of all among them |
| LiveRows.BatchReplacesOnlyItsDays | backend/internal/data/clickhouse/correlated.go:86-111 | a batch supersedes exactly the live rows of the days its own rows fall on |
| LiveRows.BatchAddsDays | backend/internal/correlate/closer.go:429-507 | a batch adds live rows of an id exactly on the days its rows fall on |
| LiveRows.OutOfReachLeavesBoth | backend/internal/data/clickhouse/correlated.go:106-111 | an amendment whose stored copies are all out of reach is written as a first emission beside them; nothing is replaced or discarded |
| LiveRows.NewestSurvivesExactlyWhen | backend/internal/correlate/closer.go:391-458 | by version alone the newest row survives a batch exactly when its version is above the one the batch writes, whatever copy the batch found, or when the batch writes that row again |
| LiveRows.OneLiveRowExactlyWhen | backend/internal/correlate/merge.go:31-82 | over every run within the slack FINAL shows an id once exactly when its windows never open on an earlier day than the first did |
| LiveRows.MidnightLeavesTheOldRow | deploy/clickhouse/migrations/0002_events.up.sql:165-167 | a window start moved back over midnight leaves the superseded row live |
| LiveRows.ThreeEmissionsSplitARecord | backend/internal/correlate/closer.go:391-458 | with the newest copy out of reach and an older one in reach an id gets two live rows at one version, neither holding all its emissions |
| AmendmentRuns.FoldCountsEmissions | backend/internal/correlate/closer.go:429-458 | the version is the number of emissions, amended means more than one |
| AmendmentRuns.VersionsCountEmissions | backend/internal/correlate/closer.go:429-507 | over any run within the slack with distinct ids per batch the newest version counts the id's emissions |
| AmendmentRuns.FoldOnlyGrows | backend/internal/correlate/merge.go:31-112 | evidence only grows along a history |
| AmendmentRuns.FoldHoldsEveryEmission | backend/internal/correlate/merge.go:31-112 | no emission's evidence is lost |
| AmendmentRuns.FoldKeepsTheEarliestStart | backend/internal/correlate/merge.go:31-82 | the stored span opens no later than any emission's |
| AmendmentRuns.FoldListsEveryEventOnce | backend/internal/correlate/merge.go:152-168 | the stored event list is every emission's events, in order, once each |
| AmendmentRuns.FoldKeepsVendorsMatched | backend/internal/correlate/merge.go:31-82 | vendors equal verdict keys along every history that starts so |
| AmendmentRuns.FoldKeepsTheStrongestJoin | backend/internal/correlate/merge.go:138-146 | tier and confidence are those of the latest closing among the strongest |
| AmendmentRuns.FoldKeepsTheLatestVerdict | backend/internal/correlate/merge.go:170-178 | a vendor's verdict is that of the latest emission that carries it |
| AmendmentRuns.FoldKeepsTheLatestScore | backend/internal/correlate/merge.go:181-190 | a vendor's score is that of the latest emission that carries one |
| AmendmentRuns.FoldKeepsTheLatestRule | backend/internal/correlate/merge.go:170-178 | a vendor's deciding rule is that of the latest emission that carries one |
| AmendmentRuns.FoldKeepsTheLatestReport | backend/internal/correlate/merge.go:86-112 | each request field is that of the latest emission that reports it |
| AmendmentRuns.FoldInventsNothing | backend/internal/correlate/merge.go:31-82 | nothing is stored for a vendor that no emission carries |
| AmendmentRuns.FoldOutcomeIsCurrent | backend/internal/correlate/merge.go:114-131 | an amended record's outcome is the classification of its own verdicts |
| AmendmentRuns.RunOnlyGainsEvidence | backend/internal/correlate/closer.go:429-507 | between any two moments of a run within the slack the newest record of an id only gains evidence |
| CatchUp.Closer.Claim | backend/internal/correlate/window/window.go:525-552 | pops up to a batch of due entries; what decodes is claimed |
| CatchUp.Closer.Pass | backend/internal/correlate/closer.go:276-331 | a pass claims a batch, counts each window it builds and gathers its records; it fails when a window fails to build and goes on, and a failed claim or read ends it as drained and failed |
| CatchUp.Closer.BuildAll | backend/internal/correlate/closer.go:309-331 | every claimed window is built and counted; one that fails is reported and does not abandon the rest |
| CatchUp.Closer.Passes | backend/internal/correlate/closer.go:177-195 | at most 32 passes, stopping after the first that reports the schedule drained; their errors are joined |
| CatchUp.Closer.Tick | backend/internal/correlate/closer.go:177-213 | a tick reports drained exactly when its first pass did, and failed when a claim, a read, a window or an insert failed; every tenant's records are inserted together and counted |
| CatchUp.Closer.InsertAll | backend/internal/correlate/closer.go:196-210 | one insert per tenant with records, counted as emitted or as a failure, the others still written |
| CatchUp.Closer.Run | backend/internal/correlate/closer.go:117-160 | ticks until one reports the schedule drained or fails, whatever each tick's stores do; claimed and waiting windows are conserved |
| CatchUp.EachWindowCountedOnce | backend/internal/correlate/closer.go:280-331 | every claimed window adds one to exactly one of closed, dropped and failed |
| CatchUp.CountersTell | backend/internal/correlate/closer.go:309-329 | of each tenant, closed, dropped and failed grow by exactly its windows that closed with members, had none left, or failed to build |
| CatchUp.TickCounts | backend/internal/correlate/closer.go:196-213 | a tick emits all the records its windows were built into, or counts one more failure when the tenant's insert is refused |
| CatchUp.RecordsWaiting | backend/internal/correlate/closer.go:329 | a window adds its own records to its own tenant, whatever was built before and after |
| CatchUp.EntryClaimed | backend/internal/correlate/window/window.go:525-552 | what decodes is claimed in order, the rest is not |
| CatchUp.PassSays | backend/internal/correlate/closer.go:280-331 | what one pass takes, builds and reports, for a failing claim, a failing read and neither |
| CatchUp.PassesStop | backend/internal/correlate/closer.go:183-194 | the first pass that reports the schedule drained is a tick's last, and the tick reports what its first pass did |
| CatchUp.FailedTickIsTheLast | backend/internal/correlate/closer.go:130-156 | a tick fails exactly when one of its passes or inserts does; one that fails or reports the schedule drained is the last of the loop |
| CatchUp.FaultStopsTheCatchUp | backend/internal/correlate/closer.go:117-160 | a store that fails in the first pass stops the loop: at most the batch whose members could not be read was claimed |
| CatchUp.DrainedReport | backend/internal/correlate/closer.go:280-331 | drained is reported exactly when less than a batch was due or the batch held an undecodable entry |
| CatchUp.CatchUpLeavesWorkExactlyWhen | backend/internal/correlate/closer.go:117-160 | with working stores a catch-up leaves work exactly when some block with work behind it stops the loop: one that is not clean and opens a tick, or the last of a tick in which a window failed |
| CatchUp.CatchUpStopsAtItsFirstStop | backend/internal/correlate/closer.go:117-160 | what is left is exactly what lies behind the first block that stops the loop |
| CatchUp.BlockDecides | backend/internal/correlate/closer.go:117-213 | a block either ends the loop, leaving what is behind it, or hands on to the next |
| CatchUp.MalformedBlockStopsWhenItOpensATick | backend/internal/correlate/closer.go:276-331 | with no failed build a block with work behind it stops the loop exactly when it holds an undecodable entry and opens a tick |
| CatchUp.CatchUpDrains | backend/internal/correlate/closer.go:107-116 | with every entry decodable and every window building the catch-up leaves nothing due |
| CatchUp.DrainedCatchUpClaimsAll | backend/internal/correlate/closer.go:107-116 | and has claimed every due window, once and in order |
| CatchUp.CatchUpConserves | backend/internal/correlate/closer.go:117-213 | whatever fails, every window that was due is claimed or still scheduled, in order |
| CatchUp.MalformedAfterAFullTick | backend/internal/correlate/closer.go:162-195 | an undecodable entry behind 32 clean batches stops the loop with work left |
| CatchUp.SecondBlockMalformed | backend/internal/correlate/closer.go:162-195 | an undecodable entry in the second batch of a tick costs nothing |
| Bytes.Base64RoundTrip | backend/internal/query/cursor.go:71-85 | unpadded base64url decodes to what was encoded and survives trimming |
| Bytes.LineBreaksAreSkipped | backend/internal/query/cursor.go:76-85 | the decoder skips line breaks |
| Bytes.RefusedExactlyWhen | backend/internal/query/cursor.go:76-85 | a text is refused exactly when some other character of it is not in the alphabet |
| Bytes.AlphabetIs | backend/internal/query/cursor.go:71-85 | the URL-safe alphabet in order |
| Bytes.Base64Examples | backend/internal/query/cursor.go:71-85 | three bytes, two, one and none as section 5 of RFC 4648 writes them |
| Bytes.BigEndianRoundTrip | backend/internal/query/cursor.go:68-101 | the big-endian field reads back |
| Cursors.CursorRoundTrip | backend/internal/query/cursor.go:61-110 | a token leads back to its cursor exactly for the first page and for plausible positions, and is refused otherwise |
| Cursors.AcceptedTokensArePositions | backend/internal/query/cursor.go:76-110 | any accepted text names the first page or a plausible position |
| Cursors.PositionsAre | backend/internal/query/cursor.go:48-110 | which cursors are positions and which is the first page |
| Cursors.TokenHolds | backend/internal/query/cursor.go:61-72 | a token holds a version byte, the time in eight bytes and the id |
| Cursors.TokensAreDistinct | backend/internal/query/cursor.go:61-72 | distinct positions have distinct non-empty tokens |
| Cursors.AfterIsTheTupleComparison | backend/internal/query/cursor.go:38-46 | After is the tuple comparison of the keyset predicate and a strict total order |
| Paging.AnswerShape | backend/internal/query/builder.go:319-353 | a query returns strictly descending positions, one copy per eligible id, never one another eligible copy is ahead of |
| Paging.PagesSay | backend/internal/query/builder.go:319-353 | a page holds rows of the half-open time range the filters accept, past the cursor, newest first and by larger id within a time, and of each id a latest copy of the newest version |
| Paging.DaysAre | deploy/clickhouse/migrations/0002_events.up.sql:38 | days are counted in milliseconds from the epoch |
| Paging.DescendingPrefix | backend/internal/query/builder.go:327-334 | a strictly descending sequence is fixed by its elements |
| Paging.DedupeIsFinal | backend/internal/query/builder.go:336-353 | when copies agree, LIMIT 1 BY returns what FINAL would over rows keyed by day and id, from every cursor |
| Paging.SupersededResurfaces | backend/internal/data/clickhouse/search.go:218-228 | when a copy matches that the newest of its key does not, the first page shows a row FINAL would not |
| Paging.MovedCopyIsShownTwice | backend/internal/query/builder.go:336-341 | when matching copies of one id have two sort values, the first page or the one after it differs from FINAL |
| Paging.DedupeReplacesFinalExactlyWhenCopiesAgree | deploy/clickhouse/migrations/0002_events.up.sql:80-82 | LIMIT 1 BY may replace FINAL exactly when the matching copies of an id have one sort value and the newest under the key of a matching copy matches |
| Exports.GenuinePage | backend/internal/data/clickhouse/search.go:137-182 | a returned row is the newest matching copy at its position and passes the cursor |
| Exports.FullPage | backend/internal/service/search.go:812-834 | a full page carries the walk on: nothing repeated, nothing steady skipped, the cursor on its last row |
| Exports.LastPage | backend/internal/service/search.go:812-834 | a page without a lookahead row completes the walk |
| Exports.MiddlePage | backend/internal/query/cursor.go:56-110 | a full page's token leads on from its last row or is refused because that row has no position |
| Exports.PageKeepsTheWalk | backend/internal/service/search.go:812-834 | one turn of the loop through the real token ends, continues or fails on a row without a position |
| Exports.PageIsTheTop | backend/internal/data/clickhouse/search.go:137-182 | a page is the first rows of the answer and names a next page exactly when there are more |
| Exports.LimitsAre | backend/internal/query/export.go:42-68 | a page holds a hundred rows; an export is cut at a hundred thousand |
| Exports.CollectExportRows | backend/internal/service/search.go:801-836 | the paging loop ends within the reads the cap allows and delivers a walk; it fails only on a failed read or a row without a position |
| Exports.SteadyRowsAreDeliveredOnce | backend/internal/service/search.go:796-836 | a row present at every read is delivered exactly once, whatever else changes between reads |
| Exports.WalkOfAFrozenTable | backend/internal/service/search.go:801-836 | over an unchanging table the walk is a prefix of the FINAL answer, the whole of it exactly when the pages ran out |
| Exports.Exporter.constructor | backend/internal/query/export.go:63-68 | an exporter starts empty with the clamped cap |
| Exports.Exporter.Yield | backend/internal/query/export.go:110-121 | a row is taken while the cap allows and it encodes, otherwise marked as truncation or as a failure |
| Exports.Exporter.Write | backend/internal/query/export.go:97-156 | writes the first rows up to the cap or the first that cannot be encoded, and flags truncation exactly when more were supplied |
| Exports.ExportSearch | backend/internal/service/search.go:724-794 | an export is the capped prefix of a walk |
| Exports.ExportOfAFrozenTable | backend/internal/service/search.go:724-836 | the export is the first rows of the FINAL answer up to the cap; truncation is reported exactly when more exist and the cap is not a whole number of pages |
| Like.ContainsIsSubstring | backend/internal/query/builder.go:267-312 | the escaped pattern between wildcards matches exactly the values containing the text |
| Like.EscapeReadsAsLiterals | backend/internal/query/builder.go:304-312 | escaped text reads as literal characters |
| FilterBuilder.ClauseBinds | backend/internal/query/builder.go:208-295 | a clause's placeholders take exactly its own arguments |
| FilterBuilder.ContainsFilterMatches | backend/internal/query/builder.go:264-269 | a contains filter on a text binds one pattern, which matches exactly the values holding the text |
| FilterBuilder.ContainsFilterPrints | backend/internal/query/builder.go:264-269 | on a number it matches the values holding the number as printed, on a list those holding the list in brackets |
| FilterBuilder.ComparisonReads | backend/internal/query/builder.go:271-289 | how each comparison reads once bound |
| FilterBuilder.ListReads | backend/internal/query/builder.go:213-226 | a list filter reads as its values between commas, each bound by itself |
| FilterBuilder.RefusedExactlyWhen | backend/internal/query/builder.go:208-295 | a filter is refused exactly when it wants a list and has none, or its comparison does not exist |
| FilterBuilder.AcceptedExactlyWhen | backend/internal/query/builder.go:129-206 | a call is accepted exactly when it names a listed field, in any case and with any spaces around it, and a comparison there is; it filters that field's column |
| FilterBuilder.FirstBadIsTheFirst | backend/internal/query/builder.go:243-295 | the error of a list of filters is that of the first that has no clause |
| FilterBuilder.ReadingsSay | backend/internal/query/builder.go:298-302 | filters read one after another, each behind its own AND |
| FilterBuilder.BindMarks | backend/internal/query/builder.go:213-226 | the IN list has one placeholder per value |
| FilterBuilder.TextIgnoresValues | backend/internal/query/builder.go:149-154 | the statement text is the same for every choice of values |
| FilterBuilder.Builder.constructor | backend/internal/query/builder.go:161-162 | a builder starts with no filter and no error |
| FilterBuilder.Builder.Where | backend/internal/query/builder.go:164-187 | a call is recorded as a filter or as the first error of the chain |
| FilterBuilder.Builder.WhereIfSet | backend/internal/query/builder.go:189-196 | a blank value adds nothing |
| FilterBuilder.Builder.Conditions | backend/internal/query/builder.go:243-302 | either the first error, or a fragment that bound from left to right reads as every filter asked for, in order, each with its own values |
| FilterBuilder.ConditionsSay | backend/internal/query/builder.go:243-302 | conditions are rendered exactly when every call is accepted and has a clause, and then every call reads as its own filter |
| FilterBuilder.EveryCallIsAFilter | backend/internal/query/builder.go:164-187 | no accepted call is dropped; an error is that of the first refused call |
| FilterBuilder.OnlyListedColumns | backend/internal/query/builder.go:129-140 | nothing but an allowlisted column and a supported comparison enters a statement |
| FilterBuilder.JoinIsPrefixed | backend/internal/query/builder.go:298-301 | joining with AND after a leading AND prefixes every clause |
| FieldEncoding.FieldsInjective | backend/internal/audit/entry.go:125-163 | the length-prefixed encoding is injective whatever the fields hold |
| FieldEncoding.FieldsSnoc | backend/internal/audit/entry.go:150-162 | field after field: its length, a colon, itself, a bar |
| FieldEncoding.DecimalReads | backend/internal/audit/entry.go:150-162 | a length is written in its digits without leading zeros |
| AuditChain.HashFixesContent | backend/internal/audit/entry.go:123-164 | two entries share a hash exactly when all fourteen hashed fields agree |
| AuditChain.IdealHashersExist | backend/internal/audit/entry.go:123-164 | some digest and time text meet what the results below ask of them |
| AuditChain.ChainKeepsTheRecord | backend/internal/audit/entry.go:105-198 | an entry records what its caller said at the millisecond it happened, the address trimmed and in lower case, linked to the hash it was given; a record is refused exactly without action, known outcome or actor |
| AuditChain.ChainExtends | backend/internal/audit/entry.go:166-198 | an entry chained onto a verified log extends it |
| AuditChain.VerifyChain | backend/internal/audit/entry.go:200-223 | passes exactly chains from the seed; a report names the first entry that breaks one |
| AuditChain.VerifyRange | backend/internal/audit/entry.go:225-255 | passes exactly runs of linked entries; a report names the first break |
| AuditChain.HashesAreDistinct | backend/internal/audit/entry.go:123-164 | no hash of a verified log occurs twice |
| AuditChain.RunsAgreeFromTheEnd | backend/internal/audit/entry.go:225-255 | two accepted slices ending in one hash agree entry by entry from the end |
| AuditChain.LastHashFixesTheLog | backend/internal/audit/entry.go:200-223 | the last hash of a verified log fixes the whole log |
| AuditChain.SlicesPass | backend/internal/audit/entry.go:225-235 | every stretch of a verified log passes the range check |
| AuditChain.RemovedBlock | backend/internal/audit/entry.go:200-255 | removing a block escapes the full check exactly at the tail and the range check exactly at either end |
| AuditChain.AlteredEntry | backend/internal/audit/entry.go:200-255 | an altered entry escapes exactly when it is last, rehashed, and keeps its link |
| AuditChain.InsertedEntry | backend/internal/audit/entry.go:200-255 | a well-chained entry listed anywhere but last breaks both checks |
| AuditChain.AuditTrail.Append | backend/internal/data/clickhouse/audit.go:35-65 | an append chains the record onto the latest hash; it keeps the listing a chain exactly when the new entry sorts last |
| AuditChain.ListingIsInOrder | backend/internal/data/clickhouse/audit.go:35-65 | the listing holds the rows, each as often as it was inserted, in order of time and then of id |
| AuditChain.InRangeHolds | backend/internal/data/clickhouse/audit.go:113-174 | a range lists exactly the entries of its time range, both ends included |
| AuditChain.RangeChecksPass | backend/internal/data/clickhouse/audit.go:113-174 | over a chained listing the check of any time range and limit passes |
| Secrets.Cache.PutRef | backend/internal/secrets/secrets.go:106-120 | stores under a known reference, refusing empty secrets and references |
| Secrets.Cache.Resolve | backend/internal/secrets/secrets.go:123-137 | an empty or missing value is not found |
| Secrets.Cache.Delete | backend/internal/secrets/secrets.go:140-148 | removes the reference unless the call is refused |
| Secrets.DurableStore.Write | backend/internal/secrets/durable.go:71-89 | appends a row versioned by the clock |
| Secrets.DurableStore.PutRef | backend/internal/secrets/durable.go:64-69 | seals under an existing reference |
| Secrets.DurableStore.Resolve | backend/internal/secrets/durable.go:92-122 | the newest row, a tombstone being not found |
| Secrets.DurableStore.Delete | backend/internal/secrets/durable.go:128-142 | appends a tombstone |
| Secrets.Tiered.EnsureDurable | backend/internal/secrets/tiered.go:69-89 | backfills a cached secret once per reference and process, forgetting the mark on failure |
| Secrets.Tiered.Put | backend/internal/secrets/tiered.go:96-106 | durable first; a failed cache write is not an error |
| Secrets.Tiered.Resolve | backend/internal/secrets/tiered.go:109-132 | cache first; any cache failure falls through to the durable copy and refills the cache |
| Secrets.Tiered.Delete | backend/internal/secrets/tiered.go:135-140 | durable first, then the cache |
| SecretRuns.PutSays | backend/internal/secrets/tiered.go:96-106 | a Put writes one durable row and answers with its reference exactly when the database took it; only then is the cache written |
| SecretRuns.DeleteSays | backend/internal/secrets/tiered.go:135-140 | a Delete writes one tombstone; the cache forgets the secret only when the database took it, and the reply tells whether both did |
| SecretRuns.ResolveSays | backend/internal/secrets/tiered.go:69-132 | a cached secret is answered whatever the database does and written there when missing; anything else is answered from the database and refills the cache |
| SecretRuns.NewestRowDecides | backend/internal/secrets/durable.go:92-126 | the durable copy of a reference is that of its newest row |
| SecretRuns.WriteIsNewest | backend/internal/secrets/durable.go:77-84 | a durable write is the newest of its reference and leaves others alone |
| SecretRuns.StepKeepsHeld | backend/internal/secrets/tiered.go:69-140 | a stored secret stays stored through every step but its deletion |
| SecretRuns.StepKeepsGone | backend/internal/secrets/tiered.go:69-140 | a deleted reference stays gone through every step |
| SecretRuns.PutThenResolve | backend/internal/secrets/tiered.go:91-132 | after a successful Put and before any delete, Resolve answers that secret, or fails only with the durable store unreachable |
| SecretRuns.CacheAnswersAlone | backend/internal/secrets/tiered.go:91-132 | a Put or Resolve whose cache write landed leaves the cache able to answer with the database down |
| SecretRuns.DeleteThenResolve | backend/internal/secrets/tiered.go:134-140 | after a Delete that returned success the reference never resolves again |
| SecretRuns.MarksAreHonest | backend/internal/secrets/tiered.go:43-45 | a marked reference has had a durable row, in every reachable state |
| SecretRuns.PutWritesDurablyFirst | backend/internal/secrets/tiered.go:91-106 | no Put leaves a credential in the cache alone |
| SecretRuns.RefusedDeleteChangesNothing | backend/internal/secrets/tiered.go:134-140 | a delete the database refused leaves both copies as they were |
| SecretRuns.CacheStaysBehind | backend/internal/secrets/tiered.go:91-132 | no run from a migrated deployment caches a credential without a durable row |
| SecretRuns.CacheOnlySecretSurvives | backend/internal/secrets/tiered.go:59-68 | a cache-only secret survives later cache loss once resolved with both stores up |
| SecretRuns.FailedDeleteIsUndone | backend/internal/secrets/tiered.go:134-140 | after a delete whose cache step failed, a lookup restores the durable copy exactly when the cache answers, the process has not marked the reference and the database takes read and write |
| Normalizing.PolicyCache.RedactedFields | backend/internal/normalize/batch.go:272-283 | each tenant's policy is read once a batch; a failed read is not remembered |
| Normalizing.Worker.Handle | backend/internal/normalize/worker.go:114-145 | one record: raw first, then normalized or rejected, then published, stopping at the first failure |
| Normalizing.Worker.HandleBatch | backend/internal/normalize/batch.go:35-66 | a fetch: all raw rows, then normalized, rejected and published rows, stopping at the first failure; failures are the undecodable records |
| Normalizing.Worker.DecodeEnvelopes | backend/internal/normalize/batch.go:76-93 | decoded envelopes in order and the indices that did not decode |
| Normalizing.Worker.NormalizeOne | backend/internal/normalize/batch.go:192-227 | the row of one envelope under its tenant's policy |
| Normalizing.Worker.NormalizeBatch | backend/internal/normalize/batch.go:112-149 | rows, rejections and the unknown-field tally by feed |
| Normalizing.Worker.ForwardBatch | backend/internal/normalize/batch.go:230-260 | publishes every event that can be encoded, in one call |
| NormalizerRuns.BatchRefinesHandle | backend/internal/normalize/batch.go:18-66 | a batch leaves, table by table and in order, what its records handled one at a time leave |
| NormalizerRuns.HandleDoneExactlyWhen | backend/internal/normalize/worker.go:114-145 | one record is done exactly when it decodes, its raw event was stored, and its rejection was or its row was stored and published |
| NormalizerRuns.BatchDoneExactlyWhen | backend/internal/normalize/batch.go:35-66 | a batch is done exactly when each of its four writes worked or had nothing to write |
| NormalizerRuns.FailuresAreTheUndecodable | backend/internal/normalize/worker.go:114-231 | the batch fails the undecodable records; handled alone, those and unencodable events fail |
| NormalizerRuns.EachEventIsInOneTable | backend/internal/normalize/batch.go:112-149 | every decoded record is in exactly one of normalized and rejected, in order |
| NormalizerRuns.NormalizedExactlyWhen | backend/internal/normalize/worker.go:148-183 | an envelope is normalized exactly when its vendor is known, its payload parses, its time is plausible and its policy was read; its row then shows each redactable field as the adapter gave it unless the policy asks for it |
| NormalizerRuns.RejectedBecause | backend/internal/normalize/worker.go:148-231 | a rejected row says why, in the order the checks are made |
| NormalizerRuns.DriftCounts | backend/internal/normalize/batch.go:112-149 | the tally of a feed is the number of its normalized events that met unknown fields |
| NormalizerRuns.BatchAppends | backend/internal/normalize/batch.go:35-66 | without failures a batch appends its raw, normalized, rejected and published rows, each in order |
| NormalizerRuns.BatchKeepsRawFirst | backend/internal/normalize/batch.go:27-30 | whatever fails, no derived row is stored before its raw event |
| NormalizerRuns.RetriesAreHarmless | backend/internal/normalize/batch.go:32-34 | any number of failing attempts, then a success, leaves the same rows as one clean run and the same newest row per event |
| NormalizerRuns.RepeatsAreAbsorbed | backend/internal/normalize/batch.go:32-34 | rows inserted again change no key's newest row |
| NormalizerRuns.MaskedFieldsAreNeverStored | backend/internal/normalize/redact.go:26-80 | whatever fails, no row a batch stores or publishes shows a field that some entry of its tenant's policy names, trimmed and in any case; every other field is as the adapter gave it |
| Identities.IdentityExactlyWhen | backend/internal/normalize/identity.go:84-106 | for all deliveries: one identity exactly for one feed and either no request id and equal bytes, or a vendor and request id that read the same joined |
| Identities.IdentityIsPerFeedVendorAndRequest | backend/internal/normalize/identity.go:84-106 | with vendor names that hold no separator and open with no space, one identity exactly for one feed, vendor and request id, or no request id and equal bytes |
| Identities.VendorsCollideExactlyWhen | backend/internal/normalize/identity.go:97-106 | some requests of two vendors are one event exactly when their names, spaces in front aside, are the same or one extends the other past a separator |
| Identities.SeparatorInAVendorCollides | backend/internal/normalize/identity.go:97-106 | a separator inside a vendor name makes two requests one event |
| Backoffs.BackoffIsCappedDoubling | backend/internal/alerting/webhook.go:112-122 | the wrapped shift gives the doubled base capped at the maximum for every attempt number |
| Backoffs.BackoffIsMonotone | backend/internal/alerting/webhook.go:112-122 | later attempts never wait less |
| Backoffs.BackoffSchedule | backend/internal/alerting/webhook.go:112-122 | two seconds, doubled up to five minutes |
| Backoffs.OverflowMissesTheRange | backend/internal/alerting/webhook.go:117-121 | an overflowed shift never looks like a real delay |
| Delivery.DecisionsAreBounded | backend/internal/alerting/webhook.go:129-167 | a decision on a listed alert keeps attempts within five and pending below five |
| Delivery.DeliveredExactlyWhen | backend/internal/alerting/webhook.go:129-167 | delivered exactly when there is no endpoint or it took the alert; an attempt is counted exactly when there is an endpoint |
| Delivery.SkippedUntilBackoff | backend/internal/alerting/worker.go:244-252 | an alert is passed over exactly until its doubled, capped delay has gone by |
| Delivery.EndedStaysEnded | backend/internal/alerting/worker.go:186-242 | delivered and failed are final for passes that list current rows |
| Delivery.DuePassesEndTheAlert | backend/internal/alerting/worker.go:186-252 | every pass at which the alert is due by its own delay ends it or uses an attempt, others change nothing; five end it |
| Delivery.LatePassesAreDue | backend/internal/alerting/webhook.go:112-122 | once the longest delay has gone by, every pass over a pending alert is due |
| Delivery.DeliveryCommutesWithTriage | backend/internal/alerting/webhook.go:124-128 | a delivery update and a triage update commute and leave each other's fields alone |
| Delivery.AlertStore.MarkDelivery | backend/internal/alerting/worker.go:254-263 | writes the delivery fields onto the current row under a new version |
| Delivery.AlertStore.Transition | backend/internal/service/alerts.go:388-417 | writes the triage fields onto the current row under a new version |
| Delivery.DeliveryWorker.DeliverOne | backend/internal/alerting/worker.go:202-242 | one listed alert moves by one step, told from the facts alone: skipped until due, failed when its rule cannot be read, otherwise what its endpoint answered; no other row changes |
| Delivery.DeliveryWorker.DeliverPending | backend/internal/alerting/worker.go:186-200 | a pass decides every listed alert on its own and touches no other |
| Delivery.PassSays | backend/internal/alerting/worker.go:186-252 | what a pass makes of each alert it listed, told from what the pass met |
| Delivery.DeliveredByAPassExactlyWhen | backend/internal/alerting/worker.go:202-252 | a pending alert becomes delivered exactly when its rule was read, it was due, and there is no endpoint or the endpoint took it; with the rule unread it fails with one more attempt |
| Delivery.TriageSays | backend/internal/service/alerts.go:388-417 | what acknowledging and resolving write |
| Delivery.CurrentPassIsOneStep | backend/internal/alerting/worker.go:186-200 | over a current listing each alert moves by one step and ended ones stay |
| Delivery.StalePassesStayWithinBounds | backend/internal/alerting/worker.go:186-263 | however old its listing, a pass keeps every alert within bounds |
| Delivery.StaleListingReopens | backend/internal/alerting/worker.go:202-263 | a stale listing reopens an ended alert exactly when the rule was read, the alert was due and the endpoint failed retryably |
| CooldownKeys.CooldownKey | backend/internal/alerting/cooldown.go:75-95 | the key is the tenant, rule and sorted length-prefixed group |
| CooldownKeys.KeysIdentifyGroups | backend/internal/alerting/cooldown.go:66-95 | keys are equal exactly when tenant, rule and group are |
| CooldownKeys.PreimageInjective | backend/internal/alerting/cooldown.go:86-92 | equal hashed texts list the same keys with the same values |
| SortedKeys.SortedIsUnique | backend/internal/alerting/cooldown.go:80-84 | sorting leaves one order |
| Cooldowns.Store.SetNX | backend/internal/data/redis/client.go:82-88 | a claim succeeds exactly when no earlier claim of its key is still running |
| Cooldowns.Cooldown.Allow | backend/internal/alerting/cooldown.go:48-64 | claim and check in one step; no cooldown always allows; a store that does not answer allows nothing, even when the claim landed |
| Cooldowns.SuppressedExactlyWhen | backend/internal/alerting/cooldown.go:48-64 | an answered claim is suppressed exactly while an earlier one of its key is running; a granted one starts now |
| Cooldowns.UnansweredAllowsNothing | backend/internal/alerting/cooldown.go:48-64 | a claim the store refused changes nothing; one whose answer was lost allows nothing but suppresses what follows |
| Cooldowns.Alerts.Fire | backend/internal/alerting/worker.go:150-183 | an alert is inserted exactly when its insert works and, with a cooldown, its claim was answered and free; each is backed by a claim of its own |
| Cooldowns.Alerts.AlertsAreSpaced | backend/internal/alerting/worker.go:145-183 | two alerts of one tenant, rule and group are at least the cooldown apart across replicas |
| Counting.Counter.IncrBy | backend/internal/data/redis/client.go:142-167 | a counter that is still charged never restarts, so every charge's total is exact; an error may have charged it all the same |
| Counting.BucketStaysWithinLimit | backend/internal/ingest/quota.go:69-115 | what a bucket accepts stays within its limit although refusals are charged |
| Counting.IntervalMeetsTwoBuckets | backend/internal/middleware/ratelimit.go:65 | an interval of one window meets at most two buckets |
| Counting.AtMostTwiceTheLimit | backend/internal/middleware/ratelimit.go:33-37 | in any interval of one window at most twice the limit is allowed |
| RateLimiting.RateLimiter.Allow | backend/internal/middleware/ratelimit.go:57-81 | a request is charged scope by scope until one is exhausted, and allowed when all passed; a counter error lets it through |
| RateLimiting.AllowedExactlyWhen | backend/internal/middleware/ratelimit.go:57-81 | allowed exactly when every scope was charged, told its total and found it within its limit; otherwise told to come back after the window of the first that was over |
| RateLimiting.RateLimiter.BurstIsBounded | backend/internal/middleware/ratelimit.go:33-37 | per scope and subject, the counter lets through at most twice the limit in any interval of one window |
| Quotas.QuotaEnforcer.Check | backend/internal/ingest/quota.go:48-67 | which counters a delivery is charged to and what follows; a counter error allows it and ends the check |
| Quotas.QuotaSays | backend/internal/ingest/quota.go:48-122 | a delivery is allowed exactly when no charge was told it is over its limit; the bytes are charged exactly when the event quota was checked and met; the refused come back in a second or at midnight |
| Quotas.WindowsAre | backend/internal/ingest/quota.go:69-99 | one second and one day, each counter kept a second, or an hour, longer |
| Quotas.QuotaEnforcer.CheckEventRate | backend/internal/ingest/quota.go:69-91 | one charge on the second's counter, refused for a second when over the limit, allowed when the counter fails |
| Quotas.QuotaEnforcer.CheckDailyBytes | backend/internal/ingest/quota.go:93-122 | one charge on the day's counter, refused until the next midnight when over the limit, allowed when the counter fails |
| Quotas.QuotaEnforcer.QuotaHolds | backend/internal/ingest/quota.go:69-115 | events per second and bytes per day accepted on an answered counter stay within the quota |
| NameCaches.Resolver.constructor | backend/internal/cfrules/resolver.go:52-63 | an empty cache with the default time to live when none is given |
| NameCaches.Resolver.Cached | backend/internal/cfrules/resolver.go:111-144 | splits a request into known names and ids to fetch |
| NameCaches.Resolver.Remember | backend/internal/asnowner/resolver.go:71-80 | what was asked for is remembered, misses as empty names |
| NameCaches.Resolver.Names | backend/internal/asnowner/resolver.go:56-88 | one call: known names, one read for the rest, a failed read costing only those |
| NameCaches.EachIsAskedForOnce | backend/internal/asnowner/resolver.go:99-128 | exactly the unknown or expired ids are asked for, each once |
| NameCaches.NamesAreRecent | backend/internal/cfrules/resolver.go:66-108 | every name was the tenant's table value within the time to live and the duration of a read |
| NameCaches.NamesAreExact | backend/internal/asnowner/resolver.go:52-88 | over an unchanging table an answered call gives exactly the non-empty names |
| NameCaches.AnyHistoryIsExact | backend/internal/asnowner/resolver.go:52-88 | so after any history of calls, failures and clock values |
| NameCaches.AnsweredIdsAreKnown | backend/internal/asnowner/resolver.go:71-80 | an answered id is not asked for again within the time to live |
| NameCaches.ScopesAreIsolated | backend/internal/cfrules/resolver.go:24-34 | a tenant's answers depend on, and change, only its own entries |

## Left out

- The masking of extra fields (normalize/redact.go:82-124): the extras of an event are not part of the
  stored row, so only the fields a row holds are masked here.
- ClickHouse, Redis and Redpanda themselves: tables are sequences of inserted rows read by newest
  version, keys have stated expiry rules, a batch call is atomic or lands in part. Replica lag,
  merges that lose the most recent of equal versions, and clock skew between processes are not modelled.
- The choice between equal versions of an id on different days, which the bounded reads leave to
  ClickHouse: the later row is taken.
- The vendor in the key of the normalized table: it is taken to be fixed by the event id.
- SHA-256 and sealing: digests are ideal (injective, never the chain seed) or represented by the text
  they digest; opening a sealed secret returns it.
- JSON, HTTP, protobuf, time layouts and the vendor adapters' parsing: a record either decodes to a
  value or does not, and normalizing is a fixed function of its input.
- Character folding outside ASCII in field names and e-mail addresses.
- Floating point: scores are reals; a score that is not finite appears only as one that cannot be encoded.
- Expiry of buckets and identities while a batch of windows is being walked; the lists of one batch
  are read from one state of the store.
- The sticky identity claims of `backend/internal/correlate/window/window.go`.
- The order of rejected rows' timestamps.
- Entries scheduled while a catch-up runs, and a claim whose reply is lost after it popped its entries.
- AmendmentRuns.BatchAmendsTheNewest: covers batches in reach; what any batch leaves is
  LiveRows.BatchReplacesOnlyItsDays and LiveRows.NewestSurvivesExactlyWhen.
- Rule conditions, their evaluation and the measurement queries behind alerts.
- `narrowToEvents`, `earliest` and `latest` in `backend/internal/service/search.go`: an intersection of
  two intervals.
- ClickHouse's own order of UUID values in the audit listing: entry ids are ordered as text.
- The text of rate-limit and quota keys: keys are compared field by field.
- Overflow of quota counters.
- Cell rendering in exports.
- Paging.SupersededResurfaces: takes the two disagreeing copies as arguments, as does
  Paging.MovedCopyIsShownTwice; the equivalence is Paging.DedupeReplacesFinalExactlyWhenCopiesAgree.
- PartnerWalk.ExpandExactPartners: says nothing of the windows' answers when a read fails, because
  the batch then returns nothing and its windows stay claimed.
- Secrets.Tiered.Put: takes the minted reference as an argument, required to be new in the run theorems.
- Normalizing.Worker.HandleBatch: tenant policies are the same for every lookup of a batch and for
  every retry of it.
- RateLimiting.RateLimiter.Allow: the charges of one call follow one another; interleaved calls are
  covered by the bounds, which hold of the shared log whatever order charges arrive in.
- NameCaches.Resolver.Names: one call at a time; the lock and concurrent calls are not modelled.
