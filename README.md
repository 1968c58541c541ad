# osumod core in Dafny

osumod is a request queue for osu! beatmap modders. A mapper submits a mapset link to a
modder's queue. The server checks the mapset against the modder's policy and stores a
request when every check passes. Daily and one-off maintenance jobs close and archive
inactive queues. The client formats queries, reads responses, decides access, and draws
map cards and mode icons.

This project models that core and proves properties of the model:

- `Admission` (`admission.dfy`): the `POST /request` handler of `server/api.js`.
  - It normalises the osu! API rows into a map record, sorting the difficulties by star rating and formatting the length as `m:ss`.
  - It runs every admission check (Taiko only, no hybrid, Pending, own map, comment length, 14-day cooldown), each pushing its error.
  - It saves the request only when no check failed.
  - `RequestCollection` is the Request collection the handler reads and appends to.
- `Settings` (`settings.dfy`): the Settings (queue) collection as a class over a sequence of queue documents, one per owner. It models `find({ archived: { $ne: true } })` and `findOneAndUpdate({ ownerId }, update)`.
- `CleanQueues` (`clean_queues.dfy`): the daily sweep of `server/periodic/clean-queues.js`.
  - It closes open queues inactive for more than three weeks.
  - It archives queues inactive for more than eight weeks.
- `FindEmptyQueues` (`find_empty_queues.dfy`): the clean-up script `scripts/find-empty-queues.js`.
  - It groups requests by queue owner and sorts owners by request count.
  - It classifies queues as empty, empty and closed, used, abandoned or dead.
  - It is meant to archive the empty, closed queues except the last twenty. With 11 to 19 of them the script as written archives some anyway (see "## Findings"). The model's `Run` applies the intended selection.
- `Utilities` (`client/src/utilities.js`):
  - `formatParams` with `encodeURIComponent` (modelled down to UTF-8 bytes), `get`'s path, and `processResponse`
  - `hasAccess`
  - `getStage`, including JavaScript's `parseInt`
- `RequestPage` (`client/src/components/pages/Request.js`):
  - the beatmap-link regular expression, modelled as `exec` with greedy backtracking
  - the `onFinish` handler as a class with `loading` and `map` state, which records the events it causes
- `ModeIcon` and `MapCard` (the two client modules):
  - the icon and colour tables with their fallbacks
  - the star-rating colour bands
  - the style defaults written with `??`
  - the cover link
- `Common` (`common.dfy`): options, JavaScript's undefined/null/value distinction for `??`, milliseconds, and decimal strings.

Modelling conventions:

- Dates are integer milliseconds since the Unix epoch.
- The current time is a parameter wherever the source calls `new Date()`.
- Star ratings and sizes are `real`.
- Database collections are sequences in collection order.
- Mongo `ObjectId`s are modelled as integers. As 24-hex-digit strings they are never array-index keys, so `Object.keys` on `userToReqs` keeps insertion order. `FindEmptyQueues.Keys` models exactly that.

## Model

| member | source | states |
|---|---|---|
| Common.Decimal | server/api.js:15 | The decimal string of a number is non-empty, all digits, has a leading zero only for 0, and has one digit exactly below 10 |
| Common.ParseDecimalOfDecimal | server/api.js:15 | Reading the decimal string of `n` gives back `n` |
| Admission.PaddedSeconds | server/api.js:15 | The seconds field, zero-padded below 10, is exactly two digits whose value is the seconds |
| Admission.FormatTimeShape | server/api.js:14-15 | `formatTime(t)` is digits, a colon, then two digits. The minutes read back as `t / 60` and the seconds as `t % 60 < 60` |
| Admission.FormatTimeRoundTrip | server/api.js:14-15 | Parsing `m:ss` back from `formatTime(t)` gives `t` |
| Admission.ToDiffs | server/api.js:59-64 | One diff per provider row, each taking that row's version, mode and rating |
| Admission.InsertBySr | server/api.js:65 | Inserting into a list sorted by star rating keeps it sorted and adds exactly that difficulty |
| Admission.SortBySr | server/api.js:59-65 | The diffs are sorted by ascending star rating and are a permutation of the rows' diffs |
| Admission.NormaliseSpec | server/api.js:50-68 | The record has one diff per row, sorted and a permutation. A missing comment is "" and a missing m4m is false. The length parses back to the row's total seconds |
| Admission.Taikos | server/api.js:71 | The Taiko filter keeps exactly the Taiko diffs. It keeps them all iff every diff is Taiko |
| Admission.WaitHundredthsNearest | server/api.js:99-103 | The wait in the cooldown message is the hundredth of a day nearest the remaining time, halves rounded up |
| Admission.ElevenDaysMessage | server/api.js:96-103 | Three days after a request the message reads "You need to wait 11 days before you can request again" |
| Admission.NotTaikoIff | server/api.js:71-74 | "I'm a taiko BN" is reported iff no difficulty is Taiko |
| Admission.HybridIff | server/api.js:76-78 | "I can't nominate hybrid sets" is reported iff some difficulty is not Taiko |
| Admission.ModeChecksPassIff | server/api.js:71-78 | Both mode checks pass iff there is a difficulty and every difficulty is Taiko |
| Admission.StatusCheckIff | server/api.js:80-82 | The Pending error is reported iff the status is not Pending, and it carries the actual status |
| Admission.OwnMapCheckIff | server/api.js:84-86 | "This map isn't yours" is reported iff the creator is not the requester |
| Admission.CommentCheckIff | server/api.js:88-90 | The comment error is reported iff the comment exceeds 500 characters |
| Admission.CooldownCheckIff | server/api.js:92-105 | The wait error is reported iff a previous request exists less than 14 days ago. It carries the positive remaining time |
| Admission.NoErrorsIff | server/api.js:70-107 | The error list is empty iff every check passes. No check stops the others |
| Admission.LatestRequestDate | server/api.js:93 | The result is the date of the requester's latest request, or nothing iff the requester has none |
| Admission.LatestRequestCooldown | server/api.js:93-98 | Checking only the latest request is the same as requiring every request by that user to be 14 days old |
| Admission.PushModeErrors | server/api.js:70-78 | The two mode checks append exactly the mode errors to what was pushed before |
| Admission.PushMapErrors | server/api.js:80-90 | The status, ownership and comment checks append exactly their errors in that order |
| Admission.PushCooldownError | server/api.js:92-105 | The cooldown check appends its error exactly when a request lies within 14 days |
| Admission.CollectErrors | server/api.js:70-105 | The pushed list equals the specified error list in the handler's order |
| Admission.RequestCollection.Submit | server/api.js:39-119 | A provider failure answers "Invalid beatmap ID" and an empty provider list faults, both saving nothing. Otherwise the reply holds the record and its errors, and a request dated now by the user is appended iff there are no errors |
| Admission.AcceptedIff | server/api.js:39-118 | A submission is stored iff every row is Taiko, the map is Pending and the requester's own, the comment has at most 500 characters, and every earlier request by the user is 14 days old |
| Settings.Apply | server/periodic/clean-queues.js:42 | An update sets the fields it names and leaves every other field of the document alone |
| Settings.Unarchived | server/periodic/clean-queues.js:19-21 | The query returns exactly the unarchived documents, keeping one document per owner |
| Settings.UnarchivedConcat | server/periodic/clean-queues.js:19-21 | The query keeps collection order: the result for two stretches of documents is the result for the first followed by the result for the second |
| Settings.UnarchivedSnoc | server/periodic/clean-queues.js:19-21 | One more document is listed last when it is unarchived, and not at all when it is archived |
| Settings.UpdateFirst | server/periodic/clean-queues.js:42 | The collection after an update by owner. Its effect is stated by `Settings.UpdateFirstByOwner` |
| Settings.FirstIndex | server/periodic/clean-queues.js:42 | The index of the first document of an owner, or nothing iff no document has that owner |
| Settings.UpdateFirstByOwner | server/periodic/clean-queues.js:42 | With one document per owner, an update by owner changes exactly that owner's document |
| Settings.SettingsCollection.FindOneAndUpdate | server/periodic/clean-queues.js:42 | The loop finds the first document of the owner and applies the update to it alone. One document per owner stays true |
| Settings.SettingsCollection.UpdateOwners | server/periodic/clean-queues.js:40-43 | Each listed owner's document receives the update, every other document is kept, and owners stay unique |
| CleanQueues.QueuesToClose | server/periodic/clean-queues.js:32-34 | Selects exactly the open queues inactive for more than three weeks |
| CleanQueues.QueuesToArchive | server/periodic/clean-queues.js:36-38 | Selects exactly the queues inactive for more than eight weeks |
| CleanQueues.ArchiveSelectionAlsoCloses | server/periodic/clean-queues.js:32-38 | Every open queue selected for archiving is also selected for closing |
| CleanQueues.SweepEffect | server/periodic/clean-queues.js:19-48 | After the sweep a queue is open iff it was open and was archived or active within three weeks. It is archived iff it was, or its last activity is over eight weeks old. No other field changes |
| CleanQueues.SweepMonotone | server/periodic/clean-queues.js:40-48 | The sweep never opens or un-archives a queue and leaves archived queues untouched |
| CleanQueues.SweepIdempotent | server/periodic/clean-queues.js:15-52 | A second sweep at the same instant changes nothing |
| CleanQueues.SelectedByOwner | server/periodic/clean-queues.js:42-47 | With one document per owner, updating by the owner of a selected queue reaches exactly the selected documents |
| CleanQueues.Clean | server/periodic/clean-queues.js:15-52 | The collection after `cleanQueues` is the specified sweep of the collection before it, with owners still unique |
| FindEmptyQueues.RequestsFor | scripts/find-empty-queues.js:29-31 | Exactly the requests targeting the owner |
| FindEmptyQueues.UserToQueue | scripts/find-empty-queues.js:16-18 | Maps exactly the owners of the queues, each to one of that owner's queues |
| FindEmptyQueues.Keys | scripts/find-empty-queues.js:40 | The keys are exactly the owners, each listed once |
| FindEmptyQueues.KeysOfDistinct | scripts/find-empty-queues.js:40 | When every owner has one queue, the keys are the owners in queue order |
| FindEmptyQueues.FetchRequests | scripts/find-empty-queues.js:27-40 | The fetch loop builds the owner-to-requests map and the owner list in first-seen order |
| FindEmptyQueues.InsertByCount | scripts/find-empty-queues.js:43-44 | Insertion adds exactly the one owner |
| FindEmptyQueues.InsertByCountSorted | scripts/find-empty-queues.js:43-44 | Inserting into a list sorted by descending request count keeps it sorted |
| FindEmptyQueues.SortByCount | scripts/find-empty-queues.js:43-44 | The sorted owners are a permutation of the owners |
| FindEmptyQueues.SortByCountSorted | scripts/find-empty-queues.js:43-44 | The sorted owners are in descending request count |
| FindEmptyQueues.EmptyQueues | scripts/find-empty-queues.js:49 | Keeps exactly the owners with no requests |
| FindEmptyQueues.EmptyQueuesOfInsert | scripts/find-empty-queues.js:43-49 | Inserting an owner adds it in front of the empty queues when it has no requests, and otherwise leaves them as they were |
| FindEmptyQueues.SortKeepsEmptyOrder | scripts/find-empty-queues.js:43-49 | The stable sort leaves the empty queues in their original order, which decides the twenty kept |
| FindEmptyQueues.ClosedAmong | scripts/find-empty-queues.js:51 | Keeps exactly the empty queues that are closed |
| FindEmptyQueues.UsedQueues | scripts/find-empty-queues.js:54 | Keeps exactly the owners that are not empty |
| FindEmptyQueues.EmptyUsedPartition | scripts/find-empty-queues.js:49-54 | Empty and used queues together are a permutation of the owner list |
| FindEmptyQueues.Latest | scripts/find-empty-queues.js:60 | The head of the descending date sort is a request date no earlier than any other |
| FindEmptyQueues.Oldest | scripts/find-empty-queues.js:61 | The head of the ascending date sort is a request date no later than any other |
| FindEmptyQueues.AbandonedAmong | scripts/find-empty-queues.js:70-75 | Keeps exactly the used queues whose oldest request is over 60 days old and whose requests are all unarchived, without feedback and Pending |
| FindEmptyQueues.DeadAmong | scripts/find-empty-queues.js:78-81 | Keeps exactly the used queues that are not abandoned and whose latest request is over 150 days old |
| FindEmptyQueues.ToArchiveAsWrittenArchivesTooMany | scripts/find-empty-queues.js:89 | As written, 10 to 19 empty closed queues archive 2n - 20 of them (10 of 15) instead of none |
| FindEmptyQueues.EmptyAndClosedToArchive | scripts/find-empty-queues.js:89 | All but the last twenty are archived: a prefix of length max(0, n - 20), keeping min(n, 20) |
| FindEmptyQueues.ToArchiveAgreesFromTwenty | scripts/find-empty-queues.js:89 | For at least twenty queues, or at most ten, the code as written selects what was intended |
| FindEmptyQueues.ClassifyOwners | scripts/find-empty-queues.js:27-44 | The sorted list holds each owner of an unarchived queue exactly once |
| FindEmptyQueues.ClassifyEmptyUsed | scripts/find-empty-queues.js:49-54 | Empty and used queues split the owners by whether any request targets them. A queue is empty and closed iff it is empty and closed. The archive list lies within the empty closed list |
| FindEmptyQueues.ClassifyAges | scripts/find-empty-queues.js:56-81 | The abandoned and dead criteria are stated in terms of the owner's requests, and no queue is both |
| FindEmptyQueues.Run | scripts/find-empty-queues.js:13-108 | The report is the specified classification. Exactly the owners chosen by the corrected selection become archived (not the as-written slice of line 89), and nothing else changes |
| Utilities.Utf8 | client/src/utilities.js:3 | A character encodes to 1 to 4 bytes, and to itself alone iff it is ASCII |
| Utilities.PercentEncode | client/src/utilities.js:3 | Each byte becomes three characters, all unreserved or '%' |
| Utilities.EncodeUriComponent | client/src/utilities.js:3 | The encoding uses only unreserved characters and '%' |
| Utilities.PercentDecodeEncoded | client/src/utilities.js:3 | Decoding the percent escapes of some bytes gives those bytes back |
| Utilities.DecodeEncodeUriComponent | client/src/utilities.js:3 | Decoding `encodeURIComponent(s)` gives the UTF-8 bytes of `s` |
| Utilities.SplitJoin | client/src/utilities.js:4 | Splitting the `&`-joined parts on `&` gives back the parts when none contains `&` |
| Utilities.SplitPairOf | client/src/utilities.js:3 | Splitting `key=value` at the first '=' gives back the key and the value |
| Utilities.FormatParamsRoundTrip | client/src/utilities.js:1-5 | The query is empty iff there are no params. Parsing it gives back each key with its encoded value, in order |
| Utilities.GetPath | client/src/utilities.js:25-26 | The path is the endpoint, a '?', then the query, so with no params it is the endpoint followed by '?' |
| Utilities.ProcessResponse | client/src/utilities.js:7-23 | The body is thrown iff the response is not ok. It is the parsed JSON, or the raw text when parsing fails |
| Utilities.SomeRole | client/src/utilities.js:52 | True iff some role belongs to the tournament and has one of the names |
| Utilities.HasAccessSpec | client/src/utilities.js:48-54 | No username denies access, an admin has access, and otherwise access holds iff some role of that tournament is Host, Developer or a listed role |
| Utilities.ParseIntSign | client/src/utilities.js:65 | A leading '-' negates what the digits after it parse to |
| Utilities.ParseIntSpace | client/src/utilities.js:65 | Leading white space is skipped |
| Utilities.ParseIntDecimal | client/src/utilities.js:65 | A decimal numeral followed by a non-digit parses to its value |
| Utilities.ParseIntNegative | client/src/utilities.js:65 | `-` followed by a decimal numeral parses to the negated value |
| Utilities.ParseIntLeadingSpace | client/src/utilities.js:65 | A space before a decimal numeral does not change the value |
| Utilities.VisibleCount | client/src/utilities.js:63 | The count of visible pools is 0 iff none is visible and all stages iff all are |
| Utilities.GetStageSpec | client/src/utilities.js:59-70 | No stages gives `{}`. Otherwise the index is the last visible pool without a fragment, or the parsed fragment (NaN as 0). The stage is at that index, or the first one when the index is out of range |
| Utilities.GetStageNoVisiblePool | client/src/utilities.js:62-68 | With no visible pool and no fragment, the index is -1 and the first stage is shown |
| Utilities.GetStageByFragment | client/src/utilities.js:64-68 | `#2` selects the third stage. `#7` (out of range) and `#x` (NaN) select the first, with indices 7 and 0 |
| RequestPage.LastOccurrence | client/src/components/pages/Request.js:27-28 | Backtracking of the greedy `.*` finds the last occurrence of the pattern's core in range, or reports that there is none |
| RequestPage.ExecFrom | client/src/components/pages/Request.js:27-28 | `exec` finds an occurrence at or after the start position |
| RequestPage.ParseLinkDigits | client/src/components/pages/Request.js:27-31 | The captured id is a non-empty run of digits |
| RequestPage.ExecFindsOccurrence | client/src/components/pages/Request.js:27-28 | An occurrence at `q` is found from any start at or before `q` |
| RequestPage.ParseLinkIff | client/src/components/pages/Request.js:27-31 | A link is accepted iff `(osu\|old).ppy.sh/(b\|s\|beatmapsets)/` followed by a digit occurs in it |
| RequestPage.ParseLinkLastOccurrence | client/src/components/pages/Request.js:27-28 | On a link without line breaks the id is taken from the last occurrence |
| RequestPage.ParseLinkFirstLine | client/src/components/pages/Request.js:27-28 | Of two links on separate lines, only the first is read |
| RequestPage.PostIffMatch | client/src/components/pages/Request.js:25-42 | A submission posts iff the link matches, once, with the parsed id. Otherwise its only effect is the "Invalid beatmap link" toast |
| RequestPage.LoadingBracketsPost | client/src/components/pages/Request.js:33-41 | Loading is set true before the post and false after it, whether it succeeds or fails. The map is set iff the post succeeds |
| RequestPage.RequestForm.OnFinish | client/src/components/pages/Request.js:25-42 | The handler causes exactly the specified events. It leaves the state alone on a bad link and ends not loading. The map changes only on a successful post |
| ModeIcon.IconForSpec | client/src/components/modules/ModeIcon.js:11-16 | A glyph exists exactly for the four API mode strings, and no two modes share one |
| ModeIcon.Band | client/src/components/modules/ModeIcon.js:19-26 | A rating's band is one of the six palette entries |
| ModeIcon.DiffColorBands | client/src/components/modules/ModeIcon.js:19-26 | The colour is the palette entry of the rating's band, and the band is the half-open interval the rating falls in |
| ModeIcon.PaletteDistinct | client/src/components/modules/ModeIcon.js:19-26 | The six colours are distinct |
| ModeIcon.BandMonotone | client/src/components/modules/ModeIcon.js:19-26 | A higher rating never falls in a lower band |
| ModeIcon.StyleSpec | client/src/components/modules/ModeIcon.js:31-35 | The colour is "inherit" iff no rating is given. A given rating is coloured by its band, and null is coloured as 0. Size and padding default to 24 and 5 only when null or undefined |
| MapCard.StatusIconSpec | client/src/components/modules/MapCard.js:65 | An unknown status gets the Pending icon. Nominated and Finished share the like icon, and all other known statuses have distinct icons |
| MapCard.StatusColorSpec | client/src/components/modules/MapCard.js:33-39 | Exactly five statuses have a colour, each with an icon. Nominated and Finished have none |
| MapCard.ModTypeLabelSpec | client/src/components/modules/MapCard.js:81-83 | The label is shown iff `showModType` is set, reading M4M iff m4m and NM otherwise |
| MapCard.DiffColorAgrees | client/src/components/modules/MapCard.js:49-56 | The card's difficulty colours agree with the mode icon's, band by band |
| MapCard.DiffIconAgrees | client/src/components/modules/MapCard.js:41-46 | The card's mode icon table agrees with the mode icon module's |
| MapCard.CoverHrefShape | client/src/components/modules/MapCard.js:88 | The cover link has no line break, and the link pattern occurs in it only at its host, followed by the map id |
| MapCard.CoverHrefParses | client/src/components/modules/MapCard.js:88 | The cover link is a link the request page accepts, naming the same map id |
| Admission.FormatTime | server/api.js:14-15 | Minutes, a colon, then the seconds zero-padded to two digits. Read back by `ParseTime` (`Admission.FormatTimeRoundTrip`) |
| Admission.Normalise | server/api.js:50-68 | The map record built from the provider rows. Its fields are stated by `Admission.NormaliseSpec` |
| Admission.ModeErrors | server/api.js:71-78 | The Taiko and hybrid errors. Stated by `Admission.NotTaikoIff` and `Admission.HybridIff` |
| Admission.MapErrors | server/api.js:80-90 | The status, ownership and comment errors. Stated by their `...CheckIff` lemmas |
| Admission.CooldownErrors | server/api.js:92-105 | The 14-day wait error. Stated by `Admission.CooldownCheckIff` |
| Admission.Errors | server/api.js:70-105 | Every error in push order. Empty iff all checks pass (`Admission.NoErrorsIff`) |
| Admission.WaitHundredths | server/api.js:100-102 | The remaining wait rounded to hundredths of a day. Stated by `Admission.WaitHundredthsNearest` |
| Admission.Hundredths | server/api.js:100-102 | How a number of hundredths of a day prints as a number of days. Stated by `Admission.HundredthsShape` |
| Admission.HundredthsShape | server/api.js:100-102 | The days print as the whole-day decimal, plus a point and one or two fraction digits only when there is a fraction. The last digit is never '0', and the text reads back as the same number of hundredths |
| Admission.Message | server/api.js:47-103 | The exact text pushed for each error. The wait text is checked by `Admission.ElevenDaysMessage` and `Admission.HundredthsShape` |
| CleanQueues.LastActiveDate | server/periodic/clean-queues.js:23-29 | The last owner action, or 2022-04-17 at midnight UTC when there is none |
| CleanQueues.ShouldClose | server/periodic/clean-queues.js:33 | Open, and inactive for more than three weeks |
| CleanQueues.ShouldArchive | server/periodic/clean-queues.js:37 | Inactive for more than eight weeks |
| CleanQueues.Swept | server/periodic/clean-queues.js:40-48 | One document after the sweep. Stated by `CleanQueues.SweepEffect` |
| CleanQueues.Sweep | server/periodic/clean-queues.js:40-48 | Every document swept, the length kept. Stated by `CleanQueues.SweepEffect`, `SweepMonotone` and `SweepIdempotent` |
| FindEmptyQueues.UserToReqs | scripts/find-empty-queues.js:23-34 | Each owner of a queue mapped to the requests targeting it. Built by `FindEmptyQueues.FetchRequests` |
| FindEmptyQueues.IsAbandoned | scripts/find-empty-queues.js:71-75 | The oldest request is over 60 days old and no request was ever answered. Used by `FindEmptyQueues.AbandonedAmong` |
| FindEmptyQueues.JsSlice | scripts/find-empty-queues.js:89 | `slice` with JavaScript's bounds: a negative bound counts back from the end, and the bounds are clamped |
| FindEmptyQueues.ToArchiveAsWritten | scripts/find-empty-queues.js:89 | The selection as written. Shown wrong for 11 to 19 queues by `FindEmptyQueues.ToArchiveAsWrittenArchivesTooMany` |
| FindEmptyQueues.Classify | scripts/find-empty-queues.js:43-103 | Every list the script prints. Stated by `FindEmptyQueues.ClassifyOwners`, `ClassifyEmptyUsed` and `ClassifyAges` |
| Utilities.FormatParams | client/src/utilities.js:1-5 | Each key with `=` and its encoded value, joined by `&`. Inverted by `Utilities.FormatParamsRoundTrip` |
| Utilities.HasAccess | client/src/utilities.js:48-54 | The access decision, or `None` where reading `roles` throws. Stated by `Utilities.HasAccessSpec` |
| Utilities.ParseInt | client/src/utilities.js:65 | `parseInt` without a radix. Stated by the `Utilities.ParseInt...` lemmas |
| Utilities.GetStage | client/src/utilities.js:57-71 | The current stage and its index. Stated by `Utilities.GetStageSpec` |
| RequestPage.ParseLink | client/src/components/pages/Request.js:27-31 | The id captured by the link pattern, if any. Stated by `RequestPage.ParseLinkIff` and `ParseLinkLastOccurrence` |
| RequestPage.OnFinishEffects | client/src/components/pages/Request.js:25-42 | The events of one submission. Stated by `RequestPage.PostIffMatch` and `LoadingBracketsPost` |
| ModeIcon.IconFor | client/src/components/modules/ModeIcon.js:11-16 | The glyph of a mode string. Stated by `ModeIcon.IconForSpec` |
| ModeIcon.GetDiffColor | client/src/components/modules/ModeIcon.js:19-26 | The colour of a star rating. Stated by `ModeIcon.DiffColorBands` |
| ModeIcon.Style | client/src/components/modules/ModeIcon.js:31-35 | The icon's colour, size and padding. Stated by `ModeIcon.StyleSpec` |
| MapCard.StatusIcon | client/src/components/modules/MapCard.js:65 | The status icon with its fallback. Stated by `MapCard.StatusIconSpec` |
| MapCard.StatusColor | client/src/components/modules/MapCard.js:33-39 | The two-tone colour of a status. Stated by `MapCard.StatusColorSpec` |
| MapCard.ModTypeLabel | client/src/components/modules/MapCard.js:81-83 | The mod-type badge. Stated by `MapCard.ModTypeLabelSpec` |
| MapCard.GetDiffColor | client/src/components/modules/MapCard.js:49-56 | The card's copy of the difficulty colours. Stated by `MapCard.DiffColorAgrees` |
| MapCard.DiffIcon | client/src/components/modules/MapCard.js:41-46 | The card's copy of the mode icons. Stated by `MapCard.DiffIconAgrees` |
| MapCard.CoverHref | client/src/components/modules/MapCard.js:88 | The cover link. Stated by `MapCard.CoverHrefShape` and `CoverHrefParses` |

## Left out

- Floating point is not modelled:
  - `round` in `server/api.js` for star ratings; a diff carries the provider's rating, parsed as a real, unrounded.
  - `parseFloat` of bpm and rating.
  - The cooldown wait in days is modelled exactly, in integer hundredths.
- Admission.NormaliseSpec: `parseInt` of the map id and the total length is taken as already done. A missing or non-numeric length (`NaN:NaN`) is not modelled.
- Admission.Normalise: `req.body.comment || ""` and `req.body.m4m || false` take an absent value as the default. A truthy non-boolean m4m, or another falsy comment, is not distinguished.
- Admission.CommentCheckIff: the length counts characters, not UTF-16 code units. A character outside the Basic Multilingual Plane counts once here and twice in JavaScript.
- Utilities.EncodeUriComponent: characters are code points. A lone surrogate, which makes `encodeURIComponent` throw, is not modelled.
- Utilities.ParseInt: values are exact integers. JavaScript loses precision above 2^53.
- I/O is not modelled:
  - logging and `console.log`
  - the cron schedule
  - the JSON cache file of `scripts/find-empty-queues.js`; the model always fetches, so every listed owner has a queue
  - the user-name lookups used only for printing
  - the `reqTimes` printout
- Time: every `new Date()` is one `now` parameter. A clock advancing between the two reads in `scripts/find-empty-queues.js` is not modelled.
- The network (`fetch`, the osu! API, the post in `onFinish`) is not modelled. Its outcomes are parameters.
- The `post` and `delet` helpers of `client/src/utilities.js` only forward to `fetch` with a JSON body and are not modelled. `processResponse` and `get`'s path are.
- `getStage`'s fetch of the tournament is a parameter.
- React rendering is not modelled:
  - component lifecycle and layout
  - the card's compact and feedback sections and the tooltip date
  - the `edit` click handler
- Lookups in `icons`, `colors`, `diffIcons` and `iconMap` by a key such as "toString" would find an inherited property. Statuses and modes are assumed to be plain strings without such meaning.
- The other routes of `server/api.js` and `checkPermissions` are not modelled.
- `Request.js` posts to `/api/map`, and `server/api.js` has no such route. The post's outcome is a parameter.
- `hasAccess` on a non-admin user without a `roles` field throws. `Utilities.HasAccess` gives `None` there; `server/models/user.js` declares no `roles` field.
- `server/models/settings.js` does not declare `lastActionedDate`, which `clean-queues.js` selects and reads. The model takes the field as stored in each document.
- Admission.SortBySr: JavaScript's `Array.prototype.sort` is stable, and the model sorts by insertion with the same comparator. No contract states the order of equally rated difficulties. For the script's sort by request count, `FindEmptyQueues.SortKeepsEmptyOrder` states the order that matters.
- FindEmptyQueues.Run: it archives with the corrected selection `EmptyAndClosedToArchive`. It does not archive what line 89 of `scripts/find-empty-queues.js` archives for 11 to 19 empty, closed queues (2n - 20 of them). `ToArchiveAsWritten` models that line, and `ToArchiveAgreesFromTwenty` shows where the two agree.
- Settings.SettingsCollection.UpdateOwners assumes every Settings document has an `ownerId` and no two documents share one, through `Valid()`. `CleanQueues.Clean` and `FindEmptyQueues.Run` make the same assumption. The source checks neither:
  - `scripts/associate-user-id.js:15-17` stops without setting `ownerId` when an owner's user is not found.
  - With two documents for one owner, `findOneAndUpdate({ ownerId })` updates only the first, possibly an archived one, and leaves the other queue open.
  - The model does not cover either case.
- Admission.RequestCollection.Submit is one atomic step. In the source the latest request is read (`server/api.js:93`) and the new one saved (line 115) with awaits in between. Two concurrent submissions by one requester can both pass the 14-day check, so `AcceptedIff`'s cooldown holds only for submissions handled one after another.
- CleanQueues.Clean is one step that cannot fail. In the source each `findOneAndUpdate` of the loops (`server/periodic/clean-queues.js:40-48`) is awaited separately. A throw partway through leaves the sweep half applied, which `Clean`'s contract does not cover. The same holds for the archive loop of `FindEmptyQueues.Run`.

## Findings

| source | as written | input that shows it | evidently intended | confidence | as-written member | corrected member |
|---|---|---|---|---|---|---|
| scripts/find-empty-queues.js:89 | `emptyAndClosedQueues.slice(0, emptyAndClosedQueues.length - 20)`: when fewer than twenty queues are listed, the end bound is negative and `slice` counts it back from the end | 15 empty, closed queues: the end is -5, read as 10, so the first 10 queues are archived | archive all but the last twenty, and none when there are at most twenty | not executed | FindEmptyQueues.ToArchiveAsWritten | FindEmptyQueues.EmptyAndClosedToArchive |
