# WikiSyncer: a verified model of its exports, staging, key rotation and release tools

WikiSyncer keeps an offline copy of selected wiki pages. This project models the parts of it whose
correctness rests on more than reading one function: calendar arithmetic and timestamps of historical
exports, the naming and writing of an export, its crash-safe installation, the rotation of a signing key,
the daemon's draft staging and background retry, the desktop application's request loop, and the release
tools that inspect binaries, signatures and archives.

Code that computes a value is a function with lemmas about it. Code that works by changing state is a
method or a class: each is proved equal to a step of a specification (`ensures r == Parse(bytes)`,
`ensures (State(), out) == Step(old(State()), request, env)`), or to have the effect the program is for,
and the theorems are about that specification, over every input, run or reachable state.

| files | what they model |
|---|---|
| `Calendar`, `Decimal`, `TimestampText`, `TimestampTheorems`, `TimestampTexts`, `HistoricalCutoff`, `HistoricalExport` | a timestamp from its text to the pages as they were then |
| `Slugs`, `Names`, `ExportPaths`, `ExportSelection`, `StagedExport`, `Prefixes` | what an export holds and what its files are called |
| `ExportInstall`, `ExportNames`, `KeyRotation` | replacement that may fail or stop at any step |
| `DraftStaging`, `DraftAnswers`, `BackgroundRetry`, `RetryTurns`, `ApplicationHandler` | the daemon's long-lived request handler |
| `PreviewRequests`, `PreviewAnswers`, `DesktopApp` | the desktop application's message loop |
| `Integers`, `ReleaseLimits`, `MachO`, `MachOText`, `SshSignature` | binary readers of the release tool |
| `ArchivePaths`, `ArchiveOrder`, `ArchiveBuilder`, `ArchiveVerifier`, `ArchiveLayout`, `ArchiveTheorems`, `ArchiveContents`, `ReleaseArchive` | the archive builder and the verifier that must accept its output |
| `ReaderCrawl` | the bounded crawl of the offline audit |
| `Wrappers`, `Sets` | types and small facts that several of them share |

`dafny verify dfyconfig.toml` checks the whole project.

Two places where a well-formed request is refused, and exactly when:

- An export can refuse to name its articles even though nothing is wrong with the library.
  `ExportPaths.NamingCanFail` gives three pages that do it; `ExportPaths.NamingFailsExactly` says, in
  terms of page numbers and titles, exactly when it happens, and `ExportPaths.OneWikiNeverCollides` that
  it cannot happen within one wiki.
- The timestamp reader accepts the year 0000 and the printer does not, so such a cutoff is read and then
  refused: `HistoricalCutoff.YearZeroIsReadButRefused`, and `TimestampTheorems.PrintableRange` for the
  exact range.

Further, the verifier of release archives makes two checks that the builder does not make itself.
`ReleaseArchive.BuiltArchivesAreAccepted` is therefore an equivalence: a built archive is accepted if and
only if no listed file name holds a backslash and the version, target and epoch leave the generated release
text within the bound for one member. `ReleaseArchive.BackslashIsRefused` gives an archive that is built and
refused.

The daemon's retry does not promise every unfinished run a turn. `RetryTurns.TurnComesExactly` says when a run
gets it: if and only if some poll starts before the delay is over that was set as many polls earlier as there
are runs before it in the list. Two runs whose attempts each fail after thirty seconds, the request timeout of
the client (crates/wikisync-mediawiki/src/lib.rs:222), therefore share all polls between them
(`RetryTurns.SlowFailuresStarve`); `RetryTurns.ThirdRunStarves` gives polls that never try a third run.

Assumptions about what lies outside the model are parameters: what the library's store, the network, a
decoder or a system call answers is an argument of the function or an arbitrary choice inside the method,
so every theorem covers every answer. File systems are used by one process at a time; `rename` replaces a
file atomically, or changes nothing when it fails; opening a file that must be new fails when it exists.

## Model

| member | source | states |
|---|---|---|
| Calendar.DaysInMonth | apps/wikisync-cli/src/export.rs:1095-1103 | A length is positive for exactly the months 1 to 12 and never exceeds 31. |
| Calendar.DateRoundTrip | apps/wikisync-cli/src/export.rs:1106-1118 | Every valid Gregorian date of any integer year survives date to day number to date. |
| Calendar.DayRoundTrip | apps/wikisync-cli/src/export.rs:372-387 | Every integer day number decodes to a valid month and day, and survives day to date to day. |
| Calendar.NextDayIsOneMore | apps/wikisync-cli/src/export.rs:1106-1118 | The next date of a calendar walked by month lengths has the next day number, across leap years, centuries and eras. |
| Calendar.WalkIsCount | apps/wikisync-cli/src/export.rs:1106-1118 | Walking n days from 1 January 1970 arrives at a valid date whose day number is n. |
| Calendar.WalkFromIsCount | apps/wikisync-cli/src/export.rs:1106-1118 | Walking n days from any valid date adds exactly n to its day number. |
| Calendar.WalkReaches | apps/wikisync-cli/src/export.rs:1106-1118 | The difference of two day numbers is the number of days to walk from the one date to the other. |
| Calendar.OrderIsDayOrder | apps/wikisync-cli/src/export.rs:1106-1118 | Day numbers order valid dates exactly as year, month and day do. |
| Calendar.SameDay | apps/wikisync-cli/src/export.rs:1106-1118 | Valid dates with one day number are one date. |
| TimestampText.Decimal32 | apps/wikisync-cli/src/export.rs:1083-1093 | The 32-bit fold over digits yields their decimal value, below 10 to the number of digits, without overflow for up to nine of them; errors are those of the specification. |
| TimestampText.DaysFromCivil64 | apps/wikisync-cli/src/export.rs:1106-1118 | In 64-bit arithmetic the conversion computes the mathematical day number for every year of four digits, and stays small. |
| TimestampText.ScaleToNanoseconds | apps/wikisync-cli/src/export.rs:1040-1042 | The scaling loop multiplies by the missing power of ten within 32 bits and stays below a thousand million. |
| TimestampText.ReadFraction | apps/wikisync-cli/src/export.rs:1026-1049 | The cursor loop finds the end of the digits and the exact nanoseconds, or the specified error. |
| TimestampText.ReadOffset | apps/wikisync-cli/src/export.rs:1051-1065 | The offset read is the signed number of seconds the zone denotes, less than a day. |
| TimestampText.ParseRfc3339 | apps/wikisync-cli/src/export.rs:999-1081 | The cursor-driven reader in machine integers computes the specification of the reader on every byte sequence; no 32-bit or 64-bit step overflows. |
| TimestampTheorems.WellFormedIsAccepted | apps/wikisync-cli/src/export.rs:999-1081 | Every timestamp of the grammar of section 5.6 of RFC 3339 (upper-case letters, seconds to 59, at most nine significant fraction digits) is accepted, as its local instant minus its offset and exactly its fraction. |
| TimestampTheorems.AcceptedIsWellFormed | apps/wikisync-cli/src/export.rs:999-1081 | Whatever is accepted is byte for byte the rendering of a well-formed timestamp. |
| TimestampTheorems.AcceptsExactlyTheGrammar | apps/wikisync-cli/src/export.rs:999-1081 | A text is accepted if and only if the grammar has it, and then seconds and nanoseconds are those it denotes. |
| TimestampTheorems.TrailingZerosAreIgnored | apps/wikisync-cli/src/export.rs:1026-1049 | Any number of zeros behind the fraction leaves the parsed instant unchanged. |
| TimestampTexts.AcceptsTheClock | apps/wikisync-cli/src/export.rs:999-1024 | Of all texts of nineteen digits and separators and a Z exactly those are accepted whose numbers are a date of the calendar and a time of the clock. |
| TimestampTexts.ZoneMovesTheInstant | apps/wikisync-cli/src/export.rs:1051-1081 | For every local time and fraction, the bytes `+hh:mm` after it mean exactly `hh * 3600 + mm * 60` seconds less than `Z`, and `-hh:mm` as many more; they are accepted exactly up to 23:59. |
| TimestampTexts.FractionIsExact | apps/wikisync-cli/src/export.rs:1026-1049 | A fraction is accepted if and only if it has a digit and only zeros beyond the ninth; it then adds exactly its value and nothing else. |
| TimestampTexts.EpochIsZero | apps/wikisync-cli/src/export.rs:1067-1081 | The text `1970-01-01T00:00:00Z` is second 0. |
| TimestampTheorems.CanonicalMediawikiTimestamp | apps/wikisync-cli/src/export.rs:372-399 | The printer in 64-bit arithmetic computes the mathematical printer for every 64-bit second, without overflow. |
| TimestampTheorems.PrintableRange | apps/wikisync-cli/src/export.rs:388-392 | Printing succeeds on exactly the seconds of the years 0001 to 9999. |
| TimestampTheorems.PrintThenParse | apps/wikisync-cli/src/export.rs:372-399 | Every printed second parses back to itself with nanosecond 0. |
| TimestampTheorems.ParseThenPrint | apps/wikisync-cli/src/export.rs:372-399 | Every canonical text of those years parses, and prints back identically. |
| TimestampTheorems.TextOrderIsTimeOrder | apps/wikisync-cli/src/export.rs:396-398 | Canonical texts compare byte by byte exactly as their seconds compare (section 5.1 of RFC 3339), equality included. |
| HistoricalCutoff.TextFilterIsTimeFilter | crates/wikisync-store/src/lib.rs:8213-8243 | Filtering by text at the printed cutoff keeps exactly the whole-second revisions that start no later than the instant counted in nanoseconds, though the cutoff's text drops the fraction. |
| HistoricalCutoff.QueryFindsCurrent | crates/wikisync-store/src/lib.rs:8220-8243 | The text-ordered query returns the latest revision, by time and then number, of those not after the instant; nothing when there is none. |
| HistoricalCutoff.CutoffSelectsByTime | apps/wikisync-cli/src/export.rs:361-370 | From any accepted timestamp to the revision: it succeeds if and only if the instant is printable, and then selects the revision current at that instant. |
| HistoricalCutoff.YearZeroIsReadButRefused | apps/wikisync-cli/src/export.rs:388-392 | The text `0000-01-01T00:00:00Z` is accepted, and as a cutoff it is refused whatever the revisions. |
| HistoricalExport.PageIsAsOf | apps/wikisync-cli/src/export.rs:184-253 | In a finished selection at an accepted timestamp each selected page is shown in exactly its revision current at that instant, or absent because nothing of it had been captured by then. |
| HistoricalExport.SelectAt | apps/wikisync-cli/src/export.rs:184-206 | From timestamp text to selection: it succeeds if and only if the text is accepted and the library as of the cutoff can be exported, and then every page is as it was at the instant. |
| Slugs.SafeSlug | apps/wikisync-cli/src/export.rs:942-966 | The one-pass loop yields the title's alphanumeric words in lower case, joined by single dashes and cut at 64 characters, or the fallback. |
| Slugs.SlugIsSafe | apps/wikisync-cli/src/export.rs:942-966 | A slug is a non-empty safe component of at most 64 characters: no separators, dots or capitals, no leading dash, no doubled dash. |
| Slugs.SlugEndsInDash | apps/wikisync-cli/src/export.rs:942-966 | A slug ends in a dash if and only if the cut fell right after one, so only at length 64. |
| Slugs.SlugOfSlug | apps/wikisync-cli/src/export.rs:942-966 | Slugging a slug changes nothing if and only if it does not end in a dash. |
| Slugs.SlugKeepsLetters | apps/wikisync-cli/src/export.rs:942-966 | A slug spells the letters and digits of the title from the first on, capitals as small letters, and all of them unless it was cut. |
| ExportPaths.AssignFailsExactly | apps/wikisync-cli/src/export.rs:281-293 | Giving each page its plain or its qualified name fails if and only if someone's plain name is taken and an earlier plain name is their qualified name. |
| ExportPaths.NamesAreDistinct | apps/wikisync-cli/src/export.rs:281-293 | Names given successfully are pairwise distinct. |
| ExportPaths.StemIsComponent | apps/wikisync-cli/src/export.rs:280-287 | Both names of a page are single safe components, whatever its title. |
| ExportPaths.NamingFailsExactly | apps/wikisync-cli/src/export.rs:280-293 | The refusal in terms of titles: some page repeats a slug of its number, and an earlier title of that number spells that slug and the page's wiki. |
| ExportPaths.OneWikiNeverCollides | apps/wikisync-cli/src/export.rs:280-293 | Within one wiki naming never fails and every article keeps its plain name. |
| ExportPaths.NamingCanFail | apps/wikisync-cli/src/export.rs:288-292 | Three concrete pages whose naming fails. |
| ExportPaths.MediaPathsAreDistinct | apps/wikisync-cli/src/export.rs:929-940 | Different objects or types never share a media path, through the hexadecimal text and its replaced colon. |
| ExportSelection.PlaceMedia | apps/wikisync-cli/src/export.rs:294-315 | All placements receive their object's path, named by its first placement; it fails exactly beyond the limit of placements. |
| ExportSelection.RunSelected | apps/wikisync-cli/src/export.rs:214-341 | The selection loop succeeds if and only if the wikis can be listed, every page is sound, the totals keep within their limits and naming is possible; the result holds exactly the captured pages in order under their names, articles and uncaptured pages add up to the selection, and the byte count is the exact sum. |
| ExportSelection.ArticlePathsAreDistinct | apps/wikisync-cli/src/export.rs:236-325 | In a finished selection all article paths are pairwise distinct. |
| ExportSelection.ArticleNamesAreSafe | apps/wikisync-cli/src/export.rs:280-293 | Every article path is one safe component below the article directory. |
| ExportSelection.OneFilePerObject | apps/wikisync-cli/src/export.rs:306-309 | Two placements anywhere in the selection share a file if and only if they show the same object. |
| ExportSelection.SoundSelectionsFailOnlyOnCollision | apps/wikisync-cli/src/export.rs:236-325 | A sound selection within the limits is refused if and only if two captured titles collide. |
| ExportSelection.ExportableExactly | apps/wikisync-cli/src/export.rs:214-341 | A selection is refused exactly when it exceeds 10,000 pages, 512 MiB of sources or 2,560,000 placements, when the library fails or contradicts itself, or when captured titles collide. |
| StagedExport.StagingDirectory.CreateNew | apps/wikisync-cli/src/export.rs:1247-1260 | A file is reported taken if and only if something has its name; otherwise it is created, or a failure leaves the directory as it was or with a part of the file. |
| StagedExport.BuildStagedExport | apps/wikisync-cli/src/export.rs:535-654 | Unless a file operation fails, the export is written if and only if everything reads, verifies and renders and the output keeps within its limit; whatever fails, no create-new target ever exists already. The files are exactly the index, the manifest with exact totals, each article, and each object once. |
| StagedExport.SelectionsAreApart | apps/wikisync-cli/src/export.rs:236-325 | What the selection loop produces names no two files alike: articles, objects, index and manifest. |
| StagedExport.OneImageFileEach | apps/wikisync-cli/src/export.rs:585-600 | There are as many image files as distinct objects. |
| StagedExport.FinishedFiles | apps/wikisync-cli/src/export.rs:535-654 | A finished export holds each article under its path, each object under its path as its first placement gives it, the index of all articles in order and the manifest with the totals, and nothing else. |
| StagedExport.FitsExactly | apps/wikisync-cli/src/export.rs:577-612 | An output fits exactly when each object's first placement reads, each article renders, and together they take at most 1 GiB. |
| StagedExport.SelectAndBuild | apps/wikisync-cli/src/export.rs:214-341 | Selection followed by writing: only the library, the limits, colliding titles and failing file operations can keep an export from being written. |
| ExportInstall.ReplaceThroughBackup | apps/wikisync-cli/src/export.rs:1209-1230 | At every intermediate state the prior export is whole, at the output or the backup, and the reported outcome says where it is. With an output and no unexpected backup it installs exactly unless an operation fails; an unexpected backup is refused and left. |
| ExportInstall.SwapIn | apps/wikisync-cli/src/export.rs:1216-1230 | With the prior export set aside, every state until the new one is in place, or the prior one back, keeps a complete export at the output or the backup; it installs exactly when no operation fails, and the backup is then gone. |
| ExportInstall.DropBackup | apps/wikisync-cli/src/export.rs:1227-1229 | After the new export is durable only the backup is touched; it succeeds exactly when the backup is there and no operation fails, and then removes the backup and nothing else. |
| ExportInstall.InstallStagedExport | apps/wikisync-cli/src/export.rs:1198-1231 | The same for the whole installation: on failure a present output stays present, or is left at the backup. Unless an operation fails it installs exactly when no unexpected backup stands beside an existing output; the staged export is then the output and nothing else has changed. |
| ExportInstall.CreateStagingDirectory | apps/wikisync-cli/src/export.rs:1178-1196 | It succeeds exactly when one of the hundred staging names is free and no operation fails; the directory is one that did not exist, and nothing else is touched. |
| ExportInstall.WriteExport | apps/wikisync-cli/src/export.rs:509-533 | Every state a run may leave, including after its cleanup, keeps the guarantee of a run. Unless an operation fails, the export is installed exactly when a staging name is free and no unexpected backup stands beside an existing output, and the output is all that has changed; otherwise nothing has. Where it can be installed, one failing operation leaves behind at most an empty staging directory, and the prior export is away from its place only after two. |
| ExportInstall.RunKeepsExports | apps/wikisync-cli/src/export.rs:509-533 | Wherever a run is cut short, outputs stay absent or complete and an existing export survives somewhere. |
| ExportInstall.ExportsSurviveAnyRuns | apps/wikisync-cli/src/export.rs:509-533 | Over any sequence of runs, each cut short anywhere, the output is absent or a complete export, and once one was installed a complete one always exists at the output or a backup. |
| ExportInstall.PathsAreDistinct | apps/wikisync-cli/src/export.rs:1178-1210 | Output, backup and staging names of any runs never coincide. |
| ExportNames.SlicesDiffer | apps/wikisync-cli/src/export.rs:166-181 | Slices of the past that differ in cutoff, revision, format or scope have different directory names, whatever the sign of the seconds and with or without a fraction. |
| ExportNames.SliceIsNotCurrent | apps/wikisync-cli/src/export.rs:160-196 | No slice has the name of the maintained export. |
| ExportNames.OtherRunsKeepASlice | apps/wikisync-cli/src/export.rs:178-206 | Over any runs that write the maintained export or other slices, each cut short anywhere, a slice stays exactly as it was. |
| KeyRotation.ExternalFiles.WriteCreateNew | apps/wikisync-cli/src/trust.rs:642-665 | An existing file is never touched; a new one holds a part of the bytes at every point. A free path is written in full, and nothing else changed, exactly when no step fails. |
| KeyRotation.ExternalFiles.AllocateTemporary | apps/wikisync-cli/src/trust.rs:702-720 | It succeeds exactly when one of the 128 names is free and no step fails; the staging file is new and nothing else changes. |
| KeyRotation.ExternalFiles.StageContent | apps/wikisync-cli/src/trust.rs:672-694 | At every point of staging only a new file beside the target differs, and it holds a part of the bytes; all of them exactly when a name is free and no step fails. |
| KeyRotation.ExternalFiles.AtomicReplace | apps/wikisync-cli/src/trust.rs:672-700 | At every point the target holds exactly the old or exactly the new bytes, and the result says which. It succeeds exactly when a staging name is free and no step fails, and the target is then all that has changed. |
| KeyRotation.RotateSigningKey | apps/wikisync-cli/src/trust.rs:322-397 | At every point the current head is the old or the new bytes, the new ones only once the key and the recovery copy are complete; the reported phase never claims a missing artefact. The rotation is made if and only if its checks pass, its targets and a staging name are free and no step fails, and then adds exactly the key and the recovery copy and replaces the head. A single failing step leaves only complete files, those of the phase reported or of the next one. |
| KeyRotation.RotationLosesNothing | apps/wikisync-cli/src/trust.rs:322-397 | A rotation cut short anywhere leaves every content that some file held in some file. |
| KeyRotation.NoFormerAnchorIsLost | apps/wikisync-cli/src/trust.rs:322-397 | Over any sequence of rotations, each cut short anywhere, no former trusted head and no key is lost. |
| DraftStaging.StagedBytesAreAcknowledged | apps/wikisyncd/src/application.rs:117-165 | In every run the staged bytes are the in-order concatenation of the chunks acknowledged since the draft was opened, all under its token. |
| DraftStaging.DecoderSeesCompleteDrafts | apps/wikisyncd/src/application.rs:253-264 | The decoder is given a payload only when it has the declared length, and then exactly the acknowledged bytes. |
| DraftStaging.RefusalChangesNothing | apps/wikisyncd/src/application.rs:73-228 | A refused request changes no staged byte, token, total or capacity; it can only drop a draft already expired. |
| DraftStaging.NextTokenCountsGrants | apps/wikisyncd/src/application.rs:103-115 | The next token is fixed by the number of drafts opened, wrapping past the largest 64-bit value to 1. |
| DraftStaging.TokenOfGrant | apps/wikisyncd/src/application.rs:103-115 | Tokens are never zero, and each is determined by how many were granted before. |
| DraftStaging.TokensAreDistinct | apps/wikisyncd/src/application.rs:103-115 | Two grants share a token only if the counter has wrapped between them. |
| DraftStaging.ReplayIsRefused | apps/wikisyncd/src/application.rs:128-134 | Sending an acknowledged chunk again is refused until the counter wraps. |
| DraftStaging.GrowthIsAmortised | apps/wikisyncd/src/application.rs:149-157 | Capacity never exceeds the declared total or twice the bytes received, and all regrowth of a run copies less than twice the bytes it acknowledged. |
| DraftStaging.DeadlineSlides | apps/wikisyncd/src/application.rs:158-158 | The deadline is always ten minutes after the latest request that moved it. |
| DraftStaging.DraftEndsOnPurpose | apps/wikisyncd/src/application.rs:73-228 | A staged draft ends if and only if its deadline has passed, its own token aborts it, or adding or editing under its own token succeeds. |
| DraftStaging.ExpiredDraftIsGone | apps/wikisyncd/src/application.rs:83-89 | In every run, ten minutes after the last request that moved its deadline a draft is gone: each request that needs one is refused undecoded and a permitted new draft opens; until then none does. |
| DraftAnswers.BeginAnswer | apps/wikisyncd/src/application.rs:90-116 | In terms of the log and the clock alone: a draft is begun if and only if its size is permitted and no other is open. |
| DraftAnswers.AppendAnswer | apps/wikisyncd/src/application.rs:117-165 | A chunk is acknowledged if and only if it has 1 to 4096 bytes, names the open draft, starts where the bytes acknowledged so far end, stays within the declared total, and finds room or memory; the answer says how far the draft has come. |
| DraftAnswers.CompletionAnswer | apps/wikisyncd/src/application.rs:166-219 | The decoder is shown a draft if and only if it is open, named and complete, and then exactly what was acknowledged; the request succeeds if and only if decoding and the library do. |
| DraftAnswers.AbortAnswer | apps/wikisyncd/src/application.rs:230-234 | A draft is aborted if and only if it is open under the token given. |
| DraftAnswers.RemoveAnswer | apps/wikisyncd/src/application.rs:220-229 | Removing succeeds if and only if the number is valid and the library agrees; during shutdown everything is refused. |
| DraftAnswers.PayloadIsDelivered | apps/wikisyncd/src/application.rs:90-210 | A payload of any permitted length, sent in order in chunks of any permitted sizes within the time limits while no other draft is open, is acknowledged in full, and adding it shows the decoder exactly that payload and completes. |
| Application.ApplicationHandler.Administer | apps/wikisyncd/src/application.rs:73-228 | The handler updated in place takes exactly the protocol's step and logs it, so the theorems about runs, and with them the exact answer to every request, hold of the object. |
| Application.ApplicationHandler.CompleteDraft | apps/wikisyncd/src/application.rs:253-264 | A complete draft is returned and its deadline moved; otherwise nothing changes. |
| Application.ApplicationHandler.AppendChunk | apps/wikisyncd/src/application.rs:117-165 | Appending in place, growth included, is the protocol's append. |
| Application.ApplicationHandler.SyncCollection | apps/wikisyncd/src/application.rs:386-423 | Only a successful synchronization by a client clears the collection's back-off, and it is recorded as an event. |
| Application.ApplicationHandler.PollSchedule | apps/wikisyncd/src/application.rs:607-700 | A poll that may run resumes the first unfinished run whose delay is over, claims the due schedule if and only if all are held back and there is one, and is idle otherwise; a success removes the collection's back-off and a failure sets it to thirty seconds. Every poll is recorded, so the theorems about retries hold of the object. |
| BackgroundRetry.AttemptIsExact | apps/wikisyncd/src/application.rs:619-665 | The attempt of a poll, case by case, in terms of the poll and the back-off map alone. |
| BackgroundRetry.AttemptIsDetermined | apps/wikisyncd/src/application.rs:619-665 | The cases exclude each other and leave none out. |
| BackgroundRetry.BlockedUntilDelay | apps/wikisyncd/src/application.rs:646-655 | Absent a success, a failed collection stays blocked for at least the delay. |
| BackgroundRetry.ResumeIsRateLimited | apps/wikisyncd/src/application.rs:626-655 | After a failure, and absent a successful synchronization, a collection is not resumed before its delay has passed. |
| RetryTurns.HeldBackInWindow | apps/wikisyncd/src/application.rs:626-655 | Until the first failure of a series of failing polls ends its delay, exactly what was tried is held back in addition to what the starting back-off holds. |
| RetryTurns.WindowResumes | apps/wikisyncd/src/application.rs:626-655 | From any starting back-off, the first n failing polls of one delay window all resume a run if and only if at each of them that back-off leaves more unfinished runs eligible than there were polls before it. |
| RetryTurns.NoneResumedTwice | apps/wikisyncd/src/application.rs:626-655 | In one window no run is resumed after it was tried. |
| RetryTurns.EachRunIsTriedOnce | apps/wikisyncd/src/application.rs:626-655 | When at each of n polls of one window enough runs remain, and the list has no more than n, it has exactly n and each is resumed exactly once; no further poll of the window resumes any. |
| RetryTurns.EligibleListGoesInOrder | apps/wikisyncd/src/application.rs:626-655 | A window that starts with the whole list eligible resumes its runs in list order, and then none. |
| RetryTurns.TurnComesExactly | apps/wikisyncd/src/application.rs:626-655 | Over any number of failing polls, however long they last: run m, with the runs before it and itself eligible at the first poll, is ever resumed if and only if some poll starts before the failure m polls earlier ends its delay. |
| RetryTurns.TurnComesInOrder | apps/wikisyncd/src/application.rs:626-655 | Poll m then resumes run m if and only if it starts before the first failure ends its delay. |
| RetryTurns.SlowFailuresStarve | apps/wikisyncd/src/application.rs:626-655 | When each failing attempt lasts the delay, every poll resumes one of the first two runs and no other run is ever tried. |
| RetryTurns.ThirdRunStarves | apps/wikisyncd/src/application.rs:626-655 | Three unfinished runs and arbitrarily many polls for which the third is eligible and never tried. |
| PreviewRequests.RunsKeepInvariant | apps/wikisync-gui/src/main.rs:314-870 | Every reachable state keeps freshness, numbering, the truth of requests in flight, and submissions that match their preview. |
| PreviewRequests.PreviewsAreFresh | apps/wikisync-gui/src/main.rs:421-461 | In every reachable state each stored preview answers a request for the scope and endpoint now in its form. |
| PreviewRequests.RequestsAreNumberedOnce | apps/wikisync-gui/src/main.rs:1475-1488 | No two tasks of a run carry the same identifier. |
| PreviewRequests.CreationUsesPreviewedEndpoint | apps/wikisync-gui/src/main.rs:462-510 | No collection is ever submitted with an endpoint other than the one its preview came from. |
| PreviewRequests.NothingMovesUnderARequest | apps/wikisync-gui/src/main.rs:1471-1498 | In every run, from the start of a request to the message that ends it, forms, previews and editor stay as they were when it was sent, and nothing but path probes is started. |
| PreviewRequests.RetiredTasksChangeNothing | apps/wikisync-gui/src/main.rs:1490-1498 | Once a task's key is not active, its completion changes nothing, then or ever after; probes, which are never active, have their own rule. |
| PreviewRequests.OvertakenProbesChangeNothing | apps/wikisync-gui/src/main.rs:137-148 | A path probe that a later one has overtaken changes nothing, then or ever after. |
| PreviewRequests.NothingIsStoredWithoutConsent | apps/wikisync-gui/src/main.rs:158-253 | In every run a library is created, and an edition prepared, only by a message that finds consent given. |
| PreviewRequests.ConsentIsGiven | apps/wikisync-gui/src/main.rs:149-149 | Consent that is present was given by a message and not withdrawn since. |
| PreviewAnswers.CreatePreviewIsAnswer | apps/wikisync-gui/src/main.rs:446-461 | In every reachable state a stored create preview has the request and exactly the pages of an earlier successful answer, whose key was active and belonged to the library shown, and has been stored since. |
| PreviewAnswers.EditPreviewIsAnswer | apps/wikisync-gui/src/main.rs:769-786 | Likewise for the editor, which has been open on the same collection since the answer came. |
| PreviewAnswers.AnswerIsShown | apps/wikisync-gui/src/main.rs:446-461 | Conversely the answer to a preview request is what its form shows next, and nothing else changes. |
| PreviewAnswers.SubmittedAsShown | apps/wikisync-gui/src/main.rs:421-510 | Every preview and submission ever started was asked for, and carries what the form showed and the preview stored beside it at that moment. |
| PreviewAnswers.RequestedIsSubmitted | apps/wikisync-gui/src/main.rs:421-510 | Whatever is asked for in this way is started at once as the one request in flight. |
| PreviewAnswers.SubmissionIsSpent | apps/wikisync-gui/src/main.rs:511-529 | A collection created leaves no preview and an empty name and selection; an edit saved closes the editor. |
| PreviewAnswers.EachCreationIsPreviewed | apps/wikisync-gui/src/main.rs:446-529 | Between two collections created with success the preview of the second was answered, so no preview is submitted twice with success. |
| PreviewAnswers.EnteredIsShown | apps/wikisync-gui/src/main.rs:314-420 | With nothing in flight a value entered is what its form shows, and every other field and the other form stay. |
| PreviewAnswers.FormIsAsEntered | apps/wikisync-gui/src/main.rs:314-529 | Nothing else changes the create form but a collection created. |
| PreviewAnswers.StatusIsReported | apps/wikisync-gui/src/main.rs:137-188 | In every reachable state the setup screen says what its latest probe found, or that a library was loaded. |
| PreviewAnswers.ReportIsShown | apps/wikisync-gui/src/main.rs:137-226 | Every such report is shown at once, and a path chosen is probed under the next identifier. |
| PreviewAnswers.CreatedWhereNoneWasFound | apps/wikisync-gui/src/main.rs:158-170 | A library is created only where the latest probe found none. |
| PreviewAnswers.LoadingIsStarted | apps/wikisync-gui/src/main.rs:150-313 | With nothing in flight opening, creating, refreshing and preparing start exactly the task they name. |
| PreviewAnswers.FailureChangesNothing | apps/wikisync-gui/src/main.rs:1490-1498 | A request that fails frees the application and changes nothing else modelled. |
| DesktopApp.App.FinishRequest | apps/wikisync-gui/src/main.rs:1490-1498 | A request finishes exactly under its own key and for the library now shown, and only the active request changes. |
| DesktopApp.App.BeginRequest | apps/wikisync-gui/src/main.rs:1484-1488 | A new key is issued, recorded and made active. |
| DesktopApp.App.Update | apps/wikisync-gui/src/main.rs:135-870 | The object updated in place takes exactly the specified step, reports the one task it started and extends its run, so the theorems about runs hold of the object. |
| MachO.WalkCommands | packaging/scripts/release.py:282-297 | The loop walks from command to command and succeeds exactly where the walk of the specification does. |
| MachO.WalkIsPartition | packaging/scripts/release.py:282-297 | The walk succeeds if and only if the region is exactly partitioned into that many aligned load commands. |
| MachO.ImageIsPartitioned | packaging/scripts/release.py:274-297 | The load commands of an accepted image exactly partition their declared region and all lie inside the image. |
| MachO.ThinMachoArchitecture | packaging/scripts/release.py:251-298 | A slice is accepted as an architecture if and only if it is a well-formed executable image of it. |
| MachO.NextSlice | packaging/scripts/release.py:337-364 | A record passes if and only if its slice is non-empty, aligned, after the table, inside the file, an image of what the record says, and disjoint from and different to all before. |
| MachO.CheckTable | packaging/scripts/release.py:333-364 | The table passes if and only if all its slices are sound and pairwise disjoint, of distinct architectures. |
| MachO.MachoArchitectures | packaging/scripts/release.py:301-365 | The validator accepts exactly the well-formed thin and universal executables, and returns their architectures in order. |
| MachO.CommandsStayInside | packaging/scripts/release.py:284-297 | Every command of a partition lies inside its region. |
| MachO.UniversalFits | packaging/scripts/release.py:325-365 | An accepted universal file has one or two slices, which together fit between the table and the end of the file. |
| MachO.SlicesShareNoByte | packaging/scripts/release.py:355-359 | No byte of an accepted universal file belongs to two slices. |
| MachOText.ImagesAreWritten | packaging/scripts/release.py:251-298 | A slice is an image of an architecture if and only if it starts, byte for byte, with a header and load commands as a linker writes them in either byte order. |
| MachOText.TableReads | packaging/scripts/release.py:312-345 | Every table written in one of the four formats is read back as exactly its records. |
| MachOText.UniversalIsWritten | packaging/scripts/release.py:312-364 | A file is universal if and only if it starts with a written table whose records describe written images, aligned, behind the table, inside the file and pairwise apart. |
| MachOText.AcceptedAsWritten | packaging/scripts/release.py:301-365 | The validator accepts an executable file of permitted size if and only if it starts with a written image or is such a universal file. |
| SshSignature.ReadThenPrint | packaging/scripts/release.py:1026-1038 | What the reader accepts is byte for byte the header, version 1 and the five length-prefixed fields it returns. |
| SshSignature.PrintThenRead | packaging/scripts/release.py:1001-1038 | Every printed blob is read back as exactly its fields (strings as in section 5 of RFC 4251). |
| SshSignature.AcceptsExactlyPrintedBlobs | packaging/scripts/release.py:1011-1044 | The check accepts a blob if and only if it is a printed one with the required namespace and algorithms. |
| ArchiveVerifier.ScanMembers | packaging/scripts/release.py:901-934 | The scan passes if and only if every member is safe, distinct and within the limits; its sets are what the members say. |
| ArchiveVerifier.VerifyArchive | packaging/scripts/release.py:887-953 | The verifier accepts exactly the archives of the stated layout: one root, exact binaries, one timestamp, required files, matching name. |
| ArchiveLayout.AcceptsExactlyReleases | packaging/scripts/release.py:887-953 | To the characters of the names: accepted are exactly the archives of at most 128 distinct members and 4 GiB whose names are or lie below one top-level directory, without empty, `.` or `..` pieces or backslashes; directories and regular files, owned by 0, of mode 493 if directory or program and 420 otherwise, of one time; with the three programs and nothing else where they go, and every required file. |
| ArchiveLayout.SafeOnCharacters | packaging/scripts/release.py:906-913 | A name passes the path check if and only if none of its pieces between slashes is empty, `.` or `..` and it holds no backslash. |
| ArchiveLayout.NothingEscapes | packaging/scripts/release.py:906-913 | No accepted member's name holds `/../`, ends in `/..`, begins with `../` or `/`, or leaves the directory the archive is named after. |
| ArchiveOrder.SortOrders | packaging/scripts/release.py:749-749 | Sorting by number of slashes, then by name, yields an ordered list. |
| ArchiveOrder.OrderedIsUnique | packaging/scripts/release.py:749-749 | Ordered lists of distinct names with the same members are the same list. |
| ArchiveBuilder.AddDirectories | packaging/scripts/release.py:746-748 | Each missing directory is added once, as a directory entry, and nothing else. |
| ArchiveBuilder.CompleteIsUnique | packaging/scripts/release.py:742-749 | The files determine the list of entries, in whatever order the missing directories are added. |
| ArchiveBuilder.BuildEntries | packaging/scripts/release.py:698-756 | The builder refuses exactly bad tokens, unusable files and entries beyond the limits; otherwise its result is the one list, in order and without duplicates, of the files and every directory they need. |
| ArchiveTheorems.ParentsComeFirst | packaging/scripts/release.py:742-749 | Every entry comes after the directory that contains it, and no name occurs twice. |
| ArchiveContents.ContentsExactly | packaging/scripts/release.py:664-695 | The files of a built archive are exactly the three programs, the release text, the five documents, the operation guides and the service files, each with its source's bytes under its path, programs executable. |
| ReleaseArchive.ReleaseTextIsAscii | packaging/scripts/release.py:728-737 | With checked tokens the generated release text is ASCII, so its encoding has one byte for each character. |
| ReleaseArchive.ReleaseTextLength | packaging/scripts/release.py:728-737 | The length of the release text is a fixed number and the lengths of its four values. |
| ReleaseArchive.BuildArchive | packaging/scripts/release.py:698-773 | The archive's name and members are a function of the arguments and the directories read; it is refused exactly when that archive cannot be built, which includes an epoch that the 32-bit time field of the compressed file cannot hold. |
| ReleaseArchive.BuiltArchivesAreAccepted | packaging/scripts/release.py:887-953 | What the builder emits the verifier accepts, if and only if no listed name holds a backslash and the four values leave the release text within the member bound. |
| ReleaseArchive.BackslashIsRefused | packaging/scripts/release.py:906-913 | Concrete arguments for which the builder emits an archive that the verifier refuses. |
| ReleaseArchive.PlainIsAccepted | packaging/scripts/release.py:887-953 | The same arguments without the backslash, for which the verifier accepts. |
| ReaderCrawl.CrawlReader | scripts/release_offline_audit.py:160-190 | The crawl ends, fetches each path at most once and at most 64, and only reachable ones; it succeeds if and only if every page it fetched could be read and the stylesheet is among them, and without a failing page it visits, below 64, exactly the reachable pages. |
| ReaderCrawl.SmallSitesPassExactly | scripts/release_offline_audit.py:160-190 | A site of at most 64 reachable pages passes if and only if all of them can be read and the stylesheet is one of them. |
| ReaderCrawl.OrderDoesNotMatter | scripts/release_offline_audit.py:160-190 | If one crawl stays below the limit, every crawl of the same links, pushed in any order, visits the same pages. |

## Left out

- The store, synchronization, MediaWiki and content crates, the network, SQLite, sockets and subprocesses: their answers are parameters.
- Hashing, signing, base64, gzip and tar encoding, `codesign`, `ssh-keygen` and `systemd`: only entry lists, bytes and success or failure appear.
- Command-line parsing, JSON, rendering of articles and of the user interface, notices and status texts: no deep properties.
- Symbolic links, hard links, file ownership and permissions, and other processes in the same directory: the file systems have one writer whose steps fail or stop.
- Loss of completed but unsynchronized writes in a power failure: a stop leaves the state after the last step.
- TimestampText.ParseRfc3339: the program's range error has no counterpart, because no accepted timestamp reaches it; `decimal` is modelled for the widths at which it is called.
- HistoricalCutoff.QueryFindsCurrent: it assumes a cutoff below a thousand million nanoseconds, as the reader returns it, and rows whose text is canonical, as the store's own documentation promises of captured revisions; the SQL engine is not modelled.
- ExportSelection.RunSelected: which refusal is reported first is not stated, only when there is one; the checked additions of the program cannot overflow before their limits refuse.
- StagedExport.BuildStagedExport: after a failed file operation it does not say which files are left, since the whole staging directory is then removed; the bytes of articles, images, index lines and manifest are represented by what they are made from and by their sizes; the latest capture time in the manifest is not modelled.
- ExportInstall.WriteExport: an export tree is complete or partial; checks of an existing output directory are among the steps that may fail.
- ExportNames.SlicesDiffer: it takes a fraction of less than a thousand million nanoseconds, as the reader of timestamps returns it.
- KeyRotation.RotateSigningKey: the phase is a lower bound only, since a file may be complete although the synchronization of its directory failed.
- Application.ApplicationHandler.Administer: exact reservation is assumed of the allocator, and the text of the last operation is not modelled.
- RetryTurns.WindowResumes: the polls of one window find the same list of unfinished runs and all fail; the listing's limit of 100 runs is part of that list.
- RetryTurns.TurnComesExactly: likewise for a list that stays the same; runs that are held back at the first poll are covered by the statements about one window and by the rate limit only.
- PreviewRequests.PreviewsAreFresh: freshness concerns scope and endpoint; that a stored edit preview belongs to the generation noted beside it is not claimed, and neither is that a request always ends.
- DesktopApp.App.Update: requests other than previews, submissions and opening a library appear as `Run`, once their own guards have let them through.
- DesktopApp.App.NextKey: identifiers are unbounded, where the program stops at the end of 64 bits.
- MachO.MachoArchitectures: which of several defects is reported is not stated; reading from an open file is reading from its bytes.
- SshSignature.AcceptsExactlyPrintedBlobs: it is about the decoded document; armor and base64 come before it.
- ArchiveBuilder.BuildEntries: directory listings are inputs, with distinct names as a file system gives them; that they are filtered by suffix is not modelled.
- ReaderCrawl.CrawlReader: what a page links to is a function of its path, so a page that changes between fetches is outside the model.
- `doctor.rs`, `purge.rs`, the dump and collection commands and `assess_install.py`: plumbing or single-branch checks, which would only add easy members.
