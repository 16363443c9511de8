# Proofs about ABERP's storage, sync and shell codecs

ABERP keeps its books in one DuckDB file with a write-ahead log (WAL), checkpoints that file by a journaled swap,
mirrors its audit ledger into an append-only text file, pulls incoming invoices from the tax authority's service, and
runs behind a desktop shell that talks to it over loopback HTTPS. This project models the logic of those parts in Dafny
and proves what they are for, over every input, every run and every crash schedule.

## The parts

**Installing a checkpoint** (`Fnv`, `Journal`, `Disk`, `Install`, `InstallSafety`). A directory is a map from paths to
bytes; building the staging file is one append per byte, and a crash may fall between any two file operations, in the
forward protocol and in every boot that resumes it. `Install.Volume` runs the same steps as code that changes the disk and
is proved equal to the step lists. The journal is the three-line text file, read with Rust's `lines` and
`parse::<u64>`; the hash is FNV-1a on 64-bit words. Writing the journal is taken as one step, as the program's atomic
write makes it; `Journal.TornJournal` and `InstallSafety.TornJournalBoot` say exactly what would happen otherwise.

**Checkpoints among commits** (`CheckpointRun`). Commits, WAL opens, in-place folds, checkpoint steps, crashes and boots
in any order. Assumptions: no commit, open or fold between the second fence sample and the end of the swap (the
single-writer lock is held), and an export sees exactly what the file and its WAL hold. Folds are allowed everywhere else;
`CheckpointRun.NoCommitLost` says exactly which of them cost a committed row.

**Ledger and mirror** (`HashChain`, `MirrorGuard`, `LedgerTable`, `MirrorRun`). The decision functions of boot and
recovery, the queries by which boot proves that the ledger table still holds what the mirror holds, and a machine in
which audit transactions commit, the lockstep append follows, and appends and boot extensions stop after any byte. The
record encoding is a parameter; it has to decode what it encodes to one non-empty line without a line feed or
a final carriage return. The hash is a parameter; where a property needs it, the two logs have no collision.

**Residual writes and their gate** (`LiveWal`, `PragmaScan`). Which writes survive a file swap, and the scan that finds
opens lacking the pragma, with its brace counters related to a stack of marked braces.

**Incoming invoices** (`Redactor`, `Preview`, `MonthChunks`, `Money`, `ApSync`, `Bootstrap`). The log redactor over
UTF-8 bytes, the calendar partition, half-even conversion on exact decimals, the capped page loop over a table that
ingests idempotently, and the one-shot year sweep. The service, and what goes wrong when one digest is stored, are
parameters: before the probe, in the transaction, or in the chain verification after the commit.

**Shell codecs** (`UrlQuery`, `Handshake`). Percent-encoding and the audit-events query; the handshake line.

`Utf8` (RFC 3629), `Text` (the `str` functions used) and `Numerals` support the rest. A Rust `str` is a Dafny `string`,
both sequences of Unicode scalar values; `as_bytes` is `Utf8.Encode`.

## Where the code and its comments differ

- `sanitise_response_preview` says it redacts any tax number, but cuts first: a number cut short by the limit stays
  (`Preview.CutRunSurvives`); a longer number cut to eight digits is redacted (`Preview.RunsAfterCut`).
- `residual_open_write_close` says that with the pragma the row stays where it was durably committed; it stays in the
  WAL, and the next swap drops it (`LiveWal.PragmaDoesNotSave`).
- `reconcile`, as the R1 extract has it, answers `Extend` from the lengths alone (`MirrorGuard.ExtendWithoutPrefix`). In the
  crate the prefix proof that runs before it makes the answer safe (`MirrorRun.BootProceedsOnDamage`).
- `first_divergent_seq` is said to return the first number at which mirror and table disagree. For a table that only
  doubled a row it names the mirror's head, whose row is intact (`LedgerTable.DivergenceNames`).
- `ensure_consistent_with_db` says it proves the shared prefix before acting in every branch. The rows it then appends are
  behind that prefix: a row lost there is not noticed, and the next boot refuses the mirror it wrote
  (`MirrorRun.ExtensionReadsBack`). Its error section still says a corrupt mirror is rebuilt; the code refuses.
- A cycle that fails after some pages reports zero ingested although their rows are stored (`ApSync.AbortedCycleStillStores`).
- The year sweep is meant to run until the year is covered, but its first committed audit row ends it for good
  (`Bootstrap.StoppedAfterOneChunk`).
- `year_to_date_month_chunks` documents an empty result for some dates; it has none (`MonthChunks.ChunksAreConsecutive`).

## Model

| member | source | states |
|---|---|---|
| Fnv.Fnv1a | tools/adr0098_r2_install_intent_extract.rs:75-82 | the byte loop computes the FNV-1a fold from the offset basis |
| Fnv.KnownHashes | tools/adr0098_r2_install_intent_extract.rs:75-82 | the published 64-bit FNV-1a values of the empty input and of the letter a |
| Fnv.XorBits | tools/adr0098_r2_install_intent_extract.rs:78 | the exclusive or has exactly the binary digits in which the two numbers differ |
| Fnv.StepReversible | tools/adr0098_r2_install_intent_extract.rs:78-79 | each round is undone by multiplying with the inverse of the prime modulo 2^64 and xoring again |
| Fnv.StepInjectiveInHash | tools/adr0098_r2_install_intent_extract.rs:78-79 | for a fixed byte, different hashes stay different |
| Fnv.StepInjectiveInByte | tools/adr0098_r2_install_intent_extract.rs:78-79 | for a fixed hash, different bytes give different hashes |
| Fnv.FoldInjective | tools/adr0098_r2_install_intent_extract.rs:75-82 | over any bytes, different starting hashes give different results |
| Fnv.CollisionLocal | tools/adr0098_r2_install_intent_extract.rs:75-82 | inputs that differ in one stretch collide exactly when the stretches lead to the same hash |
| Fnv.OneByteDetected | tools/adr0098_r2_install_intent_extract.rs:75-82 | changing any one byte, at any length and position, changes the hash |
| Journal.IntentRoundTrip | tools/adr0098_r2_install_intent_extract.rs:102-122 | the journal reads back as written if and only if neither path holds a line feed or ends in a carriage return |
| Journal.TornJournal | tools/adr0098_r2_install_intent_extract.rs:111-122 | a journal cut at any byte reads as none, or as one whose target is the shorter path those bytes spell; which of the two, by the position of the cut |
| Journal.PathsSpelled | tools/adr0098_r2_install_intent_extract.rs:86-95 | where WAL, journal, evidence copy and staging file stand |
| Numerals.ParseMeans | tools/adr0098_r2_install_intent_extract.rs:115 | a number parses when it is digits behind at most one plus sign, with a value that fits |
| Install.Volume.AtomicInstall | tools/adr0098_r2_install_intent_extract.rs:125-131 | renames the staging file over the target, then deletes the target's WAL |
| Install.Volume.RunForward | tools/adr0098_r2_install_intent_extract.rs:181-205 | from any disk: writes database, WAL and staging file, and up to each crash point leaves the disk after that many steps of the swap |
| Install.CrashLeaves | tools/adr0098_r2_install_intent_extract.rs:181-205 | file by file, the disk at each crash point: staging next to the old database and its WAL, then the journal too, then the new database with the stale WAL, then the new database alone |
| Install.Volume.Resume | tools/adr0098_r2_install_intent_extract.rs:134-171 | reads the journal, hashes both files, decides, and leaves the disk and answer of the resume step list, panics included |
| Install.Volume.Finish | tools/adr0098_r2_install_intent_extract.rs:150-154 | completes an interrupted swap from the rename on and clears the journal |
| Install.Volume.ClearStale | tools/adr0098_r2_install_intent_extract.rs:155-162 | deletes the stale WAL and clears the journal |
| Install.SwapPrefix | tools/adr0098_r2_install_intent_extract.rs:186-203 | no step of the swap fails, and the disk after each of its prefixes |
| InstallSafety.CrashSafe | tools/adr0098_r2_install_intent_extract.rs:134-205 | stopped after any operation of build and swap, then any number of boots each cut anywhere: the next boot that finishes succeeds, leaves no journal, and leaves the old database with its own WAL or the new one with none; which one depends only on whether the journal was written |
| InstallSafety.PendingOps | tools/adr0098_r2_install_intent_extract.rs:139-162 | from inside the swap, the boot decides to do exactly what the swap had left to do |
| InstallSafety.PendingBoot | crates/aberp-snapshot/src/crash_safe.rs:425-486 | a boot, cut or not, only moves the swap forward, and an uncut one ends it |
| InstallSafety.RefusedAgain | tools/adr0098_r2_install_intent_extract.rs:163-168 | the boot after a refused one refuses again, unless the evidence copy of the journal itself has the journaled hash and stands where the journal looks |
| InstallSafety.RefusalSticks | tools/adr0098_r2_install_intent_extract.rs:163-168 | otherwise every later boot, cut or not, refuses, and nothing but the evidence copy changes |
| InstallSafety.ChangedByteRefused | tools/adr0098_r2_install_intent_extract.rs:139-168 | one changed byte anywhere in the journaled staging file: no boot installs it, and database, WAL, staging file and journal stay |
| InstallSafety.ChangedLiveByteRefused | tools/adr0098_r2_install_intent_extract.rs:139-168 | one changed byte in the database already renamed into place: no boot deletes its WAL while the journal is pending, and nothing changes |
| InstallSafety.TornJournalBoot | tools/adr0098_r2_install_intent_extract.rs:102-122 | for a journal write torn at any byte: the next boot ignores it, installs as intended, or installs over a file with a shorter name; exactly when each happens, and that the live database then stays old or, when it is named as that file's WAL, is deleted |
| CheckpointRun.FenceMisses | tools/adr0098_r2_install_intent_extract.rs:61-72 | with rows written since the first sample, the fence stays silent if and only if the WAL was folded meanwhile and has grown back to its former size |
| CheckpointRun.FenceQuiet | crates/aberp-snapshot/src/crash_safe.rs:161-179 | opens alone never trip the fence |
| CheckpointRun.StepKeeps | crates/aberp-snapshot/src/crash_safe.rs:511-646 | every step of commits, folds, checkpoint, crash and boot keeps the run invariant, and a row gets lost only where a stale staging file is journaled |
| CheckpointRun.NoCommitLost | tools/adr0098_r2_install_intent_extract.rs:61-72 | over every run, folds anywhere: a committed row is lost if and only if some checkpoint journals its staging file after a row was committed behind its export and a fold brought the WAL back to exactly its first size; otherwise file plus WAL are the committed rows in order whenever no journal is pending, and the file alone is whenever the WAL is about to be deleted; no boot refuses |
| CheckpointRun.CheckKeeps | crates/aberp-snapshot/src/crash_safe.rs:578-604 | the fence lets a checkpoint with a late row through only then |
| CheckpointRun.CheckpointDecides | crates/aberp-snapshot/src/crash_safe.rs:511-646 | with any commits, opens and folds in its windows, a checkpoint is given up if and only if the WAL is then larger, smaller or gone; given up it changes nothing but its staging file, otherwise the exported rows become the database and nothing else is left |
| CheckpointRun.OpensAreHarmless | tools/adr0098_r2_install_intent_extract.rs:61-72 | a checkpoint during which others only open the database runs to its end and installs what file and WAL held at the start |
| CheckpointRun.StaleStays | tools/adr0098_r2_install_intent_extract.rs:61-72 | what a run lost stays lost however it goes on |
| CheckpointRun.NoFoldNoLoss | tools/adr0098_r2_install_intent_extract.rs:61-72 | a run without a fold between the two samples of a checkpoint loses nothing |
| CheckpointRun.BootRecovers | tools/adr0098_r2_install_intent_extract.rs:134-171 | from every reachable state a crash and one whole boot lead back to serving the committed rows, all of them unless one was lost before |
| CheckpointRun.FoldInWindowLosesACommit | tools/adr0098_r2_install_intent_extract.rs:61-72 | a run with a fold and a commit of the same size between the samples, after which a committed row is gone |
| HashChain.HeadDecidesPrefix | README.md:352-355 | for two chains from one genesis without a collision, equal hashes at the shorter one's head mean it is a prefix of the other |
| HashChain.ChainGrows | README.md:352-355 | appending the linked entry keeps the chain valid |
| HashChain.ReplacedEntryDetected | README.md:352-355 | replacing one entry of a valid chain leaves a valid chain if and only if the new entry is linked to the one before it, carries its own hash, and, unless it is the last, has the old entry's hash |
| MirrorGuard.UnchangedMeansEqual | tools/adr0098_r1_torn_tail_extract.rs:74-86 | on two chain-verified logs `Unchanged` is answered exactly when they are equal, and a head mismatch exactly when equally long logs differ |
| MirrorGuard.ExtendWithoutPrefix | tools/adr0098_r1_torn_tail_extract.rs:74-76 | two chain-verified logs from one genesis for which the extract answers `Extend` though the ledger does not continue the mirror |
| MirrorGuard.ExtendIsSafeWhen | tools/adr0098_r1_torn_tail_extract.rs:74-76 | under `Extend` the ledger continues the mirror if and only if its entry at the mirror's head has the mirror's head hash |
| MirrorGuard.FindSeq | tools/adr0098_r1_torn_tail_extract.rs:47 | the hash of the first row with that sequence number, or none when there is no such row |
| MirrorGuard.FirstOverlapDisagreement | tools/adr0098_r1_torn_tail_extract.rs:45-53 | answers none exactly when every mirror row agrees with the snapshot |
| MirrorGuard.DisagreementIsFirst | tools/adr0098_r1_torn_tail_extract.rs:45-53 | otherwise names the first mirror row the snapshot lacks or has otherwise |
| MirrorGuard.TopUpKeepsTheMirror | tools/adr0098_r1_torn_tail_extract.rs:32-56 | with gap-free logs, topping up is chosen if and only if the snapshot is ahead and holds the non-empty mirror row by row from sequence number 1 on; refusal if and only if it is ahead, does not, and there is no fallback |
| LedgerTable.CountsMeanOnceEach | crates/audit-ledger/src/mirror.rs:1410-1433 | the two counts are both n if and only if the table holds each of 1 to n exactly once |
| LedgerTable.DivergenceFindsDamage | crates/audit-ledger/src/mirror.rs:1378-1407 | the constant-time proof succeeds if and only if the mirror is what the chain began with and the table still holds each of those rows once, whatever it lost or doubled |
| LedgerTable.DivergenceNames | crates/audit-ledger/src/mirror.rs:1396-1407 | otherwise, for any gap-free mirror, a prefix or not: it names the first row the table has not or has otherwise, or the mirror's head when rows were only doubled |
| LedgerTable.IntactAgreement | crates/audit-ledger/src/mirror.rs:1378-1395 | on an append-only ledger it succeeds if and only if the ledger has the mirror's hash at the mirror's head |
| LedgerTable.RowsAfterCut | crates/audit-ledger/src/mirror.rs:1485-1505 | the query for the missing rows cuts a table in the order of its numbers in two |
| MirrorRun.ClassifyHeld | crates/audit-ledger/src/mirror.rs:335-392 | a mirror of whole ledger entries and part of the next reads as those entries, clean or torn, never as a deep break |
| MirrorRun.BootPlanHeld | crates/audit-ledger/src/mirror.rs:1102-1375 | such a mirror passes the prefix proof, is trimmed to its whole lines and extended by exactly the missing entries |
| MirrorRun.ExtensionWhen | crates/audit-ledger/src/mirror.rs:1243-1350 | on any table: the mirror is extended or left if and only if it is not ahead and the prefix proof succeeds on all of it; the later head comparison never decides |
| MirrorRun.BootLeaves | crates/audit-ledger/src/mirror.rs:415-445 | a refused boot leaves the old bytes, or their whole lines when they spell a log; any other boot leaves the whole lines and what it appended |
| MirrorRun.BootProceedsWhen | crates/audit-ledger/src/mirror.rs:1102-1375 | for any mirror bytes over an append-only ledger: boot proceeds if and only if the whole lines are a linked log no longer than the ledger that is empty or has the ledger's hash at its head, and then ends with the missing entries appended |
| MirrorRun.BootProceedsOnPrefix | crates/audit-ledger/src/mirror.rs:1102-1375 | on two chain-verified logs without a collision: if and only if the mirror is a prefix of the ledger |
| MirrorRun.BootProceedsOnDamage | crates/audit-ledger/src/mirror.rs:1102-1375 | over a table that lost or doubled rows of a chain: if and only if the mirror is what the chain began with, is not ahead, and the table still holds each of its rows once |
| MirrorRun.ExtensionReadsBack | crates/audit-ledger/src/mirror.rs:1485-1505 | what such a boot wrote reads back at the next boot if and only if the rows behind the mirror's head go on without a gap or a double |
| MirrorRun.SyncHeld | crates/audit-ledger/src/mirror.rs:908-1030 | the lockstep append on a mirror of whole lines reports no error and writes exactly the missing entries |
| MirrorRun.SyncReportsWhen | crates/audit-ledger/src/mirror.rs:908-1030 | for any mirror bytes over an append-only ledger: the lockstep append reports no error if and only if the file ends in a whole line and reads as a log no longer than the ledger that is empty or has the ledger's hash at its head; it then writes the missing entries, and otherwise nothing changes |
| MirrorRun.SyncOnPrefix | crates/audit-ledger/src/mirror.rs:954-985 | on two chain-verified logs without a collision: if and only if the mirror is a prefix of the ledger |
| MirrorRun.CommitsAppend | apps/aberp/src/ap_sync.rs:1291-1320 | what a running process commits stands in the ledger row by row behind what was there |
| MirrorRun.CrashStops | apps/aberp/src/ap_sync.rs:1291-1320 | after a crash nothing changes until a boot |
| MirrorRun.ParseMeans | crates/audit-ledger/src/mirror.rs:335-392 | whole lines read as a log exactly when line by line they are its records, numbered without a gap and, where asked, linked |
| MirrorRun.LinesOf | crates/audit-ledger/src/mirror.rs:335-392 | every file that ends in a whole line is such lines |
| MirrorRun.CutLog | crates/audit-ledger/src/mirror.rs:167-180 | every byte prefix of an encoded log is whole entries and part of the next |
| MirrorRun.StepKeeps | tools/adr0098_r1_torn_tail_extract.rs:63-86 | commits, appends and boots cut at any byte, and crashes keep the mirror a prefix of the ledger |
| MirrorRun.MirrorFollowsLedger | apps/aberp/src/ap_sync.rs:1291-1320 | over every run: the mirror's bytes are a prefix of the encoded ledger, what boot retains is a prefix of the ledger, the next boot does not refuse and ends with mirror equal to ledger, and so does the next append of a running process |
| LiveWal.Live.constructor | tools/adr0098_r3_pragma_presence_extract.rs:77-79 | starts empty |
| LiveWal.Live.CheckpointSwap | tools/adr0098_r3_pragma_presence_extract.rs:83-86 | the swap drops what is only in the WAL |
| LiveWal.Live.HandleWriteCommit | tools/adr0098_r3_pragma_presence_extract.rs:89-91 | a commit through the handle is committed at once |
| LiveWal.Live.ResidualOpenWriteClose | tools/adr0098_r3_pragma_presence_extract.rs:95-105 | a residual close folds the whole WAL unless the pragma is set |
| LiveWal.CommittedAreTheSurvivors | tools/adr0098_r3_pragma_presence_extract.rs:70-106 | over any sequence, the committed rows are those of the writes that went through the handle or had a close without the pragma at or after them and before the next swap, each once |
| LiveWal.TagsAreFates | tools/adr0098_r3_pragma_presence_extract.rs:70-106 | the same write by write: committed exactly when it survives, in the WAL exactly when it still waits |
| LiveWal.CommittedOnlyGrows | tools/adr0098_r3_pragma_presence_extract.rs:70-106 | no later operation moves or drops a committed row |
| LiveWal.PragmaDoesNotSave | tools/adr0098_r3_pragma_presence_extract.rs:95-99 | a residual write closed with the pragma is lost at the next swap |
| PragmaScan.ResidualOpensMissingPragma | tools/adr0098_r3_pragma_presence_extract.rs:24-68 | the ascending list of exactly the unskipped opens with no pragma within the window |
| PragmaScan.MarkTestLines | tools/adr0098_r3_pragma_presence_extract.rs:27-53 | marks a line exactly when the counters say test region before or after it |
| PragmaScan.AnyPragma | tools/adr0098_r3_pragma_presence_extract.rs:60-61 | whether some line of the window carries the pragma |
| PragmaScan.TestAttributeMeans | tools/adr0098_r3_pragma_presence_extract.rs:32-33 | a line is a test attribute if and only if behind its white space it starts with `#[cfg(`, holds "test" and does not hold "not(test)" |
| PragmaScan.OpenMeans | tools/adr0098_r3_pragma_presence_extract.rs:59-61 | an open is "Connection::open(" anywhere without "open_in_memory" anywhere; the pragma is its name anywhere |
| PragmaScan.CountersFollowStack | tools/adr0098_r3_pragma_presence_extract.rs:28-50 | the counters describe a stack of braces with at most one marked, at every character, if and only if no test region opens below level zero |
| PragmaScan.SkippedInRegions | tools/adr0098_r3_pragma_presence_extract.rs:36-52 | then a line is skipped exactly when a test region is open at its start or its end |
| PragmaScan.BalancedTextLosesNoMark | tools/adr0098_r3_pragma_presence_extract.rs:28-50 | while the braces never go below zero no mark is lost |
| PragmaScan.MarkLostBelowZero | tools/adr0098_r3_pragma_presence_extract.rs:24-68 | for a text with two stray closing braces before a test region: an open inside the region is on the returned list, whatever the window |
| PragmaScan.StrayText | tools/adr0098_r3_pragma_presence_extract.rs:24-68 | four such lines, spelled out |
| PragmaScan.WiderWindowReportsLess | tools/adr0098_r3_pragma_presence_extract.rs:59-64 | widening the window only removes entries |
| Redactor.RedactHuTaxIds | apps/aberp/src/ap_sync.rs:845-905 | the cursor scan computes the recursive redaction and keeps UTF-8 well-formed |
| Redactor.DigitPiece | apps/aberp/src/ap_sync.rs:849-892 | at a digit: the whole run or its marker, the cursor lands on a boundary behind it, and the check for a preceding digit never fires |
| Redactor.TextPiece | apps/aberp/src/ap_sync.rs:897-902 | elsewhere: one whole character |
| Redactor.OutputHasNoRun | apps/aberp/src/ap_sync.rs:845-905 | the output has no maximal run of eight digits |
| Redactor.IdentityWhenNoRun | apps/aberp/src/ap_sync.rs:845-905 | text is unchanged if and only if it has no such run |
| Redactor.Idempotent | apps/aberp/src/ap_sync.rs:845-905 | redacting twice is redacting once |
| Redactor.FirstRunReplaced | apps/aberp/src/ap_sync.rs:858-888 | the first run, with its tail when exactly that follows, becomes one marker; everything before is copied |
| Redactor.LaterRunsKept | apps/aberp/src/ap_sync.rs:880-888 | the runs behind it are the runs of the rest, so none is skipped |
| Redactor.TaxNumberRedacted | apps/aberp/src/ap_sync.rs:864-883 | byte by byte: eight digits and `-N-NN` not followed by a digit, anywhere in the text, become `[REDACTED-TAX]`; what stands before and behind is redacted on its own |
| Redactor.BareNumberRedacted | apps/aberp/src/ap_sync.rs:884-888 | eight digits with any other continuation become `[REDACTED-ID]` |
| Redactor.MarksSpelled | apps/aberp/src/ap_sync.rs:879-885 | what the two markers and the ellipsis read as |
| Redactor.RedactConcat | apps/aberp/src/ap_sync.rs:845-905 | redaction of two parts is independent unless a digit run or the tail of one lies across the seam |
| Preview.SanitiseResponsePreview | apps/aberp/src/ap_sync.rs:814-826 | for any response bytes: text within the limit is redacted whole, longer text is cut at the last boundary, at most three bytes below the limit, and gets an ellipsis; well-formed and without a maximal run of eight digits |
| Utf8.LossyRepairs | apps/aberp/src/ap_sync.rs:815 | the repaired text is well-formed, and the response itself if and only if that was |
| Utf8.LossyConcat | apps/aberp/src/ap_sync.rs:815 | well-formed text in front of anything is kept |
| Utf8.LossyReplaces | apps/aberp/src/ap_sync.rs:815 | bytes that start with no code point: one U+FFFD stands for the longest piece a code point could start with, or for one byte, and repair goes on behind it |
| Preview.BoundaryNearby | apps/aberp/src/ap_sync.rs:819-822 | the last boundary at or before a position is at most three bytes below it |
| Preview.RunsAfterCut | apps/aberp/src/ap_sync.rs:814-826 | exactly which runs the redactor sees after the cut |
| Preview.CutRunSurvives | apps/aberp/src/ap_sync.rs:814-826 | the digits of a number the limit cuts through end the preview unredacted if and only if they do not close the `-N-NN` of a run before them; what the preview is in both cases |
| MonthChunks.YearToDateMonthChunks | apps/aberp/src/ap_sync.rs:1054-1092 | one pair of date strings per month up to today's: its first day, and its last day or today |
| MonthChunks.PreviousDay | apps/aberp/src/ap_sync.rs:1072-1080 | the day before, which has the given day as its next |
| MonthChunks.ChunksAreConsecutive | apps/aberp/src/ap_sync.rs:1031-1053 | from 1 January to today, each chunk in one month, each next starting the day after |
| MonthChunks.ChunksPartitionTheYear | apps/aberp/src/ap_sync.rs:1031-1053 | every day of the year up to today is in exactly one chunk, no other day in any |
| MonthChunks.ChunkDays | apps/aberp/src/ap_sync.rs:1054-1092 | no chunk exceeds 31 days and together they count the day of the year |
| MonthChunks.FullYear | apps/aberp/src/ap_sync.rs:1054-1092 | a full year counts 365 days, or 366 when the year is divisible by 400, or by 4 and not by 100 |
| MonthChunks.DayCounted | apps/aberp/src/ap_sync.rs:1054-1092 | counting days from 1 January agrees with the month lengths of the Gregorian calendar |
| MonthChunks.FormatInjective | apps/aberp/src/ap_sync.rs:1013 | different days are asked for with different strings |
| MonthChunks.FormatReads | apps/aberp/src/ap_sync.rs:1013 | the string spells the year in four digits, with a minus sign before year 0, and month and day in two |
| MonthChunks.CanonicalDates | apps/aberp/src/incoming_invoices.rs:1179-1192 | the accepted date strings are exactly the formatted days of the years 0 to 9999 |
| Money.NearestIsNearest | apps/aberp/src/ap_sync.rs:1007-1008 | rounding gives the one integer within half a unit, the even one on a tie |
| Money.MinorMonotone | apps/aberp/src/ap_sync.rs:989-1011 | larger amounts, however written, convert to no smaller numbers |
| Money.MinorOdd | apps/aberp/src/ap_sync.rs:989-1011 | the negated amount converts to the negated number |
| Money.MinorExact | apps/aberp/src/ap_sync.rs:989-1011 | no more decimals than the currency has: no rounding |
| Money.MinorUnitsRoundTrip | apps/aberp/src/ap_sync.rs:989-1011 | any 64-bit number of forints or of euro cents, written as an amount, converts to that number |
| Money.AcceptedMeans | apps/aberp/src/ap_sync.rs:989-1011 | an amount is accepted as a number exactly when that is the nearest forint or cent to its value, in 64 bits; blank is zero |
| Money.AmountRefused | apps/aberp/src/ap_sync.rs:989-1011 | why an amount is refused: no decimal, an unknown currency, or out of the 64-bit range |
| Money.ValueScales | apps/aberp/src/ap_sync.rs:989-1011 | the value of an amount: its mantissa at scale 0, a tenth of it for each further decimal place |
| Money.GrossWithinOne | apps/aberp/src/ap_sync.rs:956-968 | rounding net and VAT apart is at most one unit off rounding the exact sum |
| Money.ConversionFaithful | apps/aberp/src/ap_sync.rs:919-983 | a converted digest keeps key, name, date and currency; net and VAT are the nearest forint or cent, gross is their sum and at most one unit off, all in 64 bits |
| Money.ConvertsWhen | apps/aberp/src/ap_sync.rs:908-983 | a digest converts if and only if it is named, dated, in HUF or EUR, with amounts that are numbers and sums in range |
| Money.DigestRefused | apps/aberp/src/ap_sync.rs:919-968 | why a digest is refused: the first thing wrong with it, in the order name, date, currency, net, VAT, gross |
| ApSync.Table.IngestOne | apps/aberp/src/incoming_invoices.rs:454-720 | validate, probe, then insert: a duplicate exactly when a stored row has the same tenant, supplier tax number and invoice number, otherwise stored as it is; what is reported for each fault |
| ApSync.StoredUnlessDuplicate | apps/aberp/src/incoming_invoices.rs:454-720 | the same as a function of the table: which outcome, and what is stored |
| ApSync.ValidInputs | apps/aberp/src/incoming_invoices.rs:672-720 | the inputs that pass validation, in characters and dates |
| Text.WhitespaceListed | apps/aberp/src/incoming_invoices.rs:673-686 | the 25 characters trimming takes off |
| ApSync.Table.IngestPage | apps/aberp/src/ap_sync.rs:455-537 | each digest of the page converted and stored once, in order; created ones count as ingested, all others as skipped |
| ApSync.Table.RunCycle | apps/aberp/src/ap_sync.rs:404-583 | terminates; fetches pages 1, 2, … once each in order, at most 100; stores those answered; ends at the last page, the cap or the first failure |
| ApSync.Table.RunOneCycle | apps/aberp/src/ap_sync.rs:322-385 | ingested plus skipped is the number of digests on the pages walked; a failed cycle reports zeros though its pages are stored |
| ApSync.TableAfter | apps/aberp/src/ap_sync.rs:38-44 | over any deliveries in any order: no two stored rows agree in tenant, supplier tax number and invoice number, such a triple is stored exactly when it was before or a valid delivery that got through carries it, and stored rows never change |
| ApSync.GrowthAgainstReports | apps/aberp/src/ap_sync.rs:332-335 | for cycles that each walk their pages, interleaved in any way: the table grows by at least the reported counts, and by exactly those if and only if no failed cycle had created rows and no stored row failed its later verification |
| ApSync.ReportsAddUp | apps/aberp/src/ap_sync.rs:461-537 | however cycles interleave, what a complete one reports and skipped add up to the digests on the pages it walked |
| ApSync.ReportIsTheTally | apps/aberp/src/ap_sync.rs:322-385 | an uninterrupted cycle reports what its page loop tallies, which is what the cycle method returns |
| ApSync.PagesAreDigests | apps/aberp/src/ap_sync.rs:461-537 | page by page or all at once, the digests of the pages in order |
| ApSync.WalkUnique | apps/aberp/src/ap_sync.rs:404-583 | the service's answers determine the walk |
| ApSync.WalkConstant | apps/aberp/src/ap_sync.rs:404-583 | with a constant number of available pages exactly those are walked, at least 1 and at most 100 |
| ApSync.AbortedCycleStillStores | apps/aberp/src/ap_sync.rs:332-335 | whatever the pages before a failure delivered is stored, although the cycle reports zero |
| Bootstrap.NothingAfterFirstRecord | apps/aberp/src/ap_sync.rs:1122-1134 | one committed row of the sweep ends it for good |
| Bootstrap.CoveredWhen | apps/aberp/src/ap_sync.rs:1140-1257 | after any boots, failing scans included: a month is covered exactly when a boot that was not skipped ran it to the end and either its scan failed or no earlier boot had committed an audit row |
| Bootstrap.CoveredExactly | apps/aberp/src/ap_sync.rs:1159-1257 | when every scan works, a month is covered exactly when a sweep up to the first recording one swept it |
| Bootstrap.YearCoveredWhen | apps/aberp/src/ap_sync.rs:1159-1257 | the months of a year are covered if and only if each was swept by a boot up to the first that recorded a row |
| Bootstrap.YearCoveredUnlessStopped | apps/aberp/src/ap_sync.rs:1159-1257 | when nothing but stopping goes wrong: if and only if the first boot that finished a chunk was in that year and finished all |
| Bootstrap.StoppedAfterOneChunk | apps/aberp/src/ap_sync.rs:1122-1134 | a process that stops after its first chunk: no other month is ever covered |
| UrlQuery.UrlEncode | apps/aberp-ui/src/commands.rs:3302-3316 | the byte loop computes the percent-encoding |
| UrlQuery.UnescapeEscape | apps/aberp-ui/src/commands.rs:3302-3316 | percent-decoding gives every string back, whether or not plus stands for a space |
| UrlQuery.EscapeInjective | apps/aberp-ui/src/commands.rs:3302-3316 | different strings have different encodings |
| UrlQuery.EscapeShape | apps/aberp-ui/src/commands.rs:3302-3316 | at most three characters per byte, each unreserved or a percent sign |
| UrlQuery.EscapeSpelled | apps/aberp-ui/src/commands.rs:3305-3313 | letters, digits and `-_.~` stand for themselves, any other byte becomes a percent sign and two upper-case digits |
| UrlQuery.EscapeConcat | apps/aberp-ui/src/commands.rs:3304-3314 | and bytes one after the other |
| UrlQuery.EscapeIdentity | apps/aberp-ui/src/commands.rs:3306-3308 | text is unchanged if and only if all of it is unreserved |
| UrlQuery.AcceptedIds | apps/aberp-ui/src/commands.rs:3443-3457 | the byte-wise checks accept exactly one to 64 characters of `[A-Za-z0-9_-]` |
| UrlQuery.IdRefused | apps/aberp-ui/src/commands.rs:3443-3457 | why an id is refused: empty, its length in bytes, or a character that does not belong in one |
| UrlQuery.AcceptedIdIsASegment | apps/aberp-ui/src/commands.rs:3438-3457 | an accepted id needs no escaping and holds no slash and no dot |
| UrlQuery.AuditEventsPath | apps/aberp-ui/src/commands.rs:84-112 | the path carries exactly the present facets in order |
| UrlQuery.PathSpelled | apps/aberp-ui/src/commands.rs:108-112 | the path as text: `/api/audit-events` alone, or followed by a question mark and `key=value` joined by `&` |
| UrlQuery.GivenMeans | apps/aberp-ui/src/commands.rs:85-86 | surrounding white space is taken off a text facet, and a facet of nothing else is left out |
| UrlQuery.PushText | apps/aberp-ui/src/commands.rs:85-89 | a text facet is pushed trimmed and encoded, or not at all when absent or blank |
| UrlQuery.QueryRecovered | apps/aberp-ui/src/commands.rs:108-112 | splitting at `&`, then at the first `=`, then decoding gives the name and value pairs back |
| UrlQuery.FacetsRecovered | apps/aberp-ui/src/commands.rs:84-112 | for any facets: exactly the trimmed non-blank ones in order, and every field, the numbers included |
| Handshake.RoundTrip | apps/aberp-ui/src/handshake.rs:101-174 | every loopback socket, certificate hash and state, printed with any whitespace around it, reads back the same; no state word reads as ready |
| Handshake.LineSpelled | apps/aberp/src/serve.rs:2344-2347 | the line and the URL as text, with the words "READY", "sha256:", "state=" and the three states |
| Handshake.HexSpelled | apps/aberp/src/serve.rs:2344-2347 | each byte of the fingerprint as two lower-case digits, the high one first |
| Handshake.AcceptedLine | apps/aberp-ui/src/handshake.rs:101-174 | an accepted line consists of exactly the expected words: a 127/8 host in its one spelling, the digits of a port that is not zero, the encoding of 32 bytes, and a known state or none |
| Handshake.WordsAccepted | apps/aberp-ui/src/handshake.rs:101-174 | and every line of those words is accepted |
| Handshake.ShortLine | apps/aberp-ui/src/handshake.rs:107-137 | a line that stops after fewer words is refused for the first word that is missing |
| Handshake.LongLine | apps/aberp-ui/src/handshake.rs:162-166 | words behind the state are refused |
| Handshake.AddressRefused | apps/aberp-ui/src/handshake.rs:105-133 | which line is refused as empty, for its first word, for its address, for port 0 or for a missing fingerprint |
| Handshake.FingerprintRefused | apps/aberp-ui/src/handshake.rs:135-146 | which for its fingerprint: marker, length in bytes, or a character that is no lower-case digit |
| Handshake.StateRefused | apps/aberp-ui/src/handshake.rs:148-172 | which for its state word or for words behind it |
| Handshake.AcceptedReprints | apps/aberp/src/serve.rs:2344-2347 | printing what an accepted line says gives a line that reads the same |
| Handshake.FingerprintChecked | apps/aberp-ui/src/handshake.rs:209-228 | the check passes exactly the lower-case encodings of 32 bytes |
| Numerals.HexValueMeans | apps/aberp-ui/src/handshake.rs:224-226 | the sixteen digits the decode knows, in either case |
| Handshake.DecodeNeverFails | apps/aberp-ui/src/handshake.rs:224-226 | the final hex decode cannot fail |
| Handshake.SocketRecovered | apps/aberp-ui/src/handshake.rs:119-121 | a printed socket address parses back |
| Handshake.StateText | apps/aberp-ui/src/handshake.rs:176-185 | a state value is accepted in the one spelling its state is printed with |

## Left out

- CheckpointRun.NoCommitLost: assumes no commit, open or fold between the second fence sample and the end of the swap; that an export equals what file and WAL hold is taken from DuckDB.
- InstallSafety.CrashSafe: the database path holds no line feed and does not end in a carriage return (`Journal.IntentRoundTrip` says why); the journal write and each rename, copy and delete are one step each; fsync and directory durability are not modelled, nor is the cleanup a failing checkpoint does after journaling (crates/aberp-snapshot/src/crash_safe.rs:606-635).
- Journal.IntentRoundTrip: the three-line stand-in journal; the crate's JSON journal is not part of this model, nor are paths that are not UTF-8.
- MirrorRun.MirrorFollowsLedger: a missing mirror file is an empty one; the copies preserved before a trim or a refusal are not modelled; locks are taken as held.
- LedgerTable.DivergenceFindsDamage: the table's rows are rows the ledger once held, in the order of their numbers; rows rewritten in place are not modelled.
- PragmaScan.ResidualOpensMissingPragma: counters and indices are unbounded integers, so overflow of `i32` and `usize` is not modelled.
- MonthChunks.YearToDateMonthChunks: the calendar has the years -9999 to 9999, as the program's date type without its large-dates feature; the clock is a parameter.
- Money.DecimalToMinor: starts from the parsed decimal; parsing the text is not modelled. Where the model answers `OutOfRange` for an amount whose product with 100 exceeds 96 bits, such as 79228162514264337593543950335 EUR, the decimal type panics instead and ends the whole page's ingest task.
- ApSync.Table.RunCycle: a page fails before any of it is stored; a panic inside a page's ingest task, after some of its digests are stored, is not modelled.
- ApSync.Table.IngestOne: the transaction and the serialising lock are taken as one step; ids, artifacts, audit payloads and the XML fetch that follows are not modelled.
- ApSync.ReportIsTheTally: the page loop is a sequential method; that interleaved cycles tally digest by digest as the schedule says is taken from the serialising lock.
- Handshake.ReadSocket: an IPv6 address is refused with the same error as text that is no address; the source tells non-loopback, IPv6 and unparsable apart.
- The 30-day window, cadence, cancellation, throttling and restore lock of the sync daemon: timing and configuration.
- DuckDB, the crates' SQL, SHA-256, JSON and CBOR, HTTP and TLS, the tax authority's SOAP calls, Tauri commands and subprocess handling.
- The other decision tables under tools/, the vendor and rating tables, the ring buffer, constant-time comparison and the icon table: each is settled by reading one short body.
