# Verified model of the mailing-list archive pipeline

The archiver copies mailing lists from NNTP servers and public-inbox repositories into a directory
per list; the parser reads those directories back and turns the emails into a data set. This project
models the pipeline as one stateful system and proves what it keeps, loses and repeats, over whole
runs and over any number of runs.

`dafny verify dfyconfig.toml` checks everything.

## How the model is laid out

| file | what it models |
|---|---|
| Prelude, Text, Decimal, Sorting | sequences, the Rust string operations in use, decimal texts of 64-bit numbers, stable sorting |
| EmailId | the identifiers `{number:010}-e{epoch}-{sha}` of public-inbox emails |
| EmailStore | the list directory, the buffered Parquet store, file names and their indices |
| ProgressFile | the progress file, overwritten from the start and never truncated |
| Lineage | the lineage file: appending to the YAML stream and splitting it again |
| ArchiveWriter | the facade over store, progress, lineage and error log; the raw `.eml` store |
| Shutdown | the shared flag, as the number of polls that still see it down |
| PublicInbox, Epochs, InboxTheorems, InboxResume | the public-inbox worker; the order of epochs; fresh runs; what one resumed run does |
| InboxRuns, InboxRestarts, InboxPushes | run after run over the last epoch as a state machine: any number of restarts, pushes with a run after each |
| InboxEpochs, InboxRanges | runs over several epochs, resumed, stopped and with new epochs; first runs over a range of numbers |
| Nntp | the NNTP worker, one session and whole histories of sessions |
| Scheduler, RangeMode, RangeInputs | producer, workers and bounded channel with all interleavings; list and number in one message; the range syntax |
| EmailReader, Dataset | the parser's iterators and its batching loop |
| ArchiveThenParse, RawThenParse, Pipeline | from the archive back to the parser, in either mode, and from the server to the row groups |
| DateSelection | repairing, filtering and choosing among the dates of an email |
| Patches | cutting patches out of a body |
| SubjectTokens, SubjectTags, SubjectTheorems, SubjectRoundTrip | reading the tags at the front of a subject, and reading back what was put there |

Code that updates fields or loops over local state is a class or a method with loops; its contract
ties the new state to a specification function, and the lemmas are about that function. A fault is
data: a server comes with the list of requests that fail, the flag with the poll that first sees it
up, a repository with the commits that have no readable message.

What the outside world is assumed to do:

- A repository is a walk of distinct commits from its head, newest first; `refs/heads/master` and
  the head agree, and every stored commit id is either on the walk, a detached object or unknown.
- A server has the same articles for the whole history, none below the low mark it announces (water
  marks as in section 6.1.1 of RFC 3977), and no article number 0.
- A YAML rendering is a function that its parser inverts on the identifiers in use and that is not
  shorter for a longer identifier (`Yaml.FaithfulOn`); lineage records end in a newline.
- A Parquet file is read back as batches whose rows together are the rows written, cut anywhere,
  empty batches included.
- `usize` has 64 bits.

## What turned out to be false, and exactly when it holds

- A fresh run is not always complete. An epoch of n commits after g earlier ones loses its oldest
  g - 1 commits when n > g >= 2; the run is complete if and only if none of these has a message
  (`FreshRunCompleteIff`, `ReadableCompleteIff`, `TwoThenThreeIsIncomplete`).
- The run after a push onto the last epoch, of k commits onto n behind g, archives exactly these only if
  the first run left none out and: k = 0; or g = 0 and it is not one onto two or more; or n = 1 and
  k <= g + 1 (`TakenExactlyIff`, `PushArchivedExactlyIff`; `PushArchivedIff` where commits have no
  message). One onto n >= 2 takes all but the oldest again. In terms of the stored number and commit,
  whatever they are, the guess the code makes about where it stopped decides (`PushedExactlyIff`).
- In a history of pushes with a run after each, every run archives exactly what was pushed before it if
  and only if there was one push, behind nothing, of two or more commits or onto a single one; or the
  epoch began with a single commit, one was pushed each time but the last, and the last of the r pushes
  has at most g + r (`EveryRunExactIff`). Otherwise a run may repeat commits (`OneOntoTwo`), skip a push
  (`PushIsSkipped`), or leave out a message that no number of restarts ever archives
  (`PushedIsLost`).
- After a first run and one push, some number of runs archives all that was pushed if and only if g = 0,
  or k <= g + 1, or 1 + ... + (k - g - 1) < g + d, where d is how many the first run left out
  (`PushArrivesIff`).
- A first run that took m of the n commits of the last epoch is continued correctly by the next run only
  if m is 1 or n; otherwise that run repeats old commits (`InterruptedResumeIff`). Each further restart
  repeats one commit less, until the head is stored and the next run takes all the rest, or until the
  stored number has passed the end. So restarts complete the epoch if and only if m = n or
  1 + ... + m < n (`InterruptionHealsIff`; `RestartsCompleteIff` where commits have no message). They
  make up for what an undisturbed first run leaves out if and only if it leaves out nothing or
  1 + ... + (n - g) < g - 1 (`CutShortHealsIff`).
- A run resumed in one epoch goes on with the later ones as a fresh run would, from the position it has
  reached (`ResumeThenLater`, `StoppedThenLater`), and while an archive is complete, adding epochs run
  by run is the same as one fresh run (`EpochByEpochIsFresh`). But repeated commits put the position
  ahead of the count, and then later epochs that fit into the lead are passed over; where all commits
  have messages, the later ones are archived as by a fresh run if and only if none fits
  (`LeadIsHarmlessIff`).
- A first run over a range archives the commits asked for, but numbers them from the beginning of each
  epoch on. The numbers are those of a run without a range if and only if the range asks from the start
  of the epoch (`RangeKeepsNumbersIff`).
- The comparison that sorts the epochs is total, but transitive on a set of names if and only if no
  name that is neither a number nor "all" is caught between two numbers whose texts are in the
  opposite order (`OrderedIff`); when these numbers differ, no arrangement at all is in order
  (`CaughtHaveNoOrder`).
- Resuming panics if and only if the stored epoch is not "all" and it, or some epoch, has a name that
  is not a number (`ResumePanicsIff`). A complete run over numbered epochs followed by "all" stores
  "all", so its restart does not panic; it does when "all" has no commits (`RestartArchivesNothing`).
- Reading one email by its index drops the line ends of its text and nothing else
  (`OnlyLineEndsAreLost`, `LineEndsAreLost`), and in an inbox without epochs it uses another epoch
  label than a full run (`FallbackIdsDiffer`).
- The progress file is exact throughout a history only as long as no text gets shorter
  (`ExactIffNeverShorter`), and at its end if and only if no text it held was longer than the last
  (`ExactAtEndIff`).
- From the 1001st file on, the parser no longer reads the files in archive order
  (`TakenInIndexOrderIff`). Raw files named by article numbers it reads in the order of the numbers if
  and only if none is above the leading digits of a later one, which for numbers in a row means that
  the first and the last have the same length (`NumbersInOrderIff`, `RowInOrderIff`, `NineAndTen`).
- A lineage record with a `---` line inside is not read back (`Lineage.RoundTrip`).
- A list name with `_##` in it does not survive range mode (`DecodeInvertsEncode`).
- With a median absolute deviation of zero no date is removed, so two equal dates do not protect
  against a third, early one (`EqualDatesKeepOutlier`, `BreakdownBound`).

Where the code and its comments disagree the model follows the code: `write_yaml` is documented as
appending but overwrites from offset 0; `archive_email` is documented as atomic and as storing the
new id, but progress is recorded only for emails that reached a file; `last_processed_id` is
documented to start at the id after the stored one, but the NNTP worker starts at the stored one; the
branch of `add_email` that extends an earlier flush is never taken, because a flush empties the
buffer; the fallback of `select_date` for fewer than two survivors is never taken either; and
`split_glued` never finds a token without parts.

## Model

| member | source | states |
|---|---|---|
| InboxTheorems.FreshRun | mlh_archiver/src/public_inbox_source/pi_worker.rs:344-392 | closed form of an undisturbed first run over any epochs: per epoch the newest n - d commits in walk order, d = g - 1 when n > g >= 2 and 0 otherwise |
| InboxTheorems.FreshEpoch | mlh_archiver/src/public_inbox_source/pi_worker.rs:424-600 | one epoch without a resume commit counts all its commits and processes the newest n - d |
| InboxTheorems.FreshRunCompleteIff | mlh_archiver/src/public_inbox_source/pi_worker.rs:344-600 | the first run archives every message of every epoch if and only if the commits it leaves out have none; otherwise strictly fewer |
| InboxTheorems.ReadableCompleteIff | mlh_archiver/src/public_inbox_source/pi_worker.rs:344-600 | where every commit has a message: if and only if no epoch has n > g >= 2 |
| InboxTheorems.ArchivedOrLogged | mlh_archiver/src/public_inbox_source/pi_worker.rs:562-594 | every processed commit is archived or logged |
| InboxTheorems.LoggedExactly | mlh_archiver/src/public_inbox_source/pi_worker.rs:562-594 | what is logged names exactly the commits without a message |
| InboxTheorems.TwoThenThreeIsIncomplete | mlh_archiver/src/public_inbox_source/pi_worker.rs:491-502 | the smallest inbox whose first run is incomplete: two commits, then three |
| InboxTheorems.FreshRunIsNumbered | mlh_archiver/src/public_inbox_source/pi_worker.rs:344-600 | the email numbered k comes from element k - 1 of the concatenated walks, and numbers strictly rise across epochs |
| InboxTheorems.RandomAccessAgrees | mlh_archiver/src/public_inbox_source/pi_worker.rs:140-206 | asking for the number of an archived email finds it, under the same identifier, with its text without line ends and nothing else |
| InboxTheorems.SelectedByPlace | mlh_archiver/src/public_inbox_source/pi_worker.rs:140-206 | every number that can be asked for: the commit at that place of the inbox, no message, no such number |
| InboxTheorems.OnlyLineEndsAreLost | mlh_archiver/src/public_inbox_source/pi_worker.rs:187 | the lines of a text together are the text without line feeds and the carriage returns right before them |
| InboxTheorems.LineEndsAreLost | mlh_archiver/src/public_inbox_source/pi_worker.rs:187 | the two paths give the same text if and only if it has no line feed |
| InboxTheorems.FallbackIdsDiffer | mlh_archiver/src/public_inbox_source/pi_worker.rs:160-168 | without epochs one path says "1" and the other "all", and they never give the same identifier |
| PublicInbox.CountBeforeResume | mlh_archiver/src/public_inbox_source/pi_worker.rs:457-481 | the first pass finds the position of the resume commit, or the length of the walk |
| PublicInbox.PickedStep | mlh_archiver/src/public_inbox_source/pi_worker.rs:531-563 | which commits the second pass takes, commit by commit: not the resume one, not old ones, not ones out of range |
| PublicInbox.VisitCommit | mlh_archiver/src/public_inbox_source/pi_worker.rs:509-594 | one round of the second pass: when it ends the pass, and how archive, error log and all four counters change |
| PublicInbox.EpochEnds | mlh_archiver/src/public_inbox_source/pi_worker.rs:504-600 | wherever the second pass ends, the counters and the archived emails are those of the commits it was allowed to reach |
| PublicInbox.ProcessEpoch | mlh_archiver/src/public_inbox_source/pi_worker.rs:424-600 | both passes: exactly these emails archived, these errors logged, these counts returned, this many polls of the flag used |
| PublicInbox.RunPlan | mlh_archiver/src/public_inbox_source/pi_worker.rs:344-392 | the loop over the epochs archives and logs exactly what the plan says and returns how many emails that is |
| PublicInbox.ProcessInbox | mlh_archiver/src/public_inbox_source/pi_worker.rs:228-401 | a whole run from stored progress, range and epochs to the contents of the directory and its error log, with the bad-range error and the panic on names that are not numbers |
| PublicInbox.Locate | mlh_archiver/src/public_inbox_source/pi_worker.rs:176-206 | subtracting epoch sizes finds element index - 1 of all commits, or nothing when the index is too large |
| PublicInbox.ReadEmailByIndex | mlh_archiver/src/public_inbox_source/pi_worker.rs:140-206 | the requested email is archived under the requested number; index 0, too large an index and an unreadable commit archive nothing |
| InboxResume.LastFreshEmail | mlh_archiver/src/public_inbox_source/pi_worker.rs:344-392 | the identifier a complete first run stores last: total count, last epoch with commits, its last commit |
| InboxResume.NothingLeft | mlh_archiver/src/public_inbox_source/pi_worker.rs:296-392 | resuming at that identifier, the position covers every epoch that is left, for any number of epochs |
| InboxResume.RestartArchivesNothing | mlh_archiver/src/public_inbox_source/pi_worker.rs:268-392 | after a complete first run over numbered epochs, with "all" behind them or alone, a restart archives nothing, whatever the range and whenever it is stopped; it panics if and only if "all" is last and empty |
| InboxResume.RestartFromDisk | mlh_archiver/src/public_inbox_source/pi_worker.rs:228-401 | the same through the progress file as either store left it, if no text it held was longer than the last |
| InboxResume.FreshLastIsLongest | mlh_archiver/src/public_inbox_source/pi_utils.rs:546-549 | that is so when the last epoch with commits does not have the shorter name |
| InboxResume.StoredIsLast | mlh_archiver/src/archive_writer/mod.rs:148-206 | what the next run reads back is the last archived identifier |
| InboxResume.ResumePanicsIff | mlh_archiver/src/public_inbox_source/pi_worker.rs:294-311 | filtering the epochs panics if and only if the stored epoch is not "all" and it or some epoch has a name that is not a number |
| InboxResume.FreshIdsNeverShorter | mlh_archiver/src/public_inbox_source/pi_utils.rs:546-549 | the identifiers of a first run never get shorter, so the progress file stays exact |
| InboxResume.ResumedClosedForm | mlh_archiver/src/public_inbox_source/pi_worker.rs:424-600 | what a resumed run over the last epoch processes, for every stored position and commit |
| InboxResume.PlanOfLast | mlh_archiver/src/public_inbox_source/pi_worker.rs:268-342 | resuming in the last epoch, be it one of many, "all", or the one repository of an inbox without epochs, plans just that one and counts all commits of the others before it |
| InboxResume.LastEpochPlan | mlh_archiver/src/public_inbox_source/pi_worker.rs:344-392 | such a run numbers what it processes on from the stored position |
| InboxEpochs.ResumeThenLater | mlh_archiver/src/public_inbox_source/pi_worker.rs:268-392 | from any stored number and any commit of any epoch: the stretch of that epoch, then the later epochs in closed form from the position reached |
| InboxEpochs.ResumeAtUnknown | mlh_archiver/src/public_inbox_source/pi_worker.rs:424-502 | the same when the stored commit is no longer there: its epoch is taken for new |
| InboxEpochs.NewEpochs | mlh_archiver/src/public_inbox_source/pi_worker.rs:344-392 | after a complete run over some epochs the next run over these and more archives exactly what a fresh run archives of the new ones |
| InboxEpochs.EpochByEpochIsFresh | mlh_archiver/src/public_inbox_source/pi_worker.rs:344-392 | run after run while complete epochs are added, all runs together are one fresh run, numbers included |
| InboxEpochs.FirstRunStopped | mlh_archiver/src/public_inbox_source/pi_worker.rs:344-530 | a first run stopped in any of several epochs archives the epochs before it and the beginning of that one, nothing of the later ones |
| InboxEpochs.StoppedThenLater | mlh_archiver/src/public_inbox_source/pi_worker.rs:228-401 | such a run, any push onto that epoch, any later epochs, the next run: what is stored, the stretch taken and the later epochs |
| InboxEpochs.LeadIsHarmlessIff | mlh_archiver/src/public_inbox_source/pi_worker.rs:365-392 | with all messages there, the later epochs are archived as by a fresh run if and only if none of them fits into the lead of the position |
| InboxEpochs.StoppedIsPrefix | mlh_archiver/src/public_inbox_source/pi_worker.rs:344-530 | a stop at any poll, in any run, leaves the beginning of what the run would have archived, with no more emails than polls |
| InboxRanges.RangeRun | mlh_archiver/src/public_inbox_source/pi_worker.rs:228-392 | a first run over a range archives of each epoch exactly the commits whose numbers are asked for, unless cut short |
| InboxRanges.RangeKeepsNumbersIff | mlh_archiver/src/public_inbox_source/pi_worker.rs:531-594 | they keep the numbers of a run without a range if and only if the range asks from the start of the epoch |
| InboxResume.PushedExactlyIff | mlh_archiver/src/public_inbox_source/pi_worker.rs:424-600 | for any stored number and any stored commit of old index j, behind any earlier epochs: exactly the k commits on top are processed if and only if the number covers everything and k = 0, or the head alone is left, or j is the index the code assumes |
| InboxRuns.OneRun | mlh_archiver/src/public_inbox_source/pi_worker.rs:228-401 | a run over the last epoch from any stored number and commit, behind any earlier epochs and with commits without messages: it archives the messages of one stretch of the walk, numbered on, and stores the last of them |
| InboxRuns.FirstStored | mlh_archiver/src/public_inbox_source/pi_worker.rs:228-401 | a first run stopped anywhere in the last epoch, or not at all: what it archives and which number and commit it stores |
| InboxRuns.RunAfterFirst | mlh_archiver/src/public_inbox_source/pi_worker.rs:228-401 | any such first run, any push onto the last epoch or none, the next run: the identifier stored in between and the stretch of the walk the run archives |
| InboxRuns.ArchivesExactly | mlh_archiver/src/public_inbox_source/pi_worker.rs:562-594 | the emails of a stretch name exactly its commits that have messages |
| InboxPushes.RunAfterPush | mlh_archiver/src/public_inbox_source/pi_worker.rs:228-401 | first run, k commits pushed onto the n of the last epoch behind g others, next run from the stored identifier: it archives the newest commits of a closed form, numbered on, whether or not the first run left commits out |
| InboxPushes.TakenExactlyIff | mlh_archiver/src/public_inbox_source/pi_worker.rs:483-502 | the closed form is k if and only if the first run left none out and k = 0, or g = 0 and not one onto two or more, or n = 1 and k <= g + 1; one onto n takes n; with nothing pushed onto an epoch cut short it is n - g |
| InboxPushes.PushArchivedIff | mlh_archiver/src/public_inbox_source/pi_worker.rs:228-401 | the next run archives exactly the messages pushed if and only if no commit between the ones it takes and the ones pushed has one |
| InboxPushes.PushArchivedExactlyIff | mlh_archiver/src/public_inbox_source/pi_worker.rs:228-401 | with all messages there, exactly the k new ones are archived, numbered on, in exactly the cases of the closed form |
| InboxPushes.PushArrivesIff | mlh_archiver/src/public_inbox_source/pi_worker.rs:228-401 | some number of runs after the push archives all pushed messages if and only if g = 0, or k <= g + 1, or (k - g - 1)(k - g) / 2 is less than g and what the first run left out together |
| InboxPushes.EveryRunExactIff | mlh_archiver/src/public_inbox_source/pi_worker.rs:228-401 | in a history of pushes, each followed by a run, every run archives exactly what was pushed before it if and only if the numbers of commits fit; and which number and commit are then stored |
| InboxPushes.PushedIsLost | mlh_archiver/src/public_inbox_source/pi_worker.rs:483-502 | one commit, one pushed, three pushed: the oldest of the three is not archived by the three runs and any number of restarts |
| InboxPushes.PushIsSkipped | mlh_archiver/src/public_inbox_source/pi_worker.rs:491-552 | three commits, one pushed, one more pushed: the last run archives nothing |
| InboxResume.OneOntoTwo | mlh_archiver/src/public_inbox_source/pi_worker.rs:491-502 | one commit pushed onto two: the run also takes an old one |
| InboxRestarts.NextArchivesNothingIff | mlh_archiver/src/public_inbox_source/pi_worker.rs:228-401 | a restart after a first run, stopped or not, archives nothing if and only if the oldest commit is stored or no commit it takes again has a message |
| InboxRestarts.InterruptedResumeIff | mlh_archiver/src/public_inbox_source/pi_worker.rs:228-401 | where m of the n commits of the last epoch were taken, the next run archives exactly the others, numbered on, if and only if m is 1 or n |
| InboxRestarts.OneRestart | mlh_archiver/src/public_inbox_source/pi_worker.rs:424-600 | from any state a first run or a restart leaves, behind any earlier epochs: nothing, the messages before the stored commit again with the same reach, or everything behind the head |
| InboxRestarts.ReachesHead | mlh_archiver/src/public_inbox_source/pi_worker.rs:424-600 | while the reach stays below the number of commits and the head has a message, restarts move up to the head and the next takes all the rest |
| InboxRestarts.NeverGetsPast | mlh_archiver/src/public_inbox_source/pi_worker.rs:424-600 | otherwise no number of restarts archives a commit from the stored one on |
| InboxRestarts.RestartsCompleteIff | mlh_archiver/src/public_inbox_source/pi_worker.rs:228-401 | behind any earlier epochs and with commits without messages: some number of restarts completes the last epoch if and only if no message was left, or the head has one and the places of the messages taken add up to less than its length |
| InboxRestarts.InterruptionHealsIff | mlh_archiver/src/public_inbox_source/pi_worker.rs:228-401 | where all have messages, after m of n commits: if and only if m = n or m (m + 1) / 2 < n |
| InboxRestarts.CutShortHealsIff | mlh_archiver/src/public_inbox_source/pi_worker.rs:228-401 | after an undisturbed first run: if and only if not n > g >= 2, or 1 + (n - g)(n - g + 1) / 2 < g |
| InboxResume.InterruptedResumeRepeats | mlh_archiver/src/public_inbox_source/pi_worker.rs:491-552 | otherwise the next run archives m - 1 old commits again and none of the missing ones |
| InboxResume.InterruptedFreshRun | mlh_archiver/src/public_inbox_source/pi_worker.rs:509-530 | a flag raised after m commits leaves the newest m archived |
| Epochs.FindEpochs | mlh_archiver/src/public_inbox_source/pi_utils.rs:707-768 | exactly the usable repositories of the directory, in order whenever no name is caught |
| Epochs.FoundExactly | mlh_archiver/src/public_inbox_source/pi_utils.rs:707-746 | an epoch is found if and only if there is a repository of its name with the suffix |
| Epochs.NumbersIncrease | mlh_archiver/src/public_inbox_source/pi_utils.rs:749-765 | with distinct numbers for names the epochs come in strictly increasing order |
| Epochs.AllComesLast | mlh_archiver/src/public_inbox_source/pi_utils.rs:749-765 | an epoch called "all" is the last one, and the numbers before it increase |
| Epochs.ListingOrderIsIrrelevant | mlh_archiver/src/public_inbox_source/pi_utils.rs:749-765 | and that order does not depend on how the directory lists them |
| Epochs.OrderedIff | mlh_archiver/src/public_inbox_source/pi_utils.rs:749-765 | the comparison is transitive on a set of names if and only if none that is neither a number nor "all" is caught between two numbers in opposite text order |
| Epochs.CaughtHaveNoOrder | mlh_archiver/src/public_inbox_source/pi_utils.rs:749-765 | between different numbers a caught name leaves no arrangement in order |
| Epochs.PlainNames | mlh_archiver/src/public_inbox_source/pi_utils.rs:749-765 | nothing is caught among numbers and "all" alone, nor where no name is a number |
| Epochs.CaughtNamesCycle | mlh_archiver/src/public_inbox_source/pi_utils.rs:749-765 | the smallest circle: 9, 10 and 5a |
| EmailId.ParseInvertsFormat | mlh_archiver/src/public_inbox_source/pi_utils.rs:546-601 | for every machine number and commit id, parsing inverts formatting if and only if the epoch name has no dash |
| EmailId.FormatInjective | mlh_archiver/src/public_inbox_source/pi_utils.rs:546-549 | different numbers, epochs or commits have different identifiers |
| EmailId.Shape | mlh_archiver/src/public_inbox_source/pi_utils.rs:546-549 | ten columns for the number, more only if it needs them, then the epoch and the commit id |
| Nntp.GetRawArticleRetryable | mlh_archiver/src/nntp_source/nntp_worker.rs:426-470 | gives up exactly when the first attempt and all retries fail; otherwise the server's answer, using just the failed requests before it |
| Nntp.ReadNewMails | mlh_archiver/src/nntp_source/nntp_worker.rs:379-423 | archives the available articles up to where it stopped, logs the others, counts the former; where it stops, and that it fails exactly when it stops early with the flag down |
| Nntp.UndisturbedReachesHigh | mlh_archiver/src/nntp_source/nntp_worker.rs:379-423 | without faults and shutdown it goes past the high mark |
| Nntp.StopsForFourFailures | mlh_archiver/src/nntp_source/nntp_worker.rs:379-470 | a session stops short only for the flag or for one article asked for four times in vain |
| Nntp.FourthFailureDecides | mlh_archiver/src/nntp_source/nntp_worker.rs:426-470 | four failures in a row stop it at once, three do not |
| Nntp.FlagStops | mlh_archiver/src/nntp_source/nntp_worker.rs:379-423 | without faults the flag stops it after as many numbers as it saw polls |
| Nntp.FetchedOrMissing | mlh_archiver/src/nntp_source/nntp_worker.rs:379-423 | every number come to is archived or logged, once, and exactly the missing ones are logged |
| Nntp.HandleGroup | mlh_archiver/src/nntp_source/nntp_worker.rs:286-351 | one session from the stored progress to the contents of the directory: where it stops, what it logs and which result it gives, from the failing requests and the flag |
| Nntp.UndisturbedSession | mlh_archiver/src/nntp_source/nntp_worker.rs:286-351 | left alone it passes the high mark and reports what it collected, or no news |
| Nntp.ErrorsHaveReasons | mlh_archiver/src/nntp_source/nntp_worker.rs:286-351 | a session that ends in an error could not open the group or asked four times in vain |
| Nntp.ConsummeList | mlh_archiver/src/nntp_source/nntp_worker.rs:115-234 | any number of sessions, each disturbed in any way, leave a directory whose files hold the emails of the abstract history in order, with exact progress |
| Nntp.ArticleIsOnDisk | mlh_archiver/src/nntp_source/nntp_worker.rs:286-423 | in it every available article up to the stored progress is found with its text, in its own file or as a row, however often it was fetched |
| Nntp.OnlyArticlesOnDisk | mlh_archiver/src/nntp_source/nntp_worker.rs:286-423 | and in raw mode no other file |
| Nntp.ArchivedExactly | mlh_archiver/src/nntp_source/nntp_worker.rs:286-423 | over any history each article is archived once if it is available and not beyond the stored progress, plus once for every session that resumed at it |
| Nntp.ResumeIsSafe | mlh_archiver/src/nntp_source/nntp_worker.rs:286-423 | over any history the archive holds exactly the available articles up to the stored progress |
| Nntp.CompleteSession | mlh_archiver/src/nntp_source/nntp_worker.rs:286-423 | a session that is not cut short leaves every available article up to its high mark archived |
| Nntp.OnlyArchivedIsReRead | mlh_archiver/src/nntp_source/nntp_worker.rs:286-351 | only an available, already archived article is ever resumed at |
| Nntp.ProgressNamesLast | mlh_archiver/src/nntp_source/nntp_worker.rs:286-423 | after a session, whatever was buffered, the progress file holds exactly the last archived number |
| Nntp.NumbersNeverShorter | mlh_archiver/src/file_utils.rs:145-163 | the numbers of a session never get shorter as texts |
| Nntp.ResumePointReadsBack | mlh_archiver/src/nntp_source/nntp_worker.rs:286-351 | the stored number is read back as the resume point |
| EmailStore.Conservation | mlh_archiver/src/archive_writer/parquet_email_store.rs:153-236 | after any emails and a close: the files in order hold exactly them, row groups have 1 to clamp(m, 1, 2048) rows, no file is empty, all but the last have m rows, m = 0 gives at most one |
| EmailStore.FilesAreChunks | mlh_archiver/src/archive_writer/parquet_email_store.rs:153-236 | the files of a whole run are exactly the emails cut into pieces of m, each cut into row groups of m, at least 1 and at most 2048; with m zero one file, row by row |
| EmailStore.BufferIsRemainder | mlh_archiver/src/archive_writer/parquet_email_store.rs:190-215 | at any moment exactly what does not fill a row group of the current file is buffered, and all before it is in files |
| EmailStore.PushKeepsGood | mlh_archiver/src/archive_writer/parquet_email_store.rs:190-215 | adding one email keeps: files then buffer are the emails so far, counters right, both thresholds out of reach |
| EmailStore.RunIsGood | mlh_archiver/src/archive_writer/parquet_email_store.rs:190-215 | this holds after every sequence of emails |
| EmailStore.NextIndexIsFree | mlh_archiver/src/archive_writer/parquet_email_store.rs:103-148 | the chosen file name is never taken |
| EmailStore.NextIndexUnique | mlh_archiver/src/archive_writer/parquet_email_store.rs:103-148 | a directory has only one next index |
| EmailStore.FileNameInjective | mlh_archiver/src/archive_writer/parquet_email_store.rs:145-147 | different indices have different file names |
| EmailStore.DiskContents | mlh_archiver/src/archive_writer/parquet_email_store.rs:68-148 | a session leaves all older entries as they were and each of its files under a name of its own |
| EmailStore.ParquetEmailStore.ResolvePath | mlh_archiver/src/archive_writer/parquet_email_store.rs:103-148 | the scan of the directory finds the next index and its name |
| EmailStore.ParquetEmailStore.Flush | mlh_archiver/src/archive_writer/parquet_email_store.rs:153-184 | the buffer becomes one row group of the open file, a new one if there is none; returns its identifiers |
| EmailStore.ParquetEmailStore.RotateFile | mlh_archiver/src/archive_writer/parquet_email_store.rs:91-101 | the open file is finished and the count starts again |
| EmailStore.ParquetEmailStore.AddEmail | mlh_archiver/src/archive_writer/parquet_email_store.rs:190-215 | the whole new state, and the returned identifiers: the buffered ones and the new one, or none |
| EmailStore.ParquetEmailStore.Close | mlh_archiver/src/archive_writer/parquet_email_store.rs:219-236 | the rest is written, the last file finished, the identifiers returned if there were any |
| ArchiveWriter.FinalProgressIsLatest | mlh_archiver/src/archive_writer/mod.rs:165-206 | both stores refine one archive: after drop the progress file holds the last archived identifier |
| ArchiveWriter.FinalProgressExactIff | mlh_archiver/src/archive_writer/mod.rs:165-206 | it does so if and only if neither the old file nor any text written on the way was longer |
| ArchiveWriter.CommittedProgressIsLatest | mlh_archiver/src/archive_writer/mod.rs:165-183 | between calls it holds the last identifier that is in a file, never one still buffered |
| ArchiveWriter.CommittedThenPending | mlh_archiver/src/archive_writer/parquet_email_store.rs:190-215 | what is in files and what is buffered make up what was archived |
| ArchiveWriter.CommittedAfterPush | mlh_archiver/src/archive_writer/parquet_email_store.rs:190-215 | an added email is either buffered, changing nothing in files, or everything is in files |
| ArchiveWriter.EmlFilesHold | mlh_archiver/src/archive_writer/raw_email_store.rs:40-58 | every email is found under its own name, if whatever was archived again under it had the same content |
| ArchiveWriter.EmlFilesHoldIff | mlh_archiver/src/archive_writer/raw_email_store.rs:40-58 | exactly when the last one archived under the identifier has the same content |
| ArchiveWriter.RawEmailStore.AddEmail | mlh_archiver/src/archive_writer/raw_email_store.rs:40-58 | one file per email, synced at once |
| ArchiveWriter.ArchiveWriter.ArchiveEmail | mlh_archiver/src/archive_writer/mod.rs:165-183 | store, progress and lineage move together: the invariant is kept with one more email |
| ArchiveWriter.ArchiveWriter.Drop | mlh_archiver/src/archive_writer/mod.rs:195-207 | at the end of a writer's life the directory holds the old contents plus its emails, lineage records and last identifier |
| ProgressFile.ExactIffNeverShorter | mlh_archiver/src/file_utils.rs:145-163 | the file is exact after every update of a history if and only if no update is shorter than the text it replaces |
| ProgressFile.ExactAtEndIff | mlh_archiver/src/file_utils.rs:145-163 | at the end of a history the file holds just the last text if and only if it never held a longer one |
| ProgressFile.OverwriteIsExact | mlh_archiver/src/file_utils.rs:145-163 | one overwrite leaves just the new text if and only if it is not shorter |
| ProgressFile.UpdateAllIsLatest | mlh_archiver/src/archive_writer/progress.rs:50-77 | such a history leaves the rendering of the latest identifier |
| ProgressFile.MonotoneLengths | mlh_archiver/src/archive_writer/progress.rs:50-77 | identifiers of non-decreasing length make such a history |
| ProgressFile.NeverShorterPrefix | mlh_archiver/src/archive_writer/mod.rs:195-207 | skipping intermediate updates, as drop does, makes no difference |
| Lineage.RoundTrip | mlh_parser/src/lineage_parser.rs:133-234 | appending records and splitting the file gives them back in order if and only if none has a separator line inside |
| Lineage.AppendAllIsStream | mlh_archiver/src/file_utils.rs:243-265 | appending one by one writes the records with a mark before each but the first |
| Lineage.SplitFirstRecord | mlh_parser/src/lineage_parser.rs:164-180 | splitting peels off exactly the first record |
| Lineage.InnerSeparatorShows | mlh_parser/src/lineage_parser.rs:164-180 | a separator inside the first record always shows in the result |
| Lineage.ParseContent | mlh_parser/src/lineage_parser.rs:164-212 | the records of one file join the batch in order, across the row-group boundary |
| Lineage.ParseLineage | mlh_parser/src/lineage_parser.rs:133-234 | the row groups together are exactly the readable records of all lists in order, all but the last have 50,000, the total counts them, no file without records |
| Lineage.AllListsAreRead | mlh_parser/src/lineage_parser.rs:133-234 | whatever the archiver appended, list by list and record by record, is what the parser collects |
| Scheduler.Safety | mlh_archiver/src/scheduler.rs:206-352 | in every state any interleaving reaches, workers that give up or die of a task included: sent = received then queued, in order, at most 10 queued, each task with one worker, what was sent a prefix of the repeated stream |
| Scheduler.ConservedStep | mlh_archiver/src/scheduler.rs:206-352 | each step of any thread keeps this |
| Scheduler.BlocksAtTen | mlh_archiver/src/scheduler.rs:206-352 | the producer waits if and only if ten tasks are queued, it has another one, and a worker could still receive it |
| Scheduler.NoDeadlock | mlh_archiver/src/scheduler.rs:206-352 | in every reachable state all threads have finished or one can step |
| Scheduler.StepDecreases | mlh_archiver/src/scheduler.rs:206-352 | every step makes a natural number smaller, unless a rescan may still follow |
| Scheduler.EveryRunEnds | mlh_archiver/src/scheduler.rs:313-352 | without looping no schedule has more steps than the start allows |
| Scheduler.RunsEndAfterShutdown | mlh_archiver/src/scheduler.rs:313-352 | with looping, nor has any after the flag is up |
| Scheduler.AllDelivered | mlh_archiver/src/scheduler.rs:206-352 | a finished run without shutdown in which some worker never failed has delivered exactly what was to be sent, in order |
| Scheduler.NormalModeDelivers | mlh_archiver/src/scheduler.rs:206-352 | without looping the workers together get every list once, in order |
| Scheduler.LoopGoesOn | mlh_archiver/src/scheduler.rs:336-350 | with looping, some batch, the flag down and a receiver left, the producer has not finished in any reachable state |
| Scheduler.RescansForever | mlh_archiver/src/scheduler.rs:313-352 | and from every such state the group can go on until it has sent everything any number of times |
| Scheduler.NormalModeRescans | mlh_archiver/src/scheduler.rs:313-352 | in normal mode: every list, in order, as often as one likes |
| Scheduler.ShutdownIsHeeded | mlh_archiver/src/scheduler.rs:206-244 | after the flag is up, workers in normal mode get at most one more task each |
| Scheduler.DrainsToTheEnd | mlh_archiver/src/scheduler.rs:247-293 | in range mode a finished run has delivered all that was sent, shutdown or not, if some worker never failed |
| RangeMode.DecodeInvertsEncode | mlh_archiver/src/scheduler.rs:247-293 | the worker decodes what the producer encoded if and only if the list name has no mark |
| RangeMode.RangeModeDelivers | mlh_archiver/src/scheduler.rs:375-411 | what the workers decode is each list paired with the expansion of the range, in order, each pair once, under any interleaving without shutdown in which some worker never failed |
| RangeMode.RangeModeDrains | mlh_archiver/src/scheduler.rs:247-293 | under a shutdown, too, whatever was sent has been delivered once one worker came to the end |
| RangeInputs.ParsePrintedPart | mlh_archiver/src/range_inputs.rs:16-62 | a printed number or ascending range parses to itself with any white space around it |
| RangeInputs.ParseInvertsPrint | mlh_archiver/src/range_inputs.rs:16-62 | so does a comma-joined printing of parts, and the sequence is their intervals in order |
| RangeInputs.RefusedParts | mlh_archiver/src/range_inputs.rs:16-62 | a descending range, a blank part, a word, and a range with a word for a bound are refused, each with its own error |
| RangeInputs.FirstErrorDecides | mlh_archiver/src/range_inputs.rs:16-62 | the first part that is refused refuses the sequence with its error |
| RangeInputs.ExpandCovers | mlh_archiver/src/range_inputs.rs:50-62 | the expansion contains exactly the covered numbers |
| EmailReader.BatchesInTurn | mlh_parser/src/email_file_reader.rs:21-58 | the batches of a file give their rows in turn, one that cannot be read gives one error, and reading goes on |
| EmailReader.ParquetEmailReader.Next | mlh_parser/src/email_file_reader.rs:21-58 | the next row of a file, past exhausted and empty batches; a batch that cannot be read is an error item |
| EmailReader.MultiFileEmailReader.Next | mlh_parser/src/email_file_reader.rs:101-143 | the chained iterator yields the items of all files in turn and then nothing |
| ArchiveThenParse.SessionsAccumulate | mlh_archiver/src/archive_writer/parquet_email_store.rs:103-148 | after any number of sessions the directory has all their files under consecutive indices, their rows in index order the archived emails in order |
| ArchiveThenParse.WriterIsSession | mlh_archiver/src/archive_writer/mod.rs:102-206 | the life of one writer is one such session |
| ArchiveThenParse.OrderIffAtMostThousand | mlh_archiver/src/archive_writer/parquet_email_store.rs:145-147 | the names of n files in a row sort by index if and only if n is at most 1000 |
| ArchiveThenParse.TakenInIndexOrderIff | mlh_parser/src/lib.rs:280-299 | the parser takes them in index order if and only if n is at most 1000, whatever the listing order |
| ArchiveThenParse.CollectEmailFiles | mlh_parser/src/lib.rs:280-299 | the `.eml` and `.parquet` files of a directory, in path order |
| ArchiveThenParse.TakenExactly | mlh_parser/src/lib.rs:280-299 | each file with such an extension is taken as often as it is listed, and nothing else |
| ArchiveThenParse.ExtensionForms | mlh_parser/src/lib.rs:280-299 | the extension counts in upper or lower case; a leading dot does not begin one |
| ArchiveThenParse.ItemsInIndexOrder | mlh_parser/src/email_file_reader.rs:101-143 | read in index order, however the decoder cuts batches, the files give the rows written |
| ArchiveThenParse.RoundTrip | mlh_parser/src/lib.rs:134-299 | up to 1000 files the parser's iterator yields exactly the archived emails of all sessions in order |
| ArchiveThenParse.RoundTripAsMultiset | mlh_parser/src/lib.rs:134-299 | with any number of files it yields the same emails in some order |
| ArchiveThenParse.DirectoryKeys | mlh_archiver/src/archive_writer/parquet_email_store.rs:103-148 | the names in the directory are those of as many indices in a row from 0 |
| RawThenParse.EmlFileIsRead | mlh_parser/src/email_file_reader.rs:80-91 | the parser takes the file of an email, and under the identifier of that email, if and only if that is not empty |
| RawThenParse.StoreHoldsLatest | mlh_archiver/src/archive_writer/raw_email_store.rs:40-58 | whatever was archived, the raw files are those of the latest email of every identifier |
| RawThenParse.RawReadBack | mlh_parser/src/email_file_reader.rs:101-143 | each email in its file comes out once, and in a given order if and only if the names are in path order |
| RawThenParse.RawRoundTrip | mlh_parser/src/lib.rs:134-299 | from a raw archive the parser gets the latest email of every identifier once, in the order of archiving if and only if their names are in path order |
| RawThenParse.NumbersInOrderIff | mlh_parser/src/lib.rs:280-299 | emails named by rising numbers are in path order if and only if no number is above the leading digits of a later one |
| RawThenParse.RowInOrderIff | mlh_parser/src/lib.rs:280-299 | for numbers in a row: if and only if the first and the last are equally long |
| RawThenParse.NineAndTen | mlh_parser/src/lib.rs:280-299 | 9 and 10 are not |
| Pipeline.ParseDirectory | mlh_parser/src/lib.rs:134-245 | one list from its directory: the row groups and error lines account for the items of its files in path order, with the exact condition for success |
| Pipeline.UnreadableFileFails | mlh_parser/src/email_file_reader.rs:101-143 | one email file that cannot be opened makes the run fail |
| Pipeline.FetchThenRead | mlh_parser/src/lib.rs:168-299 | after any history of NNTP sessions in Parquet mode, up to 1000 files, the items are the emails fetched, in order |
| Pipeline.FetchThenParse | mlh_parser/src/lib.rs:134-299 | and so the row groups together are these emails parsed, in order, the error lines those that do not parse, and the run succeeds unless a failure counts |
| Pipeline.FetchRawThenRead | mlh_parser/src/lib.rs:134-299 | in raw mode every available article up to the stored progress comes out exactly once, however often it was fetched, by rising numbers if and only if the leading digits allow it |
| Pipeline.InboxThenRead | mlh_parser/src/lib.rs:134-299 | a raw archive of a first public-inbox run is read in the order it was written, as long as ten columns hold the numbers |
| Dataset.TakeBatch | mlh_parser/src/lib.rs:168-180 | a batch is the next items, at most the batch size, fewer only at the end |
| Dataset.ProcessBatch | mlh_parser/src/lib.rs:178-229 | one batch gives its parsed emails and its error lines, unless its items, alone, would end a run |
| Dataset.ProcessMailingList | mlh_parser/src/lib.rs:134-245 | the row groups are the parsed emails of consecutive batches of the given size and the error lines those that do not parse, in order; the run is successful and complete if and only if all items can be read and, when failures count, parse |
| Dataset.AccountsPush | mlh_parser/src/dataset_writer.rs:31-60 | a further batch keeps the account: groups, error lines, group size, total |
| Dataset.EveryRowCounts | mlh_parser/src/lib.rs:168-245 | every email is either parsed or reported |
| Dataset.CsvReadBack | mlh_parser/src/lib.rs:215-278 | every error line is read back as identifier and message, whatever they contain; only line breaks in the message are changed |
| DateSelection.BreakdownBound | mlh_parser/src/email_parser.rs:248-316 | with a strict majority of dates in [a, b] the chosen one is at most b, and at least a - (7000/1349)(b - a) if and only if outliers are removed or the earliest date already is |
| DateSelection.EqualDatesKeepOutlier | mlh_parser/src/email_parser.rs:302-316 | two equal dates and one ten days earlier: the early one is chosen |
| DateSelection.MajorityBounds | mlh_parser/src/email_parser.rs:274-292 | such a majority holds the median and bounds the deviation |
| DateSelection.AtLeastHalfSurvive | mlh_parser/src/email_parser.rs:281-314 | at least half of the dates survive the cut, so the fallback never fires |
| DateSelection.SurvivorsAreSlice | mlh_parser/src/email_parser.rs:302-307 | the survivors are a contiguous slice of the sorted dates |
| DateSelection.CoreSurvives | mlh_parser/src/email_parser.rs:281-307 | the last date not after the median always survives |
| DateSelection.ChosenNearMedian | mlh_parser/src/email_parser.rs:248-316 | the chosen date is the earliest of those within the cut of the median, and not after it, when outliers are removed; otherwise the earliest of all |
| DateSelection.MedianIsMidpoint | mlh_parser/src/email_parser.rs:274-292 | median and deviation lie half way between the middle values |
| DateSelection.SelectDate | mlh_parser/src/email_parser.rs:226-317 | the method chooses that date among the repaired, plausible ones, or none if there is none |
| DateSelection.ChosenIsPlausible | mlh_parser/src/email_parser.rs:226-317 | the chosen instant belongs to a given date, repaired, from 1986 on and at most three days ahead |
| DateSelection.SelectionIsOrderIndependent | mlh_parser/src/email_parser.rs:226-317 | permuting the dates does not change it |
| DateSelection.RepairIsCautious | mlh_parser/src/date_parser.rs:217-266 | the repair changes nothing but the year, never past the current one, and once; an unrepaired short year is never accepted |
| DateSelection.RepairedYear | mlh_parser/src/date_parser.rs:236-266 | a year of up to two digits becomes the one between 1950 and 2049 that ends in it, one of three digits counts from 1900, if that day exists and has come |
| DateSelection.DaysAreNumbered | mlh_parser/src/email_parser.rs:226-317 | every civil day has the number after the one before it |
| DateSelection.ZonesAgree | mlh_parser/src/email_parser.rs:226-317 | instants do not depend on the offset in which a date is told |
| Patches.ExtractPatches | mlh_parser/src/extractors.rs:73-125 | the patches are the trimmed sections between `---` lines, in order and disjoint, and exactly the sections with a diff header |
| Patches.EveryHeaderInOnePatch | mlh_parser/src/extractors.rs:73-125 | patches exist if and only if the body has a header, and each header starts in exactly one |
| Patches.SharePatchIff | mlh_parser/src/extractors.rs:100-125 | two headers are in one patch if and only if no `---` line stands between them |
| Patches.PatchIsUnique | mlh_parser/src/extractors.rs:100-125 | the patch around a header is the only trimmed section around it |
| Patches.PatchesAreUnique | mlh_parser/src/extractors.rs:73-125 | a body is cut in one way only |
| Patches.SliceHasHeader | mlh_parser/src/extractors.rs:56-57 | looking for headers in a section is looking for them in the body |
| Patches.HeaderForms | mlh_parser/src/extractors.rs:56-57 | what begins a diff, in either case, and what does not |
| Patches.SeparatorForms | mlh_parser/src/extractors.rs:78-81 | three dashes with nothing visible behind them separate, and nothing else |
| SubjectTags.ExtractTags | mlh_parser/src/extractors.rs:336-418 | what is taken off the front is white space, Re/Fw tags, a leading word patch and groups, and no further tag follows; tags, flags, version, sequence and untagged subject come from it |
| SubjectTags.ProcessColonTags | mlh_parser/src/extractors.rs:227-252 | the longest chain of Re/Fw tags with only white space between |
| SubjectTags.ReadGroups | mlh_parser/src/extractors.rs:365-392 | the loop over the groups extends the zone by whole groups until none follows |
| SubjectTheorems.ZoneIsUnique | mlh_parser/src/extractors.rs:336-418 | a subject has only one such zone |
| SubjectTheorems.ReadingIsUnique | mlh_parser/src/extractors.rs:336-418 | and therefore only one reading |
| SubjectTheorems.TailIsSuffix | mlh_parser/src/extractors.rs:394-398 | the text kept is what follows the zone, without white space, quotes and closing brackets in front |
| SubjectRoundTrip.GroupRoundTrip | mlh_parser/src/extractors.rs:380-392 | tokens with white space between them in a group give exactly the tags they stand for, in order |
| SubjectRoundTrip.TailOfTitle | mlh_parser/src/extractors.rs:394-398 | a title behind white space, quotes and closing brackets is kept as it is |
| SubjectRoundTrip.SubjectRoundTrip | mlh_parser/src/extractors.rs:336-418 | a group and a title, with a response or forward tag in front or none, have no other reading than these tags and this title |
| SubjectRoundTrip.TagNames | mlh_parser/src/extractors.rs:185-213 | the words that are tags, in any case |
| SubjectRoundTrip.VersionTag | mlh_parser/src/extractors.rs:143-213 | a v and a number is a version, and counts when it fits 16 bits |
| SubjectRoundTrip.SequenceTag | mlh_parser/src/extractors.rs:146-213 | two numbers with a slash between them are a sequence number |
| SubjectRoundTrip.PartsAmongJunk | mlh_parser/src/extractors.rs:153-167 | parts glued with slashes and other junk between them are found, each of them and in order |
| SubjectRoundTrip.TokenEndings | mlh_parser/src/extractors.rs:384-392 | dots at the end of a word and one colon behind them are not part of the tag |
| SubjectRoundTrip.PatchWordForms | mlh_parser/src/extractors.rs:336-372 | what may and what may not follow the word patch in front of a subject |
| SubjectRoundTrip.PatchAndTitle | mlh_parser/src/extractors.rs:336-418 | the word and a title without brackets have no other reading than this one tag and this title |
| SubjectTags.JoinedIsTrimmed | mlh_parser/src/extractors.rs:399-406 | the last trimming has nothing to do, so the untagged subject is colon tags and kept text |
| SubjectTags.PatchExcludesColon | mlh_parser/src/extractors.rs:355-363 | a leading word patch leaves no room for colon tags |
| SubjectTokens.TagState.PushTag | mlh_parser/src/extractors.rs:192-217 | every field stays readable off the tags, the last version and sequence winning |
| SubjectTokens.GluedHasParts | mlh_parser/src/extractors.rs:158-166 | a token that starts with patch or rfc always has parts, so the branch for none is never taken |
| SubjectTokens.SplitGluedRoundTrip | mlh_parser/src/extractors.rs:153-167 | known parts glued together are split into exactly these parts |
| SubjectTokens.LastOfKindIsLast | mlh_parser/src/extractors.rs:208-213 | the version and sequence fields come from the last such tag, and are empty if and only if there is none |
| SubjectTokens.WordsKeepText | mlh_parser/src/extractors.rs:380-388 | cutting a group into words loses white space only |
| Decimal.ParsePad | mlh_archiver/src/public_inbox_source/pi_utils.rs:546-601 | a padded number is read back if it fits the width |
| Decimal.LengthIs | mlh_archiver/src/public_inbox_source/pi_utils.rs:546-549 | the numbers below a power of ten are those that fit its columns |
| Decimal.ThreeDigits | mlh_archiver/src/archive_writer/parquet_email_store.rs:145-147 | exactly the numbers up to 999 fit the three columns of a file index |

## Left out

- git and NNTP themselves: object lookup, sockets, TLS, authentication, reconnection and waiting; a revision walk that fails half way; a stored commit id short enough to be ambiguous.
- `detect_inbox`, configuration, glob matching of list names, the text interface, logging and telemetry.
- File-system failures: writing, flushing and creating files always succeed, and nothing is claimed about a crash between a flush and the end of a Parquet file.
- The bytes of Parquet, Arrow and YAML, under the assumptions above.
- Overflow of the file index: indices are unbounded in the model. The store is used with the stem "data", so an output path that itself ends in `.parquet` is not modelled.
- EmailStore.IsNextIndex: the index of a directory entry is read as any text after the stem that parses as a number, which is what the scan does; symbolic links and entries that cannot be listed are not modelled.
- Nntp.HandleGroup: normal mode only; `read_email_by_index` of the NNTP worker is not part of this model.
- Nntp.ResumeIsSafe: availability of an article does not change between sessions.
- Nntp.ConsummeList: the history starts in a directory without emails and progress.
- InboxRuns.RunAfterFirst: no email range; the first run archives a message of the epoch it is stopped in, the next one is not stopped. Any epoch may be the one (InboxEpochs.StoppedThenLater), but what happens when several epochs grow at once is not put in closed form beyond that.
- InboxRanges.RangeRun: first runs; a resumed run over a range (ProcessInbox) has no closed form.
- InboxPushes.EveryRunExactIff: all commits of the last epoch have messages.
- InboxRestarts.RestartsCompleteIff: restarts that are not interrupted themselves.
- RawThenParse.RawReadBack: an `.eml` file is read as the text that was written; bytes that are not UTF-8 are not modelled.
- Epochs.FindEpochs: what the sort of the Rust library does with a comparison that is not transitive is not specified; the model sorts by insertion.
- Scheduler.EveryRunEnds: the order in which threads are started, and the producer's sleep between rescans beyond being a step of its own.
- DateSelection.SelectDate: exact arithmetic in place of `f64`; the dates are given, so the parsing of date texts is not modelled, and a local time that its offset cannot express does not occur.
- Patches.ExtractPatches: the regular expressions are hand-written scanners for the same lines.
- SubjectTags.ExtractTags: letters, digits and word boundaries of the tag scanners are those of ASCII; other Unicode digits and word characters are not told apart.
- Dataset.ProcessMailingList: the email parser is a function from text to result; the columns of a row are not modelled.
- `extract_attributions`, `extract_fixes_body_tags_from_body`, address normalisation and mailmap: single regular expressions or map lookups.
- The anonymizer and the analysis scripts.
