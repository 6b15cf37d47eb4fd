# A verified model of the sqrzl emulator's core

This project models the parts of the emulator whose correctness depends on more than one
function: the capture journal and the filesystem mail store that publishes through it, capture
admission, recipient fan-out, mailbox paging, the object lifecycle engine, the usage counters,
and presigned URLs. `dafny verify dfyconfig.toml` checks all of it.

## How it is organised

**Capture journal.** `Journal.dfy` has the files of one store as a value and `Recovered`, the one
expression that says what reopening leaves. `Disk.dfy` is the file system, one effect at a time;
every primitive may fail, and counters record exactly the calls that did; `trace` keeps every state
the disk passes through, so "the process stops here" is "some state of `trace`". `Capture.dfy` has recovery and commit as methods over that
disk. `History.dfy` strings the states of any number of captures, failures, stops, reopenings and
edits into one run (`Chain`) and proves what holds over every run.

**Mail.** `MailFiles.dfy` is the layout, `MailStore.dfy` the writers, `MailReader.dfy` the readers,
which interleave with writers at every step, `Replay.dfy` the repeatability records,
`Budget.dfy` and `Admission.dfy` what is admitted, `FanOut.dfy` the fallback fan-out and
`FanOutRefines.dfy` its agreement with the atomic batch, `Paging.dfy` the paged and searched
listings.

**Lifecycle.** `LifecycleRules.dfy` has filters, due dates and protection, `LifecycleSpec.dfy` what
a pass does and what the rules promise, `Lifecycle.dfy` the storage effects, `LifecycleSteps.dfy`
what one effect and one rule keep, `LifecycleSweep.dfy` what a noncurrent rule removes,
`LifecycleOutcome.dfy` what a whole pass leaves when no call is refused, and
`LifecycleExecutor.dfy` the passes and the eager check. The store logs every storage call that
fails (`refused`); an empty addition to that log is what "no call fails" means below.

**Counters.** `Metrics.dfy` and `MetricsSeries.dfy`. **Presigned URLs.** `Text.dfy`, `Canonical.dfy`, `Presign.dfy` and
`PresignIssue.dfy`. `Sorting.dfy` and `Common.dfy` are shared.

## Assumptions

- A new transaction id is a UUID that occurs in no file name of the store (`FreshId`, `NewTx`).
- Destinations lie outside the journal directory; no mailbox directory is named like it.
- Mailbox directories use the hashed layout, and the hash has no collisions on the keys in use;
  serialised documents can be read back (`MailCodec.Lawful`).
- A process may stop at any point; files written before are then in the state of the last effect.
  One process writes to a store.
- A store holds what runs of this program leave behind (`Codec.Inv`); recovery is specified on stores
  with damaged intents as well, which it reports.
- Digests are hexadecimal text and dates are read back to the second (`Signer.Lawful`). Nothing
  else is assumed about SHA-256 or HMAC.

## What turned out not to hold

- A lifecycle pass lists a bucket with `list_objects(.., None)`, and the filesystem store answers
  such a call with at most 1000 keys (src/storage/filesystem.rs:1361). For buckets of up to 1000
  objects, and for no larger size, a pass does what its rules promise
  (`LifecycleSpec.PromiseExactly`), a second pass changes nothing (`LifecycleSpec.IdempotentExactly`),
  and eager and batch expiry agree (`LifecycleSpec.EagerAgreesExactly`). The failing families are
  `LifecycleSpec.LargeBucketKeepsExpired` and `LifecycleSpec.EagerReachesFurther`;
  `LifecycleSpec.RuleExactly` is the exact condition for one rule on one bucket.
- Expiring the current version in a bucket whose versioning is suspended replaces the key's null
  version even if that version is protected. A protected version is lost by a rule exactly when it
  is such a null version and the listed current version of its key expires
  (`LifecycleSteps.RuleSparesExactly`), and over a whole pass exactly when that current version
  expires under some rule (`LifecycleOutcome.PassSparesExactly`, for buckets of at most 1000 keys);
  every other protected version survives every pass, whatever fails (`Careful`, in the contracts of
  all passes). `LifecycleSteps.SuspendedDeleteLosesHold` is a concrete bucket.
- A noncurrent rule that cannot read a key's current version treats that version as noncurrent. A
  current version is lost exactly when its lookup failed, the rule selected it, it is due and
  unprotected, and its delete succeeded (`LifecycleSweep.CurrentGoneExactly`);
  `LifecycleSweep.FailedLookupLosesCurrent` is a concrete bucket.
- `capture_batch` does not publish every batch that is within its budget. The files of a batch have
  distinct paths exactly if its ids differ, no recipient is keyed `_all` and its record keys differ
  (`FanOutRefines.BatchPathsExactly`); the journal admits it exactly if moreover no id holds a slash
  and no destination is taken (`FanOutRefines.AdmissibleExactly`); and when no call fails, the capture
  succeeds exactly if moreover every message has a recipient and a usable id and every mailbox a
  name and no foreign sidecar (`FanOutRefines.CaptureSucceedsExactly`). The fallback fan-out files one
  copy for the two targets of a recipient keyed `_all` (`FanOutRefines.FallbackFilesAllOnce`).
- An error from a capture does not mean that nothing was published: a failure after the marker was
  created is reported as an error with the batch in place. `Capture.Commit` and the contracts above
  it tell the two apart by `point`.
- A presigned URL names its bucket and key exactly if the bucket is not empty, does not start with a
  slash, and no segment holds a percent escape that decodes to text
  (`PresignIssue.UrlNamesExactly`): generation trims leading slashes and decodes escapes.

## Model

| member | source | states |
|---|---|---|
| `Journal.PendingIsSeparate` | src/capture.rs:245-262 | a staging name is itself a valid destination, ends in the transaction's suffix and is never mistaken for a document |
| `Journal.ValidStaysBelow` | src/capture.rs:251-262 | walking a valid path from the store root leads exactly below it |
| `Journal.StrayIsInvalid` | src/capture.rs:251-262 | a path with an empty, dot, double-dot or slashed component is refused |
| `Journal.IntentPathsMember` | src/capture.rs:176-190 | an intent lists exactly the destinations and their staging names |
| `Journal.PutAllMember` | src/capture.rs:213-229 | writing a batch adds its paths and nothing else, and keeps every other file |
| `Journal.PutAllBytes` | src/capture.rs:213-229 | writing a batch stores each file with its own bytes |
| `Journal.Codec.RecoveredIsClean` | src/capture.rs:124-143 | what recovery leaves has nothing unfinished, and recovering it again changes nothing |
| `Journal.Codec.MarkerSurvives` | src/capture.rs:128-130 | no recovery removes the marker of a committed transaction |
| `Journal.Codec.RemoveOwned` | src/capture.rs:131-140 | removing one file of an unfinished transaction, its intent last, keeps the recovered store and the invariant |
| `Journal.Codec.InFlightView` | src/capture.rs:191-233 | any state of an unpublished capture recovers exactly to the state before it |
| `Journal.Codec.InFlightWhole` | src/capture.rs:213-229 | no reader ever meets a half-written document |
| `Journal.Codec.VisibleIsRecovered` | src/capture.rs:97-105 | at every instant the documents readers accept are exactly those recovery would keep |
| `DiskModel.Disk.WriteAll` | src/capture.rs:205-208 | a write may stop after any prefix; every intermediate state is in the trace; it succeeds exactly if nothing failed |
| `DiskModel.Disk.WriteNewSynced` | src/capture.rs:264-272 | succeeds exactly if the file did not exist and nothing failed; otherwise the file holds a prefix of the data |
| `DiskModel.Disk.Rename` | src/capture.rs:211 | moves the bytes in one effect, or does nothing |
| `DiskModel.Disk.RemoveIfPresent` | src/capture.rs:280-293 | success means the file is gone and nothing else changed; a failure is counted as a refused removal |
| `DiskModel.Disk.RemoveTxDir` | src/capture.rs:140 | removes the files of one transaction in any order and may stop anywhere; touches no other file |
| `Capture.ShrunkView` | src/capture.rs:139-141 | however much of an unfinished transaction directory is gone, the same store is recovered |
| `Capture.RemoveAllListed` | src/capture.rs:135-138 | removing the listed files keeps what recovery gives in every intermediate state; it stops at an invalid path |
| `Capture.RecoverOne` | src/capture.rs:126-141 | undoes one unfinished transaction, leaves all others untouched, fails as corrupt only on an unreadable intent |
| `Capture.Recover` | src/capture.rs:124-143 | success gives exactly `Recovered` of the start; every state on the way recovers to the same store; a damaged intent is reported and never guessed at |
| `Capture.RecoveryRestarts` | src/capture.rs:124-143 | recovery interrupted anywhere and run again reaches the same files, meets only readable intents, and is idempotent |
| `Capture.PublishedFiles` | src/capture.rs:167-243 | a published batch is the old store, every destination with its bytes, one intent and one marker |
| `Capture.PublishedIsClean` | src/capture.rs:230-233 | a published store needs no recovery and satisfies the invariant |
| `Capture.PublishIntent` | src/capture.rs:192-211 | the intent is staged in two writes and renamed; a crash in between leaves the store recoverable to what it was |
| `Capture.PublishFile` | src/capture.rs:213-228 | staging and renaming one destination keeps the capture in flight in every state; success adds exactly that file |
| `Capture.PublishAll` | src/capture.rs:191-229 | all files are written and the store still recovers to the state before, since the marker is missing |
| `Capture.PublishMarker` | src/capture.rs:230-233 | creating the marker is the one effect that publishes the batch |
| `Capture.RollBack` | src/capture.rs:234-241 | unless a removal is refused the state before is restored; a refused removal keeps the intent so that recovery can finish |
| `Capture.CheckDestinations` | src/capture.rs:176-190 | accepts exactly when every destination is valid, free and listed once |
| `Capture.Commit` | src/capture.rs:145-243 | every state before the marker recovers to the old store, every state from it on is the published one; Ok implies published; an unpublished batch leaves exactly the recovered store unless a scan, read or removal was refused; when no call fails, it is published exactly if it is admissible and is an invalid request otherwise |
| `Capture.CrashAtomicity` | src/capture.rs:167-243 | for every cut point: the store reopens to the old files exactly when the marker is missing, otherwise to the old files plus every destination with its bytes |
| `Capture.UnpublishedIsInvisible` | src/capture.rs:97-105 | until the marker exists no reader accepts any document of the batch, even where a rollback failed |
| `History.EmptyStoreIsRun` | src/mail/filesystem.rs:40-48 | a new, empty store starts a run |
| `History.ChainPrefix` | src/capture.rs:1-6 | a process may stop in any state: what happened so far is a run |
| `History.ReadyExtendsChain` | src/capture.rs:167-243 | every batch whose destinations are free continues a run with its publication |
| `History.RecoveryExtendsChain` | src/capture.rs:124-143 | all states of a recovery continue a run |
| `History.CommitExtendsChain` | src/capture.rs:167-243 | all states of a commit continue a run, with one publishing step at the marker |
| `History.EditIsStep` | src/mail/filesystem.rs:467-480 | changing one file outside journal and records is one step of a run and keeps the invariant |
| `History.KeptPersists` | src/capture.rs:60-105 | journal entries and records survive every later step with the same bytes |
| `History.FileSurvives` | src/capture.rs:124-143 | no capture, recovery, failure or stop removes or changes a published file; only an edit of that very file does |
| `History.PublishedOnce` | src/capture.rs:176-188 | at most one batch of a run publishes a given journal or record path |
| `History.MarkerTiming` | src/capture.rs:97-105 | a batch counts as committed in exactly the states from its publication on |
| `Replay.LoadIsRecovered` | src/capture.rs:75-95 | in any one state a lookup never fails and finds exactly the records recovery would keep |
| `Replay.ReplayExactlyOnce` | src/capture.rs:60-105 | a published record is what every later lookup returns, and none before returned any |
| `Replay.OneBatchPerKey` | src/mail/filesystem.rs:263-269 | over every run, at most one batch publishes a record for a key |
| `Replay.TakenKeyPublishesNothing` | src/capture.rs:176-188 | an attempt to publish a record for a key that has one publishes nothing |
| `Replay.RecordHasOrigin` | src/capture.rs:75-95 | a record that can be looked up was published by some batch of the run |
| `Budget.CaptureBudget.Add` | src/capture/budget.rs:19-26 | accepts exactly when the true sum is at most 64 MiB, despite 64-bit arithmetic |
| `Budget.CaptureBudget.Copies` | src/capture/budget.rs:28-30 | the same for a product |
| `Budget.CaptureBudget.Records` | src/capture/budget.rs:32-39 | charges three copies and an envelope per record, exactly |
| `Budget.JsonBytes` | src/capture/budget.rs:42-63 | counts a serialisation written in pieces, and gives up exactly above the limit |
| `Budget.AddMessage` | src/mail/budget.rs:7-33 | accepts a message exactly when its total over distinct recipients and `_all` still fits |
| `Budget.CheckMail` | src/mail/budget.rs:35-52 | accepts exactly when the unbounded total is at most 64 MiB |
| `Budget.CheckSingleCopy` | src/mail/budget.rs:54-60 | accepts one copy exactly when three times its JSON, its raw bytes, an envelope and the two names fit in 64 MiB |
| `Budget.CheckSms` | src/sms/budget.rs:6-39 | accepts text messages exactly when their unbounded total fits |
| `Budget.NobodyTotal` | src/mail/budget.rs:13-32 | without recipients a message is charged for its submission and the account-wide copy |
| `Budget.OneMoreRecipient` | src/mail/budget.rs:14-32 | a new recipient adds two JSON texts, its name, the raw bytes and an envelope, one JSON text less for `_all`; a repeated one adds nothing |
| `Budget.OneMoreSms` | src/sms/budget.rs:12-25 | a text message adds four times its fields and four envelopes |
| `Budget.OneMoreMedia` | src/sms/budget.rs:26-37 | a media item adds four times its description, one envelope and twice its content |
| `Budget.OneMoreRecord` | src/capture/budget.rs:32-39 | a record adds three times its text and one envelope, to mail and to text messages |
| `Budget.RecipientsOrderFree` | src/mail/budget.rs:14-16 | the order and repetition of recipients never changes a total |
| `Budget.AdmissionOrderFree` | src/mail/budget.rs:35-52 | permuting messages or records never changes the decision |
| `Budget.SmsOrderFree` | src/sms/budget.rs:6-39 | the same for text messages |
| `Admission.AdmittedFits` | src/mail/budget.rs:13-32 | an admitted batch hands at most 64 MiB of file bytes to the journal, if envelopes and tags stay within their allowance |
| `MailFiles.MailCodec.MessagePathInjective` | src/mail/filesystem.rs:86-91 | different mailboxes or ids never share a file |
| `MailFiles.MailCodec.RecordPathInjective` | src/capture.rs:60-66 | different record keys never share a file |
| `MailFiles.MailCodec.NotPending` | src/mail/filesystem.rs:86-98 | no mail or record file can be mistaken for a staging name |
| `MailFiles.SegmentExactly` | src/mail/filesystem.rs:458-465 | an id is usable exactly if it is not empty and contains no slash, backslash or double dot |
| `MailFiles.TargetsInOrder` | src/mail/filesystem.rs:239-252 | a message is filed first under `_all`, then once per recipient in text order |
| `MailStoreModel.MailStore.Reopen` | src/mail/filesystem.rs:40-48 | opening runs recovery, which continues the run |
| `MailStoreModel.Restart` | src/mail/filesystem.rs:40-48 | from any state a process stopped in, a new process opens the store, continues the run and recovers it |
| `MailStoreModel.MailStore.EnsureMailboxDir` | src/mail/filesystem.rs:67-84 | touches only the address sidecar, which in every state is absent or holds the address, so that the same mailboxes stay usable; succeeds exactly if the mailbox has a name and no foreign sidecar and no call fails |
| `MailStoreModel.MailStore.PrepareCopy` | src/mail/filesystem.rs:100-132 | one tagged, accepted copy of the message and exactly the files that hold it, exactly if mailbox and id are usable and no call fails; publishes nothing |
| `MailStoreModel.MailStore.PrepareMessage` | src/mail/filesystem.rs:239-262 | copies for `_all` and each distinct recipient in order, exactly if there is a recipient, all mailboxes and the id are usable and no call fails; reports all but `_all` |
| `MailStoreModel.MailStore.CaptureBatch` | src/mail/filesystem.rs:225-270 | too large exactly above the limit and then no effect at all; otherwise, until the batch is committed, the store recovers to the mail before the call apart from address sidecars, and from then on to exactly that with the copies of all targets, each accepted, and the records; Ok implies committed; when no call fails it is Ok exactly if all copies can be prepared and the journal admits their files, and prepared copies that are not admitted are an invalid request |
| `MailStoreModel.MailStore.StoreMessage` | src/mail/filesystem.rs:276-291 | the same for one copy: until the marker exists the mail is as it was, from then on exactly this accepted copy is added, whatever the call returns; Ok implies added, and when no call fails it is Ok exactly if the copy can be prepared and admitted |
| `MailStoreModel.MailStore.DeleteMessage` | src/mail/filesystem.rs:347-364 | removes the document, then its sidecar, and succeeds exactly for a named mailbox and a valid id when no call fails; even when it fails no other file changes; an invalid request has no effect |
| `MailStoreModel.MailStore.UpdateDeliveryStatus` | src/mail/filesystem.rs:379-394 | in every state the document is as it was or differs in its status only, and no other file changes; on failure it is as it was; succeeds exactly if the document exists, the request is valid and no call fails |
| `MailStoreModel.MailStore.WriteAtomic` | src/mail/filesystem.rs:467-480 | in every state the file is as it was, absent or with its old bytes, or holds exactly the new bytes; the new bytes exactly if no call fails |
| `MailStoreModel.FiledReports` | src/mail/filesystem.rs:253-262 | the reported copies are those of every target but `_all`, in order |
| `MailFiles.ShownIsTail` | src/mail/filesystem.rs:253-262 | with nobody keyed `_all`, those are exactly the distinct recipients |
| `MailReader.Reader.CommittedSnapshot` | src/capture.rs:107-122 | contains every id committed when it starts and none not committed when it ends |
| `MailReader.Reader.ListMessages` | src/mail/filesystem.rs:134-174 | under any interleaving: earlier messages first and those of one instant by id as text, no file twice, only tagged-committed messages read in this directory, and every document there throughout |
| `MailReader.Reader.GetMessage` | src/mail/filesystem.rs:293-304 | what it finds is committed and was read at its path; not found only if at some instant recovery would not have kept it |
| `MailReader.Reader.LoadRecord` | src/capture.rs:75-95 | record and marker read at two instants: what it finds was read and is committed, absent only if at some instant recovery would not have kept it, and a record that existed at the start is returned unchanged |
| `MailReader.Reader.ListMailbox` | src/mail/filesystem.rs:339-345 | one committed set, then one directory, in order of time |
| `MailReader.Reader.ListMailboxes` | src/mail/filesystem.rs:396-437 | every mailbox but `_all` and the hidden directories is listed under the same committed set; each entry gives the number of messages and the latest time among them; empty mailboxes are not shown |
| `MailReader.UntaggedShown` | src/mail/filesystem.rs:158-169 | documents without a transaction are listed like committed ones, and of the others only those in the committed set |
| `MailReader.SnapshotIsolation` | src/mail/filesystem.rs:134-169 | a listing that overlaps any writer shows none of a published batch, or every copy in the directory that is there while it runs, decided by one committed set; deletes of other messages do not matter |
| `MailReader.CopyStays` | src/mail/filesystem.rs:134-169 | a committed copy stays readable under its transaction as long as no step deletes it |
| `MailReader.AllOrNone` | src/capture.rs:107-122 | with no concurrent delete of the batch's own copies, a listing shows all of them in its directory or none |
| `MailReader.AbortedNeverShown` | src/capture.rs:107-122 | a batch not committed when the listing starts reading is never shown |
| `FanOut.FallbackStore.RollBack` | src/mail/mod.rs:204-216 | goes on past failures; it is clean exactly if no delete was refused, and then no target remains |
| `FanOut.FallbackStore.FanOutWithId` | src/mail/mod.rs:234-316 | every copy of the message, or every mailbox as before unless a delete was refused; each error has its cause: no recipients, a taken key, a failed store call, a refused delete |
| `FanOut.FallbackStore.FanOutBatch` | src/mail/mod.rs:175-228 | the same for a whole batch; when no call fails, an admitted batch is filed exactly if every message has a recipient and its own id and no key is taken; existing messages are never lost even when a rollback fails |
| `FanOut.CapturedAreTargets` | src/mail/mod.rs:192-200 | undoing by recipient list covers exactly the copies that were stored |
| `FanOut.OneOfBatch` | src/mail/mod.rs:179-239 | the second admission check inside a batch never refuses what the first admitted |
| `FanOutRefines.TargetsDistinct` | src/mail/filesystem.rs:239-252 | a batch addresses no copy twice exactly when its ids differ and nobody is keyed `_all` |
| `FanOutRefines.BatchPathsExactly` | src/capture.rs:176-190 | the files of a batch have distinct paths exactly when moreover its record keys differ |
| `FanOutRefines.AdmissibleExactly` | src/capture.rs:176-190 | the journal admits a batch exactly when moreover no id holds a slash and no destination is taken |
| `FanOutRefines.CaptureSucceedsExactly` | src/mail/filesystem.rs:225-270 | when no call fails, a capture within its budget succeeds exactly when moreover every message has a recipient and a usable id, and every mailbox a name and no foreign sidecar |
| `FanOutRefines.CapturableIsFileable` | src/mail/mod.rs:175-228 | what a capture files when no call fails, the fallback files from the same mail when no call fails |
| `FanOutRefines.PublishedIsSeparate` | src/capture.rs:184-188 | only batches with differing ids, nobody keyed `_all` and differing record keys are ever published |
| `FanOutRefines.FallbackMatchesAtomic` | src/capture.rs:213-233 | around the marker: publishing a batch and fanning it out over a store with the same mail leave the same mail |
| `FanOutRefines.CaptureMatchesFanOut` | src/mail/mod.rs:175-316 | from the same mail before the calls, a batch capture that publishes and a fan-out that succeeds leave the same mail after them, and a capture that does not publish leaves the mail as it was |
| `FanOutRefines.FailedCaptureKeepsMail` | src/capture.rs:234-242 | in every state before the marker the mail is the one before the call |
| `FanOutRefines.FallbackFilesAllOnce` | src/mail/mod.rs:247-262 | with a recipient keyed `_all` the fallback files one copy for two targets |
| `Paging.PageIsStretch` | src/mail/filesystem.rs:176-195 | a page is the next stretch of the mailbox and its marker resumes right after it |
| `Paging.UnlimitedPage` | src/mail/filesystem.rs:176-195 | without a limit a page is everything after its marker, and everything for an unknown marker, with nothing left to fetch |
| `Paging.Search` | src/api/admin_mail.rs:121-162 | returns the first `limit` matches after its marker and a marker whenever more remain |
| `Paging.SearchResumes` | src/api/admin_mail.rs:143-149 | resuming at the last returned item continues with the next match |
| `Paging.FollowSearch` | src/api/admin_mail.rs:121-162 | following markers ends, and the pages together are exactly the filtered mailbox |
| `Paging.FollowPages` | src/mail/filesystem.rs:176-195 | following storage markers ends, and the pages together are the mailbox |
| `Paging.ListingHasDistinctIds` | src/mail/filesystem.rs:134-169 | every listing of a mailbox can be paged |
| `LifecycleRules.FilterMatches` | src/models/lifecycle.rs:76-94 | true exactly when the key starts with the prefix and every tag is present with its value |
| `LifecycleRules.DueByDaysMeans` | src/lifecycle.rs:205-218 | a positive number of days is due once it has fully passed; zero days also covers objects dated less than a day ahead |
| `LifecycleRules.DueExactly` | src/lifecycle.rs:205-266 | expirations and transitions are due exactly from the instant their days have passed or their date begins |
| `LifecycleRules.DueOnlyGrows` | src/lifecycle.rs:205-234 | what is due stays due |
| `LifecycleRules.ProtectionOnlyLapses` | src/lifecycle.rs:67-115 | time alone never protects an object |
| `LifecycleRules.ProtectedExactly` | src/lifecycle.rs:67-115 | the five settings that protect an object, each by name and value |
| `LifecycleRules.ProtectedUntilDeadline` | src/lifecycle.rs:67-115 | protection is one deadline fixed by the object: holds, leases and unreadable ends last for ever, otherwise it ends with the later retention |
| `LifecycleRules.DurationOff` | src/lifecycle.rs:38-42 | a bucket duration is off exactly when absent or written as zero |
| `LifecycleRules.PassMayRun` | src/lifecycle.rs:44-58 | the rules of a bucket run exactly if its three durations are absent or written as zero and its foreign versioning is absent or false |
| `LifecycleSpec.PassKeepsPromise` | src/lifecycle.rs:356-477 | on a listed bucket an object is gone exactly when some matching rule is due and it is unprotected; survivors get the class of the last rule that moves them |
| `LifecycleSpec.PassIsIdempotent` | src/lifecycle.rs:356-477 | a second pass at the same instant changes nothing on a listed bucket |
| `LifecycleSpec.IdempotentExactly` | src/storage/filesystem.rs:1361-1378 | passes are idempotent for every configuration exactly for sizes up to 1000 |
| `LifecycleSpec.EagerThenPass` | src/lifecycle.rs:123-193 | on a listed bucket, eager checks of any keys in any order, then a pass, end where the pass alone ends |
| `LifecycleSpec.EagerAgreesExactly` | src/storage/filesystem.rs:1361-1378 | eager and batch expiry agree for every configuration exactly for sizes up to 1000 |
| `LifecycleSpec.EagerReachesFurther` | src/lifecycle.rs:395-400 | beyond that, one eager removal lets the pass reach one object further |
| `LifecycleSpec.RuleExactly` | src/lifecycle.rs:389-434 | one rule keeps its promise exactly when it leaves every unlisted object alone |
| `LifecycleSpec.LargeBucketKeepsExpired` | src/lifecycle.rs:395-400 | beyond 1000 objects an expire-all rule leaves the rest, and the next pass goes on |
| `LifecycleSpec.PromiseExactly` | src/storage/filesystem.rs:1361-1378 | the promise holds for every configuration exactly for sizes up to 1000 |
| `Lifecycle.DeletedItems` | src/storage/filesystem.rs:398-463 | which versions a delete keeps, removes and adds, by versioning state |
| `Lifecycle.DeletedHides` | src/storage/filesystem.rs:398-463 | with versions, a delete leaves no current version of the key and adds exactly one delete marker of that instant |
| `Lifecycle.DeletedSparesExactly` | src/storage/filesystem.rs:398-463 | deleting an unprotected object spares everything protected exactly unless a suspended bucket holds a protected null version of the key |
| `Lifecycle.Store.DeleteVersion` | src/storage/filesystem.rs:2168-2246 | needs an existing version, removes it and no other; a key left without a current version gets its latest other one unless that is a delete marker; the index stays in key order |
| `Lifecycle.OlderExactly` | src/storage/filesystem.rs:2199-2203 | versions are compared by time, then by id as text |
| `LifecycleSteps.CarefulTransitive` | src/lifecycle.rs:356-387 | sparing protected versions that no delete would replace carries over any number of effects |
| `LifecycleSteps.CarefulSpares` | src/lifecycle.rs:67-115 | in a bucket that is not suspended, careful effects keep every protected version |
| `LifecycleSteps.SteppedFacts` | src/lifecycle.rs:402-428 | one object under one rule, whatever fails: such versions are spared and other objects untouched; if nothing fails the index is what the rule says |
| `LifecycleSteps.RuleSparesExactly` | src/lifecycle.rs:389-434 | a rule loses a protected version exactly when it is the null version of a suspended bucket and its key's listed current version expires, unless a call for that key was refused; refused calls never lose more |
| `LifecycleSteps.SuspendedDeleteLosesHold` | src/storage/filesystem.rs:403-450 | a concrete suspended bucket in which a legal hold is lost |
| `LifecyclePasses.LifecycleExecutor.ApplyTransition` | src/lifecycle.rs:436-477 | the transition that is due with none due before it in the list sets the class of that object only, unless the update was refused; without a due transition nothing happens |
| `LifecyclePasses.LifecycleExecutor.ApplyCurrentRule` | src/lifecycle.rs:389-434 | whatever fails: an unversioned bucket loses nothing but listed objects that expire, a versioned one nothing, a suspended one nothing but null versions of expired keys, and nothing is added but their markers; keys without a refused call lose exactly that; if no call fails the index becomes what `RulePass` says |
| `LifecyclePasses.LifecycleExecutor.FilteredVersions` | src/lifecycle.rs:514-534 | groups selected versions only, by key, and all of them apart from keys whose tags were not read |
| `LifecyclePasses.LifecycleExecutor.ExpireNoncurrent` | src/lifecycle.rs:536-582 | removes exactly the due, unprotected versions other than the one seen as current, apart from some whose delete was refused |
| `LifecyclePasses.LifecycleExecutor.ApplyNoncurrentRule` | src/lifecycle.rs:479-512 | which versions go is decided exactly by the selected versions, the keys whose lookup was refused and the versions whose delete was refused; if no call fails, exactly the due, unprotected noncurrent versions go; unversioned buckets are untouched |
| `LifecycleSweep.CurrentGoneExactly` | src/lifecycle.rs:536-588 | a current version is gone exactly when its own lookup failed, it was selected, due and unprotected, and its delete succeeded; no other failure matters |
| `LifecycleSweep.CleanSweepIsPass` | src/lifecycle.rs:479-512 | if all reads and deletes succeed, exactly the due, unprotected noncurrent versions of selected keys go |
| `LifecycleSweep.FailedLookupLosesCurrent` | src/lifecycle.rs:584-588 | a concrete bucket whose only, current version is lost because its lookup failed |
| `LifecyclePasses.LifecycleExecutor.ApplyRules` | src/lifecycle.rs:356-387 | a foreign-protected bucket is unchanged; every protected version that no delete would replace survives all rules, whatever fails; if no call fails it succeeds and the bucket ends as rule after rule says, in every versioning state |
| `LifecyclePasses.LifecycleExecutor.ExecuteRules` | src/lifecycle.rs:326-354 | the same for every bucket of the store in one pass; if no call fails it succeeds, and an unversioned bucket ends as `Pass` says |
| `LifecyclePasses.LifecycleExecutor.CheckExpiration` | src/lifecycle.rs:123-193 | whatever fails, it deletes only an object that expires by the same predicate as the pass, with exactly the effect of one delete, and otherwise changes nothing; if no call fails it deletes exactly then, and reports an error exactly for a missing object of a bucket whose rules run |
| `LifecycleOutcome.OffOutcome` | src/lifecycle.rs:356-387 | rule after rule over an unversioned bucket is `Pass`, so everything proved of `Pass` holds of the executor |
| `LifecycleOutcome.PassSparesExactly` | src/lifecycle.rs:356-512 | over a whole pass without a failed call, with at most 1000 keys: a protected version of a key with a current version is lost exactly when it is the null version in the history of a suspended bucket and that current version expires under some rule |
| `LifecyclePasses.EagerIsReplace` | src/lifecycle.rs:123-193 | the eager deletion is the step `EagerThenPass` reasons about |
| `Metrics.UsageMetrics.Record` | src/metrics.rs:138-184 | the table is always the one the whole request log determines |
| `Metrics.TableShows` | src/metrics.rs:138-184 | every series shows the saturated sums of exactly the requests counted under it, and no request is lost |
| `MetricsSeries.SeriesExactly` | src/metrics.rs:150-156 | from the log alone, however long: the first 20,000 distinct labels have a series of their own, every other request belongs to the overflow series of its provider and operation, and each series shows exactly its requests |
| `MetricsSeries.OwnSeries` | src/metrics.rs:152-156 | up to 20,000 distinct labels the series are exactly those labels, and each shows exactly the requests with them |
| `MetricsSeries.FoldedOnlyWhenFull` | src/metrics.rs:152-156 | a request changes the series of its own labels, unless that is missing from a table of at least 20,000 |
| `Metrics.TableIsBounded` | src/metrics.rs:150-156 | at most 20,000 series plus one per provider and operation seen |
| `Metrics.SeriesInvariants` | src/metrics.rs:157-184 | size sum equals request bytes, list requests at most requests, buckets add up to requests, saturation included |
| `Metrics.SeriesCoverLog` | src/metrics.rs:150-156 | overflow folding loses nothing: the series of a provider and operation hold exactly its requests |
| `Metrics.RunningIsAtMost` | src/metrics.rs:279-286 | saturating running totals of saturated buckets equal the saturated cumulative counts |
| `Metrics.UsageMetrics.CollectCounts` | src/metrics.rs:215-270 | bucket counts per provider and operation over the series above the threshold |
| `Metrics.UsageMetrics.SizeHistograms` | src/metrics.rs:272-322 | at threshold 0 the export equals the histogram computed from the log, for exactly the pairs seen |
| `Metrics.HistogramIsCumulative` | src/metrics.rs:279-310 | buckets never decrease; the last one and the count are the saturated number of requests |
| `Text.Utf8Segments` | src/auth/presigned.rs:365-371 | cutting text at an ASCII character leaves well-formed text |
| `Text.FirstLengthExactly` | src/auth/presigned.rs:365-371 | a text starts with a character of n bytes exactly if they are the shortest form of a code point that is no surrogate |
| `Text.I64Digits` | src/auth/presigned.rs:164-168 | every 64-bit number is read from its digits, with a sign or without |
| `Text.I64Range` | src/auth/presigned.rs:164-168 | nothing outside 64 bits is read as a number |
| `Canonical.EncodeRoundTrip` | src/auth/presigned.rs:421-433 | percent-encoding is undone by decoding |
| `Canonical.EncodedByte` | src/auth/presigned.rs:421-433 | letters, digits and four marks stand for themselves, every other byte becomes a percent sign and two upper-case digits |
| `Canonical.EncodeConcat` | src/auth/presigned.rs:421-433 | texts are encoded byte by byte |
| `Canonical.DecodeEscape` | src/auth/presigned.rs:366-369 | a percent sign and two hexadecimal digits in either case stand for one byte |
| `Canonical.DecodeOther` | src/auth/presigned.rs:366-369 | everything else stands for itself |
| `Canonical.EncodeInjective` | src/auth/presigned.rs:421-433 | different texts have different encodings |
| `Canonical.CanonicalIsIdempotent` | src/auth/presigned.rs:363-373 | the canonical path of a canonical path is itself |
| `Canonical.PathUnambiguous` | src/auth/presigned.rs:363-373 | same canonical path exactly when same decoded segments |
| `Canonical.CanonicalQuery` | src/auth/presigned.rs:375-387 | lists every parameter but the signature once, encoded and sorted |
| `Canonical.QueryUnambiguous` | src/auth/presigned.rs:375-387 | same canonical query exactly when same parameters apart from the signature |
| `Canonical.NormalizeUnambiguous` | src/auth/presigned.rs:359-361 | same normalised value exactly when same words |
| `Canonical.WordsExactly` | src/auth/presigned.rs:359-361 | the words of a value: a text without blanks is one word, and each of the six blanks separates |
| `Canonical.NormalizeIsIdempotent` | src/auth/presigned.rs:359-361 | a normalised value is left as it is |
| `Canonical.ValidNamesSorted` | src/auth/sigv4.rs:27-38 | the neighbour test means sorted without repetition |
| `Canonical.TokenExactly` | src/auth/sigv4.rs:27-38 | header name characters are visible ASCII without the delimiters of RFC 9110 |
| `Canonical.TextIsLines` | src/auth/presigned.rs:317-319 | the canonical request line by line |
| `Canonical.CanonicalUnambiguous` | src/auth/presigned.rs:277-319 | two checked requests share a canonical text exactly when they agree on method, decoded path, parameters, signed names and signed values up to white space |
| `Presign.ScopeRoundTrip` | src/auth/presigned.rs:345-357 | a credential of five non-empty parts is read back |
| `Presign.ScopeExactly` | src/auth/presigned.rs:345-357 | a credential is read exactly if it is five non-empty parts between slashes |
| `Presign.SignatureCovers` | src/auth/presigned.rs:320-327 | the signing key is derived from secret, day, region, service and terminator in this order, and what is signed is the algorithm, date, scope and digest, a line each |
| `Presign.PairExactly` | src/server/http.rs:345-352 | a query part is cut at its first equals sign, and what does not decode to text is dropped |
| `Presign.ReadsExactly` | src/auth/presigned.rs:151-195 | a presign is read exactly from parameters that state it, the signature and lifetime also under their older names, with the date in its one spelling |
| `Presign.ParseQuery` | src/server/http.rs:335-355 | splits and percent-decodes every non-empty part in order |
| `Presign.LastPartWins` | src/server/http.rs:335-355 | a parameter is there exactly if some part carries it, with the value of the last part that does |
| `Presign.CheckHeaders` | src/auth/presigned.rs:279-313 | accepts exactly the well-formed, complete and conflict-free header lists and builds their block |
| `Presign.InForceExactly` | src/auth/presigned.rs:243-270 | the named algorithm, one second to seven days, at most fifteen minutes ahead, not expired, and this key's credential for its day |
| `Presign.NamesExactly` | src/auth/presigned.rs:280-292 | signed names are lower-case tokens in strict text order that include the host and every x-amz- header |
| `Presign.LowerTokenExactly` | src/auth/sigv4.rs:27-38 | a lower-case token is not empty and holds no capital and no delimiter |
| `Presign.ConflictExactly` | src/auth/presigned.rs:293-304 | a parameter conflicts exactly if its lower-case name is a signed header with another value |
| `Presign.Validate` | src/auth/presigned.rs:236-334 | accepts exactly a presign in force, with good headers and the signature of the canonical request; reports clock skew exactly when the date is over 15 minutes ahead, and an invalid request exactly when all before it holds and a parameter contradicts a signed header |
| `Presign.ConstantTimeCompare` | src/auth/sigv4.rs:209-220 | true exactly for equal byte strings |
| `PresignIssue.FiveAreListed` | src/auth/presigned.rs:101-118 | the query signed when issuing is the one validation derives from what the URL carries |
| `PresignIssue.IssuedParameters` | src/auth/presigned.rs:95-118 | what an issued URL says, parameter by parameter |
| `PresignIssue.GenerateUrl` | src/auth/presigned.rs:82-144 | the query is read back as the issued parameters with their signature; the path is text and names the signed segments exactly if the bucket is plain |
| `PresignIssue.UrlPathExactly` | src/auth/presigned.rs:137-143 | trimming leading slashes keeps the segments exactly for a bucket that is not empty and does not start with a slash |
| `PresignIssue.UrlNamesExactly` | src/auth/presigned.rs:363-373 | the URL names exactly this bucket and key if and only if moreover no segment holds an escape that decodes to text |
| `PresignIssue.IssuedReads` | src/auth/presigned.rs:151-195 | an issued presign is read back with its date, lifetime, credential and signature |
| `PresignIssue.PresignRoundTrip` | src/auth/presigned.rs:82-334 | for every bucket, key, lifetime and slash-free access key: a request for the signed segments whose host is the issued one is accepted exactly if it has that header, carries no x-amz- header, and comes from 15 minutes before the date until the lifetime ends |

## Left out

- HTTP, SMTP, MCP and UI plumbing, configuration, and response shaping: routing and formatting with no property that spans calls.
- Other authentication schemes, and the header-based `SignatureVerifier`: they reuse the same canonical helpers over third-party token code.
- fsync ordering and power loss, several processes on one store: outside the crash model the journal states for itself.
- Legacy mailbox directories that are not hashed, `delete_mailbox` and case-insensitive lookup.
- The text message store, provider adapters and delivery simulation; only text message admission is modelled.
- The `strip_prefix` error of `commit`: destinations are paths below the store root from the start.
- The UUID syntax test in `is_committed`: every id the store creates passes it.
- Text lengths are counted in characters of the model, one per byte.
- Non-ASCII white space in header values, and header names longer than the HTTP library's limit.
- Cutting scheme and trailing slashes off the base URL when a presigned URL is assembled; the model starts from the host.
- Label cleaning and Prometheus text rendering of the counters, and the threshold filter of `snapshot`.
- LifecycleOutcome.PassSparesExactly: covers keys that have a current version; a key hidden by a delete marker can get one back when a noncurrent rule removes the marker, and its null version is then not followed through the later rules. Versions that are not exposed are covered for all keys by `Careful`.
- MailReader.Reader.ListMailboxes: mailboxes are identified by their directory; reading the address back from the sidecar and sorting by address are not modelled.
- Presign.Validate: the message texts that tell signature mismatches apart are not modelled; the three kinds of rejection are.
