# cpa-monitor, verified

A Dafny model of the stateful parts of cpa-monitor, a monitor for a CLIProxyAPI server: the rotating log, the alert
life cycle with its state file, the report schedule, the shared statfs calls and the monitoring cycle that ties them
together; with the codecs and the version order they use.

Imperative code of the repository is imperative here: classes whose methods update fields (`Writer`, `Directory`, `File`,
`Manager`, `Router`, `Runner`, `Table`) and loops that range over maps in any order. Each such method is proved against a
function of its inputs and of the old state, and the laws are lemmas about those functions. What the program asks of its
environment (the clock, a transport's answer, a file operation, the outcome of a save, the context) is a parameter or an
arbitrary choice at the moment of the call.

| files | what they model |
|---|---|
| `LogModel`, `LogWriter` | `internal/logfile/writer.go`: the files as a function of the byte stream; the writer over a directory whose every operation can fail |
| `State`, `SaveProtocol` | `internal/state/file.go`: records and schedule in memory and in the file; concurrent mutators and savers |
| `AlertModel`, `AlertMessages`, `AlertLaws`, `AlertRuns`, `AlertService`, `Alerter` | `internal/alerter/manager.go`: one reconciliation, what its messages tell, whole runs, runs with restarts and a second writer, the manager itself |
| `Notification` | `internal/notification/types.go` and `router.go` |
| `RuleTypes`, `Rule`, `AuthRule`, `Recovery` | `internal/rule`: from facts to keyed conditions; no false recovery end to end |
| `Disk`, `MountInfo`, `SingleFlight`, `Collector` | `internal/collector/disk.go`, `mountinfo.go`, `proc.go`: the plain collector, the shared statfs calls as a protocol, and the collector that goes through them |
| `HealthReport` | the schedule of `internal/healthreport/manager.go` |
| `Monitor` | `RunOnce` of `internal/monitor/runner.go`, cycle after cycle as in `loop.go` |
| `Version`, `Precedence`, `VersionLaws`, `VersionStrings` | `internal/cliproxy/version.go` and Semantic Versioning 2.0.0, items 9 to 11 |
| `Details`, `Decimal`, `Text` | the `key=value` details text; numerals; strings, sorting and ranging over maps |

Conventions. Strings are sequences of Unicode scalar values, ordered by code point, which is the order of their UTF-8
bytes. Times are integers and 0 is the zero time. Percentages are reals. Byte counts of file systems are 64-bit words with
their overflow checks; other integers do not overflow. A record without details equals one with an empty map, as the state
file does not tell them apart.

Where the code departs from what one would expect, the code is modelled, the departure has a lemma, and the exact
condition is proved:

- A mount point that contains white space the kernel does not escape (a carriage return, a non-breaking space) is cut
  there: `MountInfo.KernelLineRead`, `TrailingSpaceCut`, `CarriageReturnLost`.
- Version strings that differ only in letter case tie although precedence orders their pre-releases; numbers past 64 bits
  are compared as texts; numbers with leading zeros break the symmetry: `VersionStrings.ComparedExactly`,
  `CaseIgnored`, `HugeExample`, `SwappedExactly`.
- A reconciliation that activates a key already active in another scope would break the alternation of alerts and
  removals: `AlertRuns.CallAlternates`, `KeyTakenOver`. The rules never do that (`Recovery.RulesAlternate`).
- An attempted report is followed too soon by another exactly when it was made at the zero time or the store refused it,
  which the clock shows beforehand: `HealthReport.AttemptSpaced`, `KeptExactly`; any such attempt breaks the spacing of
  its run: `UnkeptBreaks`, `ZeroClockForgotten`.
- A statfs call that outlives its requests may finish later; its old result is what the next request for the mount point
  gets: `SingleFlight.OldResultServed`, `OlderExactly`, `Collector.FreshExactly`. So a disk's record may be removed on the
  figures of an earlier cycle, but only if its mount point had a call in the table when the cycle began, which takes a
  request that timed out or was cancelled: `Recovery.NoFalseDiskRecovery`, `SingleFlight.ServedLeaveNothing`.
- A batch built at the zero time is refused by every transport, and so is the recovery of a record with a blank key, such
  as " ", which the state file may hold: `AlertLaws.AlertBatchValid`, `RecoveryBatchValid`, `AlertService.SentValid`.

## Model

| member | source | states |
|---|---|---|
| `LogModel.EvictIsMinimal` | internal/logfile/writer.go:193-232 | eviction takes oldest first and no more than needed: an evicted backup would exceed the total together with everything newer, and everything older than it is gone too |
| `LogModel.EvictFits` | internal/logfile/writer.go:193-232 | after eviction active file and backups fit under the total limit |
| `LogModel.EvictGrow` | internal/logfile/writer.go:193-232 | an eviction done early, before the active file grows, does not change the later eviction's result |
| `LogModel.EvictRotate` | internal/logfile/writer.go:138-169 | nor does an eviction done before a rotation |
| `LogModel.WriteSplit` | internal/logfile/writer.go:63-102 | writing a and then b leaves the files of writing a + b, from any state |
| `LogModel.ChunkIsBytes` | internal/logfile/writer.go:77-99 | a chunk appended at once and evicted once is the same as its bytes written one by one |
| `LogModel.ChunkRefines` | internal/logfile/writer.go:77-99 | the loop's step, on files that still owe a rotation or evictions, reaches the files of the byte-by-byte reference |
| `LogModel.RotatedSuffix` | internal/logfile/writer.go:138-169 | a rotation keeps a suffix of what the files held |
| `LogModel.ShiftedSuffix` | internal/logfile/writer.go:138-169 | so does a rotation that stops after any of its renames |
| `LogModel.WriteBytesIsLayout` | internal/logfile/writer.go:63-102 | from an empty directory the files are the stream cut into pieces of the size limit, the newest that fit under both limits, as a closed form |
| `LogWriter.Writer.NewWriter` | internal/logfile/writer.go:36-61 | exactly blank paths and inconsistent limits are refused without touching a file; otherwise it fails exactly if an operation of the directory did, and else every managed file is cut to its limit, strays are gone, the total is met |
| `LogWriter.Writer.Write` | internal/logfile/writer.go:63-102 | keeps, through any failed close, remove, rename, open or partial write: files bounded, retained content a suffix of the stream, and in step with the byte-by-byte reference; it fails exactly if an operation of the directory did, a write took nothing or the writer is closed; otherwise everything is written, the files are exactly the reference's and meet all limits; the "exceeds total" error is never returned |
| `LogWriter.Writer.Rotate` | internal/logfile/writer.go:138-169 | a successful rotation shifts every backup by one, drops the last and evicts; a failed one leaves a suffix, and files untouched if the writer is still open |
| `LogWriter.Writer.EnforceTotal` | internal/logfile/writer.go:193-232 | without error exactly the declarative eviction; with a failed remove only condemned backups are gone, oldest first |
| `LogWriter.Writer.CleanupExisting` | internal/logfile/writer.go:171-191 | strays removed, files trimmed to the limit, total met, foreign files untouched |
| `LogWriter.HeadExactly` | internal/logfile/writer.go:269-284 | a trimmed file is the longest prefix of what it was that fits |
| `LogWriter.Writer.Close` | internal/logfile/writer.go:104-117 | closes once, and fails only if closing the file does; a second close succeeds and no write is accepted afterwards |
| `LogWriter.Writer.SettledLayout` | internal/logfile/writer.go:63-102 | after a successful write to a directory empty at startup the files are the closed form of everything ever accepted, whatever failed in between |
| `State.LoadExact` | internal/state/file.go:98-106 | a document loads exactly when its records are valid and its keys distinct, and then every record is under its own key |
| `State.RestoreSaved` | internal/state/file.go:58-114 | what Save writes for a valid store reopens as that store, records and schedule |
| `State.OpensExactly` | internal/state/file.go:95-113 | a document opens exactly in version 1 or 2, with valid records under distinct keys and a consistent schedule, and then holds those records and that schedule |
| `State.RefusedExactly` | internal/state/file.go:95-113 | one that does not open is refused for its version, else for its first bad or repeated record, else for its schedule |
| `State.SavedExactly` | internal/state/file.go:186-213 | what is written is version 2, every record once, in ascending key order, and a schedule unless it is the zero one |
| `State.File.Open` | internal/state/file.go:58-114 | refines the restoring function; a store is returned in every case, empty when there is an error |
| `State.File.ByScope` | internal/state/file.go:137-148 | the records of one scope in key order, whatever order the map is ranged over |
| `State.File.Put` | internal/state/file.go:150-158 | stores a valid record under its key, refuses others and changes nothing else, as the mutation of the save protocol says |
| `State.File.Delete` | internal/state/file.go:160-168 | removes exactly the key, as that mutation says, and tells whether it was there |
| `State.File.SetHealthReport` | internal/state/file.go:176-184 | accepts exactly consistent schedules, as that mutation says |
| `State.File.Save` | internal/state/file.go:186-213 | the file is written once and the answer is that of the write; then it holds the whole store in key order, or after a failure possibly the old document |
| `SaveProtocol.FileNeverGoesBack` | internal/state/file.go:150-213 | in every interleaving of mutators and savers, over a file that opens or not, what a start would find in it is a prefix of the mutations that never shrinks; the file opens from the first replacement on, and before exactly if it did at the start |
| `SaveProtocol.SavedIsDurable` | internal/state/file.go:186-213 | a Save that returned without error leaves in the file every mutation finished before its call, then and ever after, also when it replaced a file that did not open |
| `SaveProtocol.OneSaverInside` | internal/state/file.go:186-188 | at most one call of Save is between lock and unlock |
| `SaveProtocol.ReplaceKeeps` | internal/state/file.go:200-212 | replacing the file keeps the protocol's invariant: a start finds exactly the snapshot's mutations |
| `AlertModel.GroupsConcatenate` | internal/alerter/manager.go:171-197 | the delivery groups concatenate back to the sorted items, one item each for accounts, one group otherwise |
| `AlertModel.HeaderSafePrintable` | internal/alerter/manager.go:288-307 | object names contain no control characters |
| `AlertModel.SafeCharExactly` | internal/alerter/manager.go:288-307 | carriage return, newline and tab become their usual escapes, any other control character the four hexadecimal digits of its code |
| `AlertModel.ObjectNameExactly` | internal/alerter/manager.go:280-286 | the name is the summary, or the key when the summary is blank, unchanged if it is printable |
| `AlertMessages.MessagesTell` | internal/alerter/manager.go:108-156 | the messages of a reconciliation are one per group, in order, first of the new conditions, then, if announced, of the recovered records; event i tells item i: its key, figures (or "recovered" and the stored threshold), name and, where it can be read back, its details, from this host about this service |
| `AlertMessages.AlertEventTells` | internal/alerter/manager.go:250-263 | an alert shows the condition's current value as current and its threshold as threshold, and its details text reads back to its details whenever those can be read back |
| `AlertMessages.RecoveryEventTells` | internal/alerter/manager.go:265-278 | a recovery shows "recovered" and the threshold and details that were stored |
| `AlertMessages.StoredAsTold` | internal/alerter/manager.go:119-129 | a new condition is stored exactly if the message of its group was delivered: all it tells, with the time of that message |
| `AlertLaws.DeliveredOutcome` | internal/alerter/manager.go:81-156 | when everything is delivered a complete batch leaves exactly its keys active in the scope, an incomplete one the union |
| `AlertLaws.ReconciledNew` | internal/alerter/manager.go:108-130 | whatever is delivered: a new condition is stored, with the time of its message, exactly if its group was delivered, and else nothing changes under its key |
| `AlertLaws.ReconciledGone` | internal/alerter/manager.go:132-156 | a recovered record is removed exactly if its group was delivered, and else stays as it was |
| `AlertLaws.Confined` | internal/alerter/manager.go:81-156 | records of other scopes are neither added nor changed, active ones stay the records they were |
| `AlertLaws.RemovedOnlyIfGone` | internal/alerter/manager.go:96-104 | a key disappears only when a complete batch of its scope no longer reports it |
| `AlertLaws.ChangedIffDelivered` | internal/alerter/manager.go:108-160 | the records change exactly when some group was delivered |
| `AlertLaws.RepeatIsSilent` | internal/alerter/manager.go:87-104 | repeating a delivered batch sends nothing and changes nothing |
| `AlertLaws.OrderIrrelevant` | internal/alerter/manager.go:76-105 | the order of a batch's conditions changes neither the messages nor the store |
| `AlertLaws.ReconciledValid` | internal/alerter/manager.go:119-129 | the store stays valid, each record under its own key |
| `AlertLaws.AlertBatchValid` | internal/alerter/manager.go:109-119 | every alert batch handed to the sender passes ValidateBatch, for every clock reading but the zero time |
| `AlertLaws.RecoveryBatchValid` | internal/alerter/manager.go:132-144 | a recovery batch passes ValidateBatch exactly when its time is not the zero time and none of its keys is blank |
| `AlertLaws.AttemptsValid` | internal/alerter/manager.go:108-156 | from a store without blank keys every message of a reconciliation passes ValidateBatch exactly when its time is not the zero time |
| `AlertRuns.CallAlternates` | internal/alerter/manager.go:87-156 | one reconciliation keeps alerts and removals alternating exactly when no delivered alert takes over a key active in another scope |
| `AlertRuns.KeyTakenOver` | internal/alerter/manager.go:87-130 | for instance whenever a delivered condition of another scope has the key of an active record |
| `AlertRuns.TraceAlternates` | internal/alerter/manager.go:87-156 | in a history that traces, between two deliveries of a key lies a removal and between two removals a delivery |
| `AlertRuns.ScopedKept` | internal/alerter/manager.go:87-156 | "a key determines its scope" is kept by every reconciliation of batches that respect it |
| `AlertRuns.RunAlternates` | internal/alerter/manager.go:87-156 | over any run the active keys are those whose last event is a delivery, and the history alternates |
| `AlertService.StepSound` | internal/alerter/manager.go:158-168 | every reconciliation, report and restart, with every outcome of its save and over files that do not open too, keeps "clean means the records are those a start would find"; a restart while clean changes no record, and a file that opens keeps opening |
| `AlertService.SentValid` | internal/alerter/manager.go:62-169 | over any run, restarts while unsaved included, from a store and a file without blank keys, every message sent passes ValidateBatch exactly when its time is not the zero time |
| `AlertService.RestartInvisible` | internal/alerter/manager.go:158-168 | a run that restarts only while clean sends exactly the messages of the same run without the restarts |
| `Alerter.Manager.Validate` | internal/alerter/manager.go:207-240 | refuses exactly the batches that are not valid input, and blames the first thing wrong |
| `Alerter.Manager.Compare` | internal/alerter/manager.go:76-105 | new conditions and recovered records in key order, whatever order the maps are ranged over |
| `Alerter.Manager.SendAlerts` | internal/alerter/manager.go:109-130 | one message per group in order; stored exactly what was accepted, with the time of its message; Put has nothing to reject; one error per group refused, with its keys |
| `Alerter.AlertFailuresExactly` | internal/alerter/manager.go:109-130 | the errors are about exactly the groups refused |
| `Alerter.Manager.SendRecoveries` | internal/alerter/manager.go:132-156 | removes exactly the groups accepted, or all of them when recoveries are not announced; one error per group refused, with its keys |
| `Alerter.RecoveryFailuresExactly` | internal/alerter/manager.go:132-156 | the errors are about exactly the groups refused |
| `Alerter.Manager.Persist` | internal/alerter/manager.go:158-167 | saves once if anything changed or a save is owed, and stays dirty until one succeeds |
| `Alerter.Manager.Reconcile` | internal/alerter/manager.go:62-169 | refuses exactly bad batches and calls after the context has ended, and these touch nothing; any other call is one step of the service, determined by the answers and the outcome of the save; its errors are those of the groups refused and of the save, and it saves once, exactly if something changed or a save is owed |
| `Alerter.NoErrorExactly` | internal/alerter/manager.go:158-169 | no error exactly when all was delivered and nothing is left to save |
| `Notification.ValidateBatch` | internal/notification/types.go:158-197 | accepts exactly batches of a known kind whose events repeat kind, scope, host and time under distinct keys, and blames the first thing wrong |
| `Notification.Router.SendBatch` | internal/notification/router.go:48-76 | primary first; the fallback exactly if the primary refused, there is one and the context is not cancelled; a batch reported delivered was accepted by exactly one transport, any other by none |
| `Details.FormatDetails` | internal/alerter/manager.go:332-346 | one line per field in key order, whatever order the map is ranged over |
| `Details.TextExactly` | internal/alerter/manager.go:332-346 | the text is one line key=value for every field, the keys ascending |
| `Details.ParseEventDetails` | internal/dingtalk/message.go:366-377 | the loop computes the reading function, of which the next two laws speak |
| `Details.ReadExactly` | internal/dingtalk/message.go:366-377 | the fields read are those that some line tells: a key that is not blank before the first = |
| `Details.LastWins` | internal/dingtalk/message.go:366-377 | of several lines for a field the last one gives its value, trimmed |
| `Details.DetailsRoundTrip` | internal/dingtalk/message.go:366-377 | reading the printed text gives the fields back exactly when keys are non-empty, trimmed and free of `=` and newline, and values trimmed and free of newline |
| `Rule.HealthWellFormed` | internal/rule/rule.go:25-42 | the batch of a health check is well formed: keys of its scope, distinct, not blank |
| `Rule.MemoryWellFormed` | internal/rule/rule.go:45-66 | so is the batch of the memory check |
| `Rule.HealthExactly` | internal/rule/rule.go:25-43 | a failed check is one condition, down against healthy, with its error |
| `Rule.MemoryExactly` | internal/rule/rule.go:45-66 | one condition exactly when the usage reaches the threshold; it shows the usage as current, the threshold as threshold, and the byte counts under their names |
| `Rule.FullestExact` | internal/rule/rule.go:81-108 | a mount point has a condition exactly if some report reaches the threshold, and then it is that of its fullest report |
| `Rule.FullestFirst` | internal/rule/rule.go:88-90 | among equal reports the first is kept |
| `Rule.Disks` | internal/rule/rule.go:71-111 | the loop over the two maps gives the batch of those conditions in key order, complete only if the collection was; a mount point is told exactly when some report for it reaches the threshold |
| `Rule.DisksExactly` | internal/rule/rule.go:71-111 | a condition shows a fullest report of its mount point as current against the threshold, with its figures; complete exactly when the collection was and told no errors, whose mount points are named in order |
| `Rule.NoDiskCondition` | internal/rule/rule.go:71-111 | no condition exactly when every reported disk is below the threshold |
| `Rule.Tcp` | internal/rule/rule.go:114-149 | the batch of the two counts in key order, well formed: the total has a condition exactly if it reaches its threshold, the service port exactly if its count reaches the other one |
| `Rule.TcpExactly` | internal/rule/rule.go:114-149 | besides, there are no other keys, and each condition's current and threshold read back as that count and that threshold |
| `Rule.SortedConditions` | internal/rule/rule.go:265-274 | the values in key order, whatever order the map is ranged over |
| `Decimal.RoundEvenNearest` | internal/rule/rule.go:261-263 | percentages are rounded to the nearest tenth, ties to even, and rounding keeps their order |
| `Decimal.PercentShows` | internal/rule/rule.go:261-263 | a percentage is shown as sign, whole and one decimal within half a tenth of its value |
| `Decimal.IntegerReads` | internal/rule/rule.go:121-122 | a count is shown as the digits that read back as it |
| `AuthRule.ReasonsExplain` | internal/rule/rule.go:224-250 | each of the three reasons is listed exactly when it applies, at most once and in a fixed order, a disabled entry having only the first; there is none exactly for an entry that is available and, unless disabled, active or without status and without a quota keyword |
| `AuthRule.ReasonsTell` | internal/rule/rule.go:224-250 | in plain words: "unavailable" for the flag, and unless disabled "quota-like status message" for a keyword anywhere in the lowered message and "non-active status" for a status that is neither blank nor active |
| `AuthRule.ActiveExactly` | internal/rule/rule.go:235-238 | a status counts as active exactly if, without the white space around it, it is empty or the word in any mixture of cases |
| `AuthRule.AuthReasons` | internal/rule/rule.go:224-240 | the early return and the appends give such a list |
| `AuthRule.ContainsQuotaKeyword` | internal/rule/rule.go:242-250 | true exactly when the lowered message is some text, a keyword and some text |
| `AuthRule.ContainsExactly` | internal/rule/rule.go:244-248 | a part is contained exactly if the text is something, the part and something |
| `AuthRule.QuotaWords` | internal/rule/rule.go:13-20 | any message with one of the six words anywhere in it is quota-like |
| `AuthRule.AuthConditionTells` | internal/rule/rule.go:195-219 | a condition tells the identity, the reasons, and every field of its entry under its own name |
| `AuthRule.FirstNonEmptyExactly` | internal/rule/rule.go:252-259 | the identity is the first value that is not blank, trimmed, or "unknown" |
| `AuthRule.Auth` | internal/rule/rule.go:154-222 | the two loops compute the batch specified entry by entry, well formed |
| `AuthRule.AuthExact` | internal/rule/rule.go:154-222 | keys are exactly those of entries unhealthy under an index of their own, with that entry's condition; complete exactly when every entry can be judged; the others are its errors with their positions |
| `AuthRule.AuthErrorsTell` | internal/rule/rule.go:171-192 | a missing index is an error at the position, counted from one, of an unhealthy entry without one, a duplicate at every entry that shares it, and there are no others |
| `AuthRule.AbsentMeansHealthy` | internal/rule/rule.go:171-193 | a complete batch without a key means that all entries with that trimmed index, and all without one, are healthy |
| `Recovery.RulesAlternate` | internal/rule/rule.go:31-197 | over any run of batches made by the rules, whose key prefixes determine the scope, deliveries and removals of every key strictly alternate |
| `Recovery.NoFalseAuthRecovery` | internal/rule/rule.go:154-222 | reconciling a list removes a credential's record only if no entry with that index is unhealthy, duplicates and missing indexes included |
| `Recovery.NoFalseDiskRecovery` | internal/rule/rule.go:71-111 | reconciling disks removes a mount's record only if every monitored mount was measured and that one is absent or below the threshold, also after a cancelled collection; and the figures are what the file system says in this cycle for every mount point without a call in the table when the cycle began, whatever calls of earlier cycles tell (or, if those tell the truth too, without a finished one) |
| `Disk.DiskUsageExact` | internal/collector/disk.go:63-89 | usage is computed exactly for sane figures whose size fits in 64 bits; then nothing has wrapped, used fits in total, and the second overflow check never fires |
| `Disk.DiskUsageRefusals` | internal/collector/disk.go:63-89 | exactly when each of the other four errors is returned |
| `Disk.MeasuredExactly` | internal/collector/proc.go:90-104 | a mount is measured exactly if its answer came in time, without error and with sane figures, and otherwise the error says which |
| `Disk.NormalizeMounts` | internal/collector/disk.go:43-61 | the two loops compute the normalized mounts |
| `Disk.NormalizedExact` | internal/collector/disk.go:43-61 | one mount per monitored mount point, ascending; normalizing again changes nothing |
| `Disk.NormalizedFirst` | internal/collector/disk.go:43-61 | each mount kept has a mount point and a monitored type and is the first of its mount point among those |
| `Disk.CollectDisks` | internal/collector/disk.go:12-41 | the plain collector is the collection of the normalized mounts |
| `Disk.CutShortIncomplete` | internal/collector/proc.go:99-103 | a collection that was cut short is incomplete; one that was not reached every mount |
| `Disk.ReachedExactly` | internal/collector/proc.go:78-106 | a cancelled collection goes on as long as measuring succeeds and stops at the first failure afterwards |
| `Disk.CollectedPartition` | internal/collector/proc.go:90-104 | every mount lands in exactly one of disks and errors; complete exactly when there are no errors |
| `Disk.CollectedInOrder` | internal/collector/proc.go:78-106 | disks and errors are each in the order of the mounts |
| `MountInfo.DecodeEncode` | internal/collector/mountinfo.go:93-121 | decoding inverts the kernel's escaping, whatever the field contains |
| `MountInfo.EncodeDecode` | internal/collector/mountinfo.go:93-121 | escaping an accepted field again gives it back exactly when it has no raw space, tab or newline |
| `MountInfo.DecodeField` | internal/collector/mountinfo.go:93-121 | the index loop computes the decoding, errors included |
| `MountInfo.ParseMountInfo` | internal/collector/mountinfo.go:29-91 | the first bad line is reported, otherwise the table's mounts normalized, which normalizing again does not change; the checks for an empty mount point or type never fire |
| `MountInfo.LineExactly` | internal/collector/mountinfo.go:40-75 | a line is accepted exactly if at least six fields stand before the first "-" and two after it and the fifth can be decoded; it describes that mount point with the type after the "-" |
| `MountInfo.ParsedExactly` | internal/collector/mountinfo.go:34-78 | reading fails exactly if some line is bad, and blames the first |
| `MountInfo.ParsedInOrder` | internal/collector/mountinfo.go:34-78 | otherwise the mounts are those of the lines in order |
| `MountInfo.KernelLineRead` | internal/collector/mountinfo.go:40-75 | a line written by the kernel is read back exactly when its mount point has no white space but spaces, tabs and newlines |
| `MountInfo.TrailingSpaceCut` | internal/collector/mountinfo.go:40-75 | a mount point that ends with one character of other white space is read without it |
| `MountInfo.CarriageReturnLost` | internal/collector/mountinfo.go:40-75 | a line on which "/" and a carriage return is read as "/" |
| `SingleFlight.Table.Lookup` | internal/collector/proc.go:128-144 | joins the shared call of the path or makes one |
| `SingleFlight.Table.Finish` | internal/collector/proc.go:146-152 | afterwards the call is no longer shared; a successor under the same path and every other path stay as they were |
| `SingleFlight.OneUnfinishedPerPath` | internal/collector/proc.go:108-152 | in every interleaving at most one call per path is unfinished, and it is the one in the table |
| `SingleFlight.ServedFromOwnPath` | internal/collector/proc.go:108-126 | what a request returns is the result of a call on its own path |
| `SingleFlight.RetiredNeverServes` | internal/collector/proc.go:108-152 | a call retired at some moment never serves a request that started later |
| `SingleFlight.IdleMeansFresh` | internal/collector/proc.go:128-144 | a request on a path without a shared call is served only by a call made after it began |
| `SingleFlight.OlderExactly` | internal/collector/proc.go:108-144 | a served result comes from a call older than the request exactly when, as the request looked, its path was shared by a call made earlier; if that call had finished before, its old result is what is returned |
| `SingleFlight.FreshOrStale` | internal/collector/proc.go:108-152 | a request returns what the file system says from its beginning on, unless its path was shared then: by a finished call, whose result it then returns, or by a call that may have asked the file system before |
| `SingleFlight.ServedTruthfully` | internal/collector/proc.go:108-126 | if every completion tells what the file system says of its path, so does every served result of its request's path |
| `SingleFlight.EntriesOwned` | internal/collector/proc.go:108-152 | in every reachable state each entry of the table belongs to a request on its path that waits for the call or is about to retire it, or that gave up |
| `SingleFlight.ServedLeaveNothing` | internal/collector/proc.go:108-152 | once every request for a path was served nothing is left in the table there |
| `SingleFlight.OldResultServed` | internal/collector/proc.go:108-152 | a run in which a timeout leaves a call behind and the next request is served its old result |
| `SingleFlight.IdentityTestNeeded` | internal/collector/proc.go:146-152 | with the identity test a late waiter leaves the successor shared; without it two unfinished calls run on one path |
| `Collector.StatFSForMount` | internal/collector/proc.go:108-126 | one request through the table, whatever other calls finish meanwhile: its answer is that of a request of the protocol on this path, done unless it timed out or was cancelled |
| `Collector.FreshAnswer` | internal/collector/proc.go:108-152 | an answer in time is what the file system says now, unless the path was shared by a finished call, whose result it then is, or by one that may have asked before |
| `Collector.FreshExactly` | internal/collector/proc.go:128-152 | for every way the run goes on, all answers in time are current exactly if no such call is shared on the path, or a finished one whose result happens to be true |
| `Collector.PatientIsPlain` | internal/collector/proc.go:78-106 | mounts answered in time and without such calls are collected as by the plain collector |
| `Collector.CollectDisks` | internal/collector/proc.go:78-106 | from any state of the table, the collection of the normalized mounts with the answers the requests came to, up to the first failure after a cancellation; without stale calls on the mounts (so without outstanding calls), cancellation and timeouts it is the plain collector's; without timeouts every request it makes is served |
| `Collector.CollectCycles` | internal/collector/proc.go:78-106 | cycle after cycle without timeouts and cancellations, each with its own mounts and figures, every collection is the plain collector's: nothing is ever left behind |
| `HealthReport.DueExactly` | internal/healthreport/manager.go:236-247 | a report waits for the interval after the last one delivered and for the retry interval after a failed attempt, and for nothing else |
| `HealthReport.DueStays` | internal/healthreport/manager.go:236-247 | being due is monotone in time and always reached |
| `HealthReport.AcceptedExactly` | internal/healthreport/manager.go:152-159 | when the store accepts the outcome of a due attempt: after a delivery always, after a failure unless the clock is at or, before the first report, below the zero time |
| `HealthReport.AttemptSpaced` | internal/healthreport/manager.go:106-167 | after a due attempt nothing is due before the interval, or the retry interval after a failure, has passed, exactly if the attempt was not at the zero time and the store took it |
| `HealthReport.NextDueExactly` | internal/healthreport/manager.go:106-167 | after an attempt that was kept the next one is due exactly from the end of the interval on, or of the retry interval after a failure |
| `HealthReport.KeptExactly` | internal/healthreport/manager.go:152-159 | which is the case exactly when the clock is past the zero time, or before it and the report is delivered or one was delivered before |
| `HealthReport.AnnouncedTimeIsDue` | internal/healthreport/manager.go:118-125 | the next report is due exactly at the time the sent one announces |
| `HealthReport.RunSpaced` | internal/healthreport/manager.go:106-167 | over any clock and any answers, when all attempts were kept in this sense: attempt times strictly increase, reports are an interval apart, an attempt after a failed one is at least a retry interval later, and the schedule in the store remembers the last ones |
| `HealthReport.DueByHistory` | internal/healthreport/manager.go:236-247 | in such a run a report is due exactly when the interval has passed since every report delivered and, if the last attempt failed, the retry interval since it |
| `HealthReport.PositiveClockKept` | internal/healthreport/manager.go:152-159 | a clock past the zero time has all attempts kept |
| `HealthReport.UnkeptBreaks` | internal/healthreport/manager.go:236-247 | one attempt that was not kept breaks the spacing, whatever happened before it |
| `HealthReport.ZeroClockForgotten` | internal/healthreport/manager.go:236-239 | as a failed first attempt at the zero time does |
| `HealthReport.OutcomeExactly` | internal/healthreport/manager.go:152-167 | no error exactly when the report was sent and its time accepted and saved; otherwise which error |
| `HealthReport.Manager.ReportHealthy` | internal/healthreport/manager.go:106-167 | does nothing unless enabled and due; otherwise one attempt, recorded and saved whatever the sender said, or kept out by the store exactly as in a step of a run; as long as all attempts were kept, the manager's whole log is spaced and the store remembers it; with a positive clock the store never rejects |
| `Monitor.PlanWellFormed` | internal/monitor/runner.go:183-275 | every batch of a cycle has keys of its own scope, distinct and not blank, and is never rejected by a configured manager |
| `Monitor.DisksKept` | internal/monitor/runner.go:222-231 | with or without a collector error the disks measured keep their conditions: a mount point is told exactly when some report for it reaches the threshold |
| `Monitor.DisksAdmitted` | internal/monitor/runner.go:222-231 | with a collector error the disk batch is incomplete and has errors: those collected, else the collector's own |
| `Monitor.ServerTold` | internal/monitor/runner.go:183-214 | the health condition is there exactly if the check failed, the memory condition exactly if the usage is known and reaches the threshold; an unknown usage makes the batch incomplete with an error |
| `Monitor.NetworkTold` | internal/monitor/runner.go:247-258 | the same for the TCP counts, each against its own threshold |
| `Monitor.PlanScopes` | internal/monitor/runner.go:183-275 | the scopes are checked in the order health, memory, disk, network, accounts |
| `Monitor.FineExactly` | internal/monitor/runner.go:359-366 | four fine batches mean exactly that everything was collected and lies below its threshold |
| `Monitor.FineStep` | internal/monitor/runner.go:376-389 | a fine batch reconciled without error leaves its scope empty and the others as they were |
| `Monitor.OtherStep` | internal/monitor/runner.go:261-280 | a batch of another scope adds nothing to these scopes, in the store or in the file, however its save ends |
| `Monitor.BatchesHealthy` | internal/monitor/runner.go:359-366 | true exactly when every batch is complete and empty |
| `Monitor.HighestDisk` | internal/monitor/runner.go:281-286 | the maximum of the reported percentages, zero when there are none |
| `Monitor.TakeSnapshot` | internal/monitor/runner.go:293-308 | the figures reported are those collected and lie below the thresholds |
| `Monitor.ErrorsExactly` | internal/monitor/runner.go:376-399 | a cycle leaves errors about exactly the scopes whose batch told some or whose reconciliation failed |
| `Monitor.TurnsAreRun` | internal/monitor/runner.go:170-275 | the reconciliations of a runner are a run of its manager, and the log shows exactly its messages |
| `Monitor.Runner.RunOnce` | internal/monitor/runner.go:170-316 | also for a daemon started on a state file that does not open, and for a context that ends at any moment: the scopes are reconciled with their batches in order, whatever happened to the others, each exactly if the context had not ended by then; the errors are exactly those of these turns, then the context's end or the failed report; a report is made exactly when all was reached and the four server checks were fine and left no error; it means that nothing is active in the server's scopes in the store and, if it opens, in the state file, and it does open if it did at the start |
| `Monitor.Runner.AlertsAlternate` | internal/monitor/runner.go:170-316 | over all cycles of a runner the messages sent are those of a run of the manager, deliveries and removals of every key strictly alternate and the active keys are those whose last event is a delivery |
| `Monitor.Runner.RunDaemon` | internal/monitor/loop.go:89-123 | so they do over the whole life of the daemon, cycle after cycle, wherever their contexts end and whatever errors the cycles end with |
| `Version.ParseSemanticVersion` | internal/cliproxy/version.go:122-153 | the cuts and the loop over the core compute the parsing function, refusals included |
| `Version.ComparePrerelease` | internal/cliproxy/version.go:155-186 | the index loop computes the order of the identifiers |
| `Version.CompareReleaseVersions` | internal/cliproxy/version.go:91-120 | computes the comparison, with the case-insensitive shortcut first |
| `Precedence.OrderTotal` | internal/cliproxy/version.go:91-186 | the precedence of Semantic Versioning 2.0.0 as an independent order on releases: total, antisymmetric, transitive |
| `VersionLaws.ReadBack` | internal/cliproxy/version.go:122-153 | a written release is read back as its numbers and pre-release, whatever the v and the build metadata |
| `VersionStrings.AcceptedExactly` | internal/cliproxy/version.go:122-153 | a string is accepted, and read as these numbers and this pre-release, exactly if it spells them: perhaps a v, three numbers below 2^64 without leading zeros, a pre-release after a dash, build metadata after a plus |
| `VersionLaws.CompareExact` | internal/cliproxy/version.go:91-186 | for all written versions, the comparison is the precedence exactly where the shortcut fires only for equal releases and the first differing identifiers agree |
| `VersionLaws.PairExact` | internal/cliproxy/version.go:161-177 | two identifiers compare as the standard says exactly unless a number past 64 bits is taken for a text that falls the other way |
| `VersionStrings.AcceptedIsWritten` | internal/cliproxy/version.go:122-153 | every accepted string without leading zeros is a written form of the release read from it |
| `VersionStrings.ComparableExactly` | internal/cliproxy/version.go:91-101 | comparable exactly when both parse or the strings are the same up to case and one v |
| `VersionStrings.OneVIgnored` | internal/cliproxy/version.go:91-96 | a text and the same text after a v tie, whether or not they parse |
| `VersionStrings.ComparedExactly` | internal/cliproxy/version.go:91-186 | the same exact condition for all parseable strings without leading zeros |
| `VersionStrings.OrdinaryStrings` | internal/cliproxy/version.go:91-186 | without leading zeros, upper case and numbers past 64 bits in the pre-release the comparison is the precedence |
| `VersionStrings.ComparisonOrders` | internal/cliproxy/version.go:91-186 | and a total preorder that ties exactly on equal releases |
| `VersionStrings.SwappedExactly` | internal/cliproxy/version.go:155-186 | swapping the sides swaps the answer exactly unless a number meets itself with other leading zeros |
| `VersionStrings.LeadingZeroBothGreater` | internal/cliproxy/version.go:161-168 | 01 and 1 are each greater than the other |
| `VersionStrings.CaseIgnored` | internal/cliproxy/version.go:94-96 | names that differ only in case tie although precedence orders them |
| `VersionStrings.HugeExample` | internal/cliproxy/version.go:161-177 | from the twentieth on, ten times a power of ten counts as lower than its double |

## Left out

- HTTP, SMTP, TLS, signing, JSON and YAML: only success or failure is kept; a document stands for its encoding.
- Message rendering, localization, truncation, error wording and log lines; objectName is modelled, layouts are not.
- Configuration and command-line validation, constructor argument checks for nil, the service scripts, and the ticker of `runDaemon`: a run is any number of cycles.
- Account usages of a report (`enabledAccountUsages`), quota and version fetching: only the counts of accounts are modelled.
- Context cancellation: in a cycle the context ends at an arbitrary look, or never, and does not revive; a cancellation while a message is sent or a disk measured is a choice of its own there, not tied to that of the cycle.
- Clones of details maps and records: records are values here, so aliasing cannot occur in the model.
- Locks inside a manager: calls of one manager do not overlap here; overlapping saves are modelled in `SaveProtocol`.
- Statfs calls are numbered in the order they are made, and compared by number instead of identity; channel and timer are the steps Observe and GiveUp. Where current figures are promised, what statfs says of a path does not change during the collection.
- Directories, permissions and unreadable entries beside the log; foreign files are untouched by every operation.
- Overflow of the log writer's 64-bit byte counts.
- LogWriter.Writer.NewWriter: the trimmed content of oversized files found at startup counts as the start of the stream, not as part of it; the limits hold for it.
- NaN percentages: a NaN counts as below every threshold in the code, and reals have none.
- AuthRule.AuthReasons: strings.ToLower is a parameter, so the set of letters it lowers is not modelled.
- Version.CompareReleaseVersions: the folding of letters outside ASCII is a parameter.
- MountInfo.DecodeField: the byte position and wording of a decoding error are not modelled, only that there is one: strings are sequences of characters here, which have no byte positions.
- The scanner's limit on the length of a mount table line is part of the choice that reading fails.
