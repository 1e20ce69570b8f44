# Verified models of the Permanu agent

This project models the parts of the Permanu agent that keep state over time or rewrite data, and
proves what they promise over every input, every run or every reachable state.

* **Log spool and delivery** (`SpoolFraming`, `SpoolQueue`, `DiskSpools`, `LogForwarding`).
  Length-framed records in numbered segment files, cached counters, a byte budget that drops whole
  head segments, partial acks that rewrite the head file, and restarts. The files and counters are
  shown to stand for a plain FIFO queue over every run. The delivery loop is a state machine in
  which pushes and restarts interleave with the two halves of a drain.
* **Configuration editor** (`Text`, `ConfigOutline`, `ConfigBlocks`, `ConfigPatch`, `ConfigText`,
  `ConfigRuns`). Finding, extracting, upserting and removing named blocks over lines with comments and braces. A
  line is digested to how far it moves the brace depth and what stands before its first brace; the
  laws are proved on that outline and carried to lines and to text. Any sequence of patches refines
  updates of a map, also through the text that every patch splits and joins.
* **CI jobs** (`CiConditions`, `CiJob`, `CacheQuota`, `Masking`, `Redaction`, `Wildcard`). The step
  engine for every combination of step outcomes and cancellations, the cache quota evictor, the
  secret redactor and the glob matcher.
* **Commands and health checks** (`CommandLoop`, `Monitoring`). The dispatch loop, its tasks, permits
  and cancel registry as interleaved atomic steps; the scheduler of health checks.
* **Analytics** (`MapSums`, `BoundedCounters`, `VisitorBits`, `AccessLog`, `TopValues`,
  `DomainTallies`, `Analytics`). Bounded counters, the visitor bitmap and per-domain tallies against
  the exact history of what was recorded.
* **Self-update** (`SelfUpdate`). The transfer of a new binary by three routes into a temporary file,
  and its installation, over a file system.

`Basics` and `Order` hold shared vocabulary. Code that works by changing state is a class or a method
with loops, proved against functions on values; the laws are lemmas about those functions.

## What does not hold without a condition

Some promises hold only under a condition. Each is stated with the exact condition, and with the
inputs that break it.

* An accepted append can empty the spool, itself included, when a record makes its segment outgrow
  the budget (`SpoolQueue.NewestSurvivesIff`); `SpoolQueue.LosesTheNewestIff` gives the configurations
  under which that can happen.
* An ack carries only a count. A budget drop between the read of a batch and its ack makes a
  successful ack remove records that were in no batch (`LogForwarding.AckLosesIff`,
  `LogForwarding.LossReachable`), and a refused ack leaves records queued that were sent
  (`LogForwarding.SentStaysQueuedIff`, `LogForwarding.RepeatReachable`).
* The sequence counter saturates. A segment opened after the one numbered 2^64 - 1 gets the same
  number, which empties the live file (`SpoolQueue.PushKeepsOrderIff`,
  `DiskSpools.PushKeepsDirectoryIff`, `DiskSpools.ReuseTruncates`, `DiskSpools.ReuseReachable`).
* The scanner and the reader of a segment agree if and only if the file is whole frames and less than a
  header (`SpoolFraming.ScanAgreesIff`). They disagree on a torn payload
  (`SpoolFraming.TornPayloadDisagrees`) and on a length that wraps around with its header
  (`SpoolFraming.HugeLengthWraps`).
* An upsert is lost in a file whose anonymous global block opens and closes on one line, and a value
  whose line is not balanced after comment stripping breaks the file (`ConfigPatch.UpsertFoundIff`).
* Splitting and joining text is the identity if and only if it has no carriage return before a line
  feed (`ConfigText.JoinSplitIff`).
* Masking erases a secret from every text if and only if the secret neither starts nor ends with a
  star nor contains three stars (`Masking.ErasedFromEveryTextIff`). The same holds of every
  redactor that knows the secret (`Redaction.AlwaysErasedIff`); one that knows no other is idempotent
  under the same condition or when the secret is the mask itself (`Redaction.IdempotentIff`).
* A command whose id is still registered takes over the cancel handle of the earlier one
  (`CommandLoop.SpawnExactIff`, `CommandLoop.ReusedIdCannotBeCancelled`).
* A completed health check frees the check it is for with certainty if and only if no other check has
  its id (`Monitoring.FreesTheRightCheckIff`). Over the runs of a configuration, in whatever order its
  checks are looked at, none runs twice at once if and only if no two of them share an id
  (`Monitoring.NeverTwiceIff`).
* Applying a configuration forgets what is in flight and when checks ran. Whatever follows, no check
  runs twice at once or too soon if and only if no task has the id of a configured check and each of
  these has rested (`Monitoring.ReapplyStaysGoodIff`, `Monitoring.ReappliedRunsTwice`).

## Model

| member | source | states |
|---|---|---|
| `SpoolFraming.DecodeBigEndian` | src/spool.rs:301-307 | a length that fits its width is read back from its big-endian bytes |
| `SpoolFraming.EncodeBigEndian` | src/spool.rs:309-334 | every header is the big-endian form of the length it is read as |
| `SpoolFraming.ParseFrames` | src/spool.rs:336-360 | complete frames are read back one by one, whatever follows them |
| `SpoolFraming.ParseEncode` | src/spool.rs:301-360 | round trip past a fragment shorter than a header: the reader returns the records, the scanner their byte and record totals |
| `SpoolFraming.ScanFrames` | src/spool.rs:309-334 | the scanner's running totals grow by exactly the frames it passes |
| `SpoolFraming.ParsedIsEncoded` | src/spool.rs:336-360 | what the reader returns re-encodes to the file, up to less than a header |
| `SpoolFraming.ParseSucceedsIff` | src/spool.rs:336-360 | the reader succeeds exactly on whole frames followed by less than a header |
| `SpoolFraming.TornPayloadDisagrees` | src/spool.rs:309-360 | on every torn last payload the reader fails and the scanner counts a record that is not there |
| `SpoolFraming.HugeLengthWraps` | src/spool.rs:309-360 | after any frames, a length within 8 of 2^64 is counted as a record of less than a header, where the reader refuses the file |
| `SpoolFraming.ScanAgreesIff` | src/spool.rs:309-360 | the scanner reports the totals of the records the reader returns if and only if the file is whole frames followed by less than a header |
| `SpoolFraming.ReadSegmentPayloads` | src/spool.rs:336-360 | the read loop computes the parse |
| `SpoolFraming.ScanSegment` | src/spool.rs:309-334 | the scan loop computes the totals, with its checked overflow and the unchecked sum of header and length |
| `SpoolFraming.WriteRecords` | src/spool.rs:385-405 | rewriting records writes exactly their encoding and returns its true size and count |
| `SpoolQueue.EnforceRefines` | src/spool.rs:362-375 | the budget removes and counts the records of a whole-segment prefix, the rest stays in order and within budget, and nothing happens within budget |
| `SpoolQueue.PushRefines` | src/spool.rs:276-299 | finding or opening a segment and writing to it enqueues one record at the tail |
| `SpoolQueue.AppendRefines` | src/spool.rs:86-104 | append fails exactly for a record larger than the budget; otherwise it enqueues at the tail and drops a counted prefix, conserving bytes |
| `SpoolQueue.NewestSurvivesIff` | src/spool.rs:86-104 | an accepted append keeps its own record unless the record made its segment outgrow the budget, and then the spool is empty |
| `SpoolQueue.NewestSurvives` | src/spool.rs:86-104 | with segments no larger than the budget a just-appended record is never dropped by its own append |
| `SpoolQueue.PairLosesTheNewest` | src/spool.rs:362-375 | two records that together exceed the budget but not the segment limit leave an empty spool empty |
| `SpoolQueue.LosesTheNewestIff` | src/spool.rs:276-299 | a configuration lets some append to some valid spool be lost if and only if two records can exceed the budget in one segment: budget at least 8, segments of at least 16 and more than the budget |
| `SpoolQueue.AckSegmentsRefines` | src/spool.rs:152-195 | removing acked segments and rewriting the head drops exactly the first n records |
| `SpoolQueue.AckRefines` | src/spool.rs:152-195 | ack succeeds exactly when n records are queued, removes exactly the first n, and conserves bytes and counters |
| `SpoolQueue.ReopenKeepsQueue` | src/spool.rs:226-262 | reopening with the same configuration yields the same segments and records, with fresh drop counters |
| `SpoolQueue.StoppedIsLongest` | src/spool.rs:106-150 | where the batch reader stops, the batch is the longest queue prefix allowed, a first oversized record excepted |
| `SpoolQueue.StepKeepsValid` | src/spool.rs:67-195 | every operation that hands out no number twice keeps sequence numbers increasing and bytes within budget |
| `SpoolQueue.RunKeepsValid` | src/spool.rs:67-195 | so does every run that hands out no sequence number twice |
| `SpoolQueue.RoomIsSafe` | src/spool.rs:276-299 | every run no longer than the numbers left is such a run |
| `SpoolQueue.StepIsFifo` | src/spool.rs:67-195 | one operation keeps the queue a suffix of the accepted records, with acks, drops and bytes conserved |
| `SpoolQueue.RunIsFifo` | src/spool.rs:67-195 | over every run of appends, acks and restarts: initial + accepted = acked + dropped + queued, in order, in records and in bytes |
| `SpoolQueue.PushKeepsOrderIff` | src/spool.rs:276-299 | a push keeps sequence numbers distinct and in order if and only if it does not open a segment under the number of the last one |
| `SpoolQueue.ReusesOnlySaturated` | src/spool.rs:276-299 | that happens only with a saturated counter, and to a segment that holds records |
| `DiskSpools.HoldsUnique` | src/spool.rs:226-262 | a directory of whole frames holds only one list of segments |
| `DiskSpools.LoadState` | src/spool.rs:226-262 | loading visits files in any order and yields the sorted segments with true byte and record counters |
| `DiskSpools.FindPlace` | src/spool.rs:226-262 | the place of a sequence number in the sorted list |
| `DiskSpools.LoadOne` | src/spool.rs:226-262 | scanning one more file and inserting it keeps the list sorted and the counters true |
| `DiskSpools.LoadIsOrdered` | src/spool.rs:226-262 | a loaded spool has increasing numbers below the next one |
| `DiskSpools.Open` | src/spool.rs:67-84 | open fails exactly for a zero budget and otherwise stands for the loaded queue trimmed to the budget |
| `DiskSpools.DirectoryOfValid` | src/spool.rs:226-262 | the files a valid spool leaves are loadable, and as exactly its segments |
| `DiskSpools.TakeFrom` | src/spool.rs:106-150 | the loop over one segment's payloads stops only at a batch that cannot be longer |
| `DiskSpools.DiskSpool.Loaded` | src/spool.rs:226-262 | the state built from a scan stands for the scanned queue |
| `DiskSpools.DiskSpool.RemoveHead` | src/spool.rs:377-383 | deleting the head file removes its segment and takes it out of the totals |
| `DiskSpools.DiskSpool.EnforceBudget` | src/spool.rs:362-375 | the loop on files and counters performs the budget enforcement of the queue |
| `DiskSpools.DiskSpool.AppendBytes` | src/spool.rs:86-104 | the cached state after an append is always that of the queue, or its error and no change; the files are too unless a number is reused, and always what the writes and deletions make of them |
| `DiskSpools.DiskSpool.StoreRecord` | src/spool.rs:95-103 | writing and enforcing the budget append the record to the queue, with the files the writes and deletions make |
| `DiskSpools.DiskSpool.WriteRecord` | src/spool.rs:95-102 | preparing a segment and writing the frame pushes the record and writes exactly one file |
| `DiskSpools.DiskSpool.DropOne` | src/spool.rs:362-375 | one turn of the budget loop deletes one file and counts its records and bytes as dropped |
| `DiskSpools.DiskSpool.PrepareSegment` | src/spool.rs:276-299 | the last segment is reused if it has room, else the file of the next number is created, emptying it if it exists |
| `DiskSpools.DiskSpool.CreateSegment` | src/spool.rs:286-299 | a new last segment with the next number, whose file is created empty |
| `DiskSpools.DiskSpool.AppendFrame` | src/spool.rs:95-102 | the frame at the end of the last file, and the counters of its segment, grow by one record |
| `DiskSpools.DiskSpool.AppendRecord` | src/spool.rs:301-307 | one frame is added at the end of the last file |
| `DiskSpools.DiskSpool.ReadBatch` | src/spool.rs:106-150 | the batch is the longest allowed prefix of the queue, across segments, and the ack is its length |
| `DiskSpools.DiskSpool.AckRecords` | src/spool.rs:152-195 | ack on files and counters is ack on the queue, or its error and no change |
| `DiskSpools.DiskSpool.RewriteHead` | src/spool.rs:165-192 | a partial ack rewrites the head file with the records left and adjusts the totals |
| `DiskSpools.DiskSpool.KeptRecords` | src/spool.rs:165-180 | the records of the head file that an ack leaves |
| `DiskSpools.Perform` | src/spool.rs:67-195 | one operation of a run that reuses no number, a restart included, acts as on the queue |
| `DiskSpools.Replay` | src/spool.rs:67-195 | over every run with restarts that reuses no number, from every directory of whole frames, files and counters stand for the queue of that run |
| `DiskSpools.PushKeepsDirectoryIff` | src/spool.rs:276-307 | after the writes of an append the directory holds the queue if and only if no number is reused |
| `DiskSpools.ReuseTruncates` | src/spool.rs:288-291 | when one is, the directory holds the older segments and the new record alone, and the records of the last segment are gone |
| `DiskSpools.ReuseReachable` | src/spool.rs:226-299 | a directory with the last number and two records that do not share a segment reach this |
| `LogForwarding.SentFromSpec` | src/log_forwarder.rs:171-184 | every record of a batch is sent or corrupt, as it decodes or not |
| `LogForwarding.DecodeRecords` | src/log_forwarder.rs:171-184 | the entries that decode, in order, and the number of the others |
| `LogForwarding.AckAfterDrops` | src/log_forwarder.rs:186-230 | after d drops since a batch of n was read, a successful ack removes positions d to d+n-1 of the queue as read; the last min(d, n) of them were in no batch ever handed over and are not counted as dropped |
| `LogForwarding.AckLosesIff` | src/log_forwarder.rs:186-230 | a successful ack removes a record that was never handed over if and only if a drop came between read and ack |
| `LogForwarding.SentStaysQueuedIff` | src/log_forwarder.rs:186-230 | after an accepted batch a record of it that was sent is still queued if and only if drops left fewer records than the batch has, so that the ack was refused, while a decodable one of it was not dropped |
| `LogForwarding.SentAgain` | src/log_forwarder.rs:186-230 | such a record at the head is sent twice by the next round |
| `LogForwarding.LossReachable` | src/log_forwarder.rs:186-230 | for every record over half of the budget a run of push, read, push and ack loses the second record |
| `LogForwarding.RepeatReachable` | src/log_forwarder.rs:186-230 | three records, and a push that drops two of them between read and ack, make the third be sent twice |
| `LogForwarding.RestartKeepsQueue` | src/log_forwarder.rs:22-34 | a restart keeps the queue and loses nothing, whatever was in flight |
| `LogForwarding.RoundsDrain` | src/log_forwarder.rs:186-230 | without pushes, as many accepted rounds as there are records empty the queue, sending exactly its decodable records in order |
| `LogForwarding.StepKeepsInv` | src/log_forwarder.rs:186-230 | every push, half of a drain and restart keeps the accounting of records |
| `LogForwarding.RunKeepsInv` | src/log_forwarder.rs:186-230 | over every interleaving: a record that left was dropped, handed over as it decodes, or lost and then never handed over; the drop counters are the records dropped; none is lost while no drop overtakes a batch; records are handed over once and in order while none handed over stays queued |
| `LogForwarding.LogForwarder.constructor` | src/log_forwarder.rs:22-34 | a forwarder starts with nothing in flight on a spool with any past |
| `LogForwarding.LogForwarder.Push` | src/log_forwarder.rs:36-40 | push is an append to the spool and a step of the state machine, and keeps everything unless a number is reused |
| `LogForwarding.LogForwarder.StartDrain` | src/log_forwarder.rs:186-197 | the half of a drain before the send is a read step |
| `LogForwarding.LogForwarder.FinishDrain` | src/log_forwarder.rs:199-230 | the half after the send acks exactly when the backend accepted or nothing decoded, and returns an error exactly when the batch was not accepted or the ack was refused |
| `LogForwarding.LogForwarder.AppendEntry` | src/log_forwarder.rs:36-40 | the append of a push is the push step |
| `LogForwarding.LogForwarder.TakeBatch` | src/log_forwarder.rs:186-197 | the batch read is the read step |
| `LogForwarding.LogForwarder.FinishBatch` | src/log_forwarder.rs:199-230 | the ack after the reply is the finish step, and the error is reported as the reply and the ack say |
| `LogForwarding.LogForwarder.AckPending` | src/log_forwarder.rs:225-228 | the ack of the batch is the queue's, or its error |
| `LogForwarding.RestartForwarder` | src/log_forwarder.rs:22-34 | a new process on the same directory goes on as the restart step says |
| `ConfigBlocks.FindGlobalBlock` | src/dwaar_config_patch.rs:151-172 | the loop finds the first anonymous block at depth 0 and its first return to depth 0 |
| `ConfigBlocks.FindDwaarBlock` | src/dwaar_config_patch.rs:174-210 | the search inside the global block or at top level |
| `ConfigBlocks.ScanBlocks` | src/dwaar_config_patch.rs:182-209 | the loop finds the first opening line of the name in its region and the first return after it |
| `ConfigOutline.FoundIsSlot` | src/dwaar_config_patch.rs:174-210 | in a well-formed file a found block opens first, ends at the first return, and can be replaced |
| `ConfigOutline.FindSpliced` | src/dwaar_config_patch.rs:174-253 | after a splice the block just written is the one found, on its one line |
| `ConfigOutline.FindUnrelated` | src/dwaar_config_patch.rs:174-263 | a block that is not edited is found again where its lines went, and an absent one stays absent |
| `ConfigOutline.SpliceWellFormed` | src/dwaar_config_patch.rs:226-263 | replacing a block by a balanced line keeps every depth and so the file well-formed |
| `ConfigOutline.OnceIffRemoved` | src/dwaar_config_patch.rs:255-263 | cutting out the first block of a name leaves none exactly when it was the only one |
| `ConfigPatch.UpsertDwaarBlock` | src/dwaar_config_patch.rs:226-253 | upsert with its loop for the insertion point writes the block where the specification does, with the trimmed value |
| `ConfigPatch.AllowedNamesAreValid` | src/dwaar_config_patch.rs:41-71 | the three block names the agent accepts satisfy what the laws ask of a name |
| `ConfigPatch.NewLineNet` | src/dwaar_config_patch.rs:226-253 | without a comment sign the written line is balanced exactly as its value is |
| `ConfigPatch.EditSlotIsSlot` | src/dwaar_config_patch.rs:226-253 | upsert replaces the first block of its name, or goes into an empty place of the region when there is none |
| `ConfigPatch.FindAfterUpsert` | src/dwaar_config_patch.rs:174-253 | after an upsert the block is found as the one line written |
| `ConfigPatch.ExtractAfterUpsert` | src/dwaar_config_patch.rs:212-253 | extracting a block after upserting it returns the upserted value |
| `ConfigPatch.UpsertTwice` | src/dwaar_config_patch.rs:226-253 | a second upsert of a block overwrites the first |
| `ConfigPatch.RemoveUndoesInsert` | src/dwaar_config_patch.rs:226-263 | removing a block that an upsert inserted restores the lines |
| `ConfigPatch.UpsertKeepsOthers` | src/dwaar_config_patch.rs:226-253 | upsert leaves the body of every other block unchanged |
| `ConfigPatch.RemoveKeepsOthers` | src/dwaar_config_patch.rs:255-263 | remove leaves the body of every other block unchanged |
| `ConfigPatch.RemoveMakesAbsentIff` | src/dwaar_config_patch.rs:255-263 | removing a block makes it absent if and only if it was there once at most |
| `ConfigPatch.InlineGlobalLosesUpsert` | src/dwaar_config_patch.rs:151-253 | with a global block on one line an upserted block is never found |
| `ConfigPatch.UpsertFoundIff` | src/dwaar_config_patch.rs:151-253 | the block an upsert writes is found as written if and only if there is no one-line global block and the written line is balanced |
| `ConfigPatch.InlineGlobalExample` | src/dwaar_config_patch.rs:151-172 | such a file exists and is well-formed |
| `ConfigPatch.CommentedValueUnbalanced` | src/dwaar_config_patch.rs:145-149 | a value that starts a comment swallows the closing brace |
| `ConfigPatch.ApplyKeepsEditable` | src/dwaar_config_patch.rs:73-116 | every patch keeps a file editable |
| `ConfigPatch.ApplyShows` | src/dwaar_config_patch.rs:73-116 | one patch changes the map of blocks as it should, at every name |
| `ConfigPatch.PatchesRefineMap` | src/dwaar_config_patch.rs:73-116 | after any sequence of patches the blocks of the file are the map updated by the patches in order |
| `ConfigText.JoinSplit` | src/dwaar_config_patch.rs:134-143 | splitting and joining only drops carriage returns before line feeds |
| `ConfigText.JoinSplitIff` | src/dwaar_config_patch.rs:134-143 | text survives splitting and joining if and only if it has no carriage return before a line feed |
| `ConfigText.SplitJoin` | src/dwaar_config_patch.rs:134-143 | joined clean lines are split into the same lines, a single blank line aside |
| `ConfigText.RemoveAbsentKeepsTextIff` | src/dwaar_config_patch.rs:73-87 | removing an absent block leaves the text byte-identical if and only if it has no carriage return before a line feed |
| `ConfigText.InsertText` | src/dwaar_config_patch.rs:73-116 | an inserting patch of a text yields the upserted lines and keeps whether it ends in a line break |
| `ConfigText.TextRoundTrip` | src/dwaar_config_patch.rs:73-116 | removing the block that a patch inserted gives the text back byte for byte |
| `ConfigRuns.PatchTextLines` | src/dwaar_config_patch.rs:73-87 | the lines of the patched text are the patched lines, except that one blank line becomes none or two |
| `ConfigRuns.PatchTextShows` | src/dwaar_config_patch.rs:73-116 | a patch of a text changes the map of its blocks as it should, at every name |
| `ConfigRuns.TextPatchesRefineMap` | src/dwaar_config_patch.rs:73-116 | after any sequence of patches of a CR-free text, through every split and join, the blocks of the text are the map updated in order |
| `CiConditions.ConditionMeaning` | src/job_deployment.rs:900-940 | every expression runs the step if and only if it spells, in any case and with any blanks, a condition that holds; one that spells none never does |
| `CiConditions.AtomOfBare` | src/job_deployment.rs:915-924 | blanks around an expression are dropped |
| `CiConditions.AtomOfWrapped` | src/job_deployment.rs:915-924 | so are its delimiters, with blanks inside and out |
| `CiJob.ExecuteCiJob` | src/job_deployment.rs:1255-1504 | for every plan and every behaviour of the world the engine reports what the declarative description of the job says |
| `CiJob.RunSteps` | src/job_deployment.rs:1336-1461 | the loop stops at the first fatal failure or acted-on cancellation, with the statuses, effects and pending saves of the steps before |
| `CiJob.SaveCaches` | src/job_deployment.rs:1466-1476 | the pending saves are performed in order |
| `CiJob.SuccessIff` | src/job_deployment.rs:1255-1504 | success if and only if setup succeeded, no cancellation was acted on and every failed step was tolerated |
| `CiJob.FailedIndexIff` | src/job_deployment.rs:1336-1461 | the reported index is that of the first untolerated failure, with nothing that stops the job before it |
| `CiJob.StepRunsIff` | src/job_deployment.rs:1336-1461 | a step runs, once, if and only if its turn comes and its condition holds then; no later step runs |
| `CiJob.CacheSavedIff` | src/job_deployment.rs:1466-1476 | a cache is saved exactly when the job succeeds and the step that asked for it ran |
| `CiJob.CleanupOnce` | src/job_deployment.rs:1255-1504 | on every exit path services, if attempted, and then the checkout, if attempted, are cleaned up exactly once, last and in that order |
| `CiJob.StatusReportedIff` | src/job_deployment.rs:1336-1461 | with distinct ids a status is reported for exactly the steps up to the one that stops the job, and it is the step's own |
| `CacheQuota.SaveWithinLimit` | src/job_deployment.rs:2584-2660 | after a save the scope is within its limit if it was before or the entry is new and fits, whatever it held; the saved entry is not evicted |
| `CacheQuota.OldestGoFirst` | src/job_deployment.rs:2662-2731 | every evicted entry comes before every kept one in the order of modified time and path |
| `CacheQuota.EvictsOnlyWhatIsNeeded` | src/job_deployment.rs:2662-2683 | with room nothing is evicted; otherwise without the last eviction the scope would be over the limit |
| `CacheQuota.RunWithinLimit` | src/job_deployment.rs:2584-2683 | over every sequence of saves at a fixed limit, starting within it, the scope stays within it |
| `CacheQuota.CacheScope.constructor` | src/job_deployment.rs:2691-2731 | a scope of existing entries |
| `CacheQuota.CacheScope.Save` | src/job_deployment.rs:2584-2660 | the decision reported and the entries left, for an entry that exists, is too large, fits, or needs evictions, with or without a limit |
| `CacheQuota.CacheScope.Enforce` | src/job_deployment.rs:2662-2683 | evicts the shortest sufficient prefix of the order and returns the true total |
| `CacheQuota.QuotaEntries` | src/job_deployment.rs:2691-2731 | the entries of a scope, each once, sorted by modified time and path |
| `CacheQuota.PlaceFor` | src/job_deployment.rs:2691-2731 | where an entry belongs in that order |
| `CacheQuota.SumSizes` | src/job_deployment.rs:2662-2683 | the loop sums the sizes |
| `Masking.ReplaceAddsNothing` | src/job_deployment.rs:6154-6165 | masking one word makes no other mask-proof word appear |
| `Masking.ReplaceErases` | src/job_deployment.rs:6154-6165 | masking a mask-proof word leaves no occurrence, overlapping or not |
| `Masking.ReplaceFirst` | src/job_deployment.rs:6154-6165 | masking keeps the text up to the first occurrence and goes on after it |
| `Masking.ReplaceAbsent` | src/job_deployment.rs:6154-6165 | a text without the word is left alone |
| `Masking.ErasedFromEveryTextIff` | src/job_deployment.rs:6154-6165 | masking erases a word from every text if and only if it neither starts nor ends with a star nor contains the mask |
| `Masking.StarFreeIsMaskProof` | src/job_deployment.rs:6154-6165 | words without a star are among those |
| `Masking.AllErased` | src/job_deployment.rs:6154-6165 | after masking words one after the other, no mask-proof one is left, whatever the others are |
| `Masking.AllAbsent` | src/job_deployment.rs:6154-6165 | a text with none of the words passes unchanged |
| `Redaction.Base64RoundTrip` | src/job_deployment.rs:6141-6152 | the encoding of section 4 of RFC 4648 is decoded to the same bytes |
| `Redaction.Base64IsMaskProof` | src/job_deployment.rs:6141-6152 | no mask can be part of an encoded secret |
| `Redaction.NoSecretLeft` | src/job_deployment.rs:6154-6165 | for every text and every set of secrets, no base64 form of a secret is left, and no secret that is itself mask-proof |
| `Redaction.RedactionIsIdempotent` | src/job_deployment.rs:6154-6165 | when every secret is mask-proof a second redaction changes nothing |
| `Redaction.RedactorLeaks` | src/job_deployment.rs:6154-6165 | a secret that is not mask-proof is left in the redaction of some text, and unless it is the mask a second redaction of that text differs from the first |
| `Redaction.AlwaysErasedIff` | src/job_deployment.rs:6154-6165 | a secret is erased from every text by every redactor that holds it, with whatever others, if and only if it is mask-proof |
| `Redaction.IdempotentIff` | src/job_deployment.rs:6154-6165 | redacting one secret twice is redacting it once, on every text, if and only if it is mask-proof or the mask |
| `Redaction.SecretRedactor.constructor` | src/job_deployment.rs:6110-6116 | a redactor without secrets |
| `Redaction.SecretRedactor.AddSecretValue` | src/job_deployment.rs:6141-6152 | adds a new non-empty secret once, longest first |
| `Redaction.SecretRedactor.AddKnown` | src/job_deployment.rs:6141-6152 | afterwards the secrets are the earlier ones and the value, if it is not empty |
| `Redaction.SecretRedactor.FromEnv` | src/job_deployment.rs:6117-6139 | collects exactly the non-empty values of the listed and built-in keys |
| `Redaction.SecretRedactor.Redact` | src/job_deployment.rs:6154-6165 | the output is the sequential masking of all secrets, then of their encodings; it contains no encoding and no mask-proof secret |
| `Redaction.MaskEach` | src/job_deployment.rs:6154-6165 | the loop masks the words in order |
| `Wildcard.MatchDecomposes` | src/job_deployment.rs:3503-3517 | a match cuts the value into one piece per pattern byte |
| `Wildcard.DecomposesMatch` | src/job_deployment.rs:3503-3517 | a value cut that way is matched |
| `Wildcard.MatchesIffMeans` | src/job_deployment.rs:3499-3517 | the matcher accepts exactly the declarative meaning of star, question mark and literals |
| `CommandLoop.CommandCancels.constructor` | src/command_runtime.rs:29-32 | an empty registry |
| `CommandLoop.CommandCancels.Register` | src/command_runtime.rs:47-73 | registers a non-empty id, replacing an earlier handle, and ignores an empty one |
| `CommandLoop.CommandCancels.Cancel` | src/command_runtime.rs:75-89 | reports whether the id is registered and sets exactly its flag and abort handle |
| `CommandLoop.CommandCancels.Remove` | src/command_runtime.rs:91-94 | takes out the id |
| `CommandLoop.SpawnExactIff` | src/command.rs:291-306 | registering a spawned task keeps the registry exact if and only if no registered task has its id |
| `CommandLoop.StepKeepsInv` | src/command.rs:196-326 | every step of the loop, of a task or of a cancellation keeps permits, registry, results, admission and routing consistent |
| `CommandLoop.RunKeepsInv` | src/command.rs:196-326 | over every interleaving: at most 50 permits held and all accounted for, registry keys exactly the non-empty ids spawned and not removed, one final result at most per task and the cancelled one iff aborted before it ended, no exempt command turned away, every command routed once |
| `CommandLoop.BusyIffFull` | src/command.rs:249-290 | a valid command is turned away if and only if it needs a permit and all 50 are held; otherwise it gets a task |
| `CommandLoop.AcquireNeverFails` | src/command.rs:249-276 | the branch for a permit that vanished after the check is never taken |
| `CommandLoop.AbortedNeverCompletes` | src/command.rs:306-325 | a task aborted between polls never sends a result of its own, whatever follows, and has sent the cancelled one when it is closed |
| `CommandLoop.AbortedCloses` | src/command.rs:306-325 | a task aborted between polls is closed, with the cancelled result sent, no other, and its permit back, by every run that holds its own next three steps in order, whatever comes between |
| `CommandLoop.AbortedCanClose` | src/command.rs:306-325 | these three steps can always be taken, and free exactly the permit it held |
| `CommandLoop.ReusedIdCannotBeCancelled` | src/command.rs:291-315 | a run in which an id is reused and the first task ends leaves the second task running and not to be found by any cancellation |
| `Monitoring.ConfiguredMeans` | src/monitoring.rs:59-72 | exactly the accepted checks are configured, idle and never run, each key by the last check that has it |
| `Monitoring.KeyInjective` | src/monitoring.rs:338-340 | two supported checks share a key if and only if type and id agree |
| `Monitoring.MonitoringState.constructor` | src/monitoring.rs:24-36 | no checks and no results |
| `Monitoring.MonitoringState.ApplyConfig` | src/monitoring.rs:59-88 | configures the first 256 checks, takes over version and statsd settings, keeps the results, and returns the summary |
| `Monitoring.MonitoringState.DrainResults` | src/monitoring.rs:90-93 | hands out the buffer and empties it |
| `Monitoring.MonitoringState.TakeDueChecks` | src/monitoring.rs:95-113 | starts each idle check that is due exactly once, in any order of the map, and no other |
| `Monitoring.MonitoringState.StartIfDue` | src/monitoring.rs:98-110 | one check is started if and only if it is idle and its interval has passed |
| `Monitoring.MonitoringState.FreeOne` | src/monitoring.rs:115-122 | frees one check with the id if there is one, and with distinct ids that one |
| `Monitoring.MonitoringState.CompleteCheck` | src/monitoring.rs:115-127 | frees the check and buffers the result, dropping the oldest of 4096 |
| `Monitoring.FreesTheRightCheckIff` | src/monitoring.rs:115-122 | a completion is sure to free its running check if and only if no other check has the id |
| `Monitoring.FirstIsFreedSome` | src/monitoring.rs:115-122 | with any fixed order in which checks are looked at, a completion frees a check of its id if there is one |
| `Monitoring.SharedRunsTwice` | src/monitoring.rs:95-122 | of two configured checks with one id, the one looked at first can be started beside its own task |
| `Monitoring.NeverTwiceIff` | src/monitoring.rs:59-127 | for every order in which checks are looked at: over every run of a configuration no check is in flight twice if and only if its ids are distinct |
| `Monitoring.StepKeepsInv` | src/monitoring.rs:59-127 | ticks, completions, drains and quiet configurations keep flags, start times and buffer in line with the history |
| `Monitoring.RunKeepsInv` | src/monitoring.rs:59-127 | over every run of a configuration with distinct ids, and of others applied when quiet, no check is in flight twice, every start waits for its interval, and the buffer is the last min(4096, k) of the k results since the last drain |
| `Monitoring.TickStartsIff` | src/monitoring.rs:95-113 | in terms of the history, a tick starts a check if and only if it is not running and has rested for its interval |
| `Monitoring.ReapplyKeepsInvIff` | src/monitoring.rs:59-88 | applying a configuration while tasks run keeps flags and history in line if and only if its ids are distinct, no task has one of them, and each check never started or did so an interval ago |
| `Monitoring.ReapplyStaysGoodIff` | src/monitoring.rs:59-127 | with distinct ids, whatever happens next keeps checks in flight once and spaced, if and only if the configuration was applied when quiet in that sense |
| `Monitoring.RestartsAtOnce` | src/monitoring.rs:59-113 | the tick after a configuration starts each of its checks, whatever runs and whenever it last started |
| `Monitoring.WrongOneFreed` | src/monitoring.rs:95-122 | even with distinct configured ids, a task of another type with the same id, left from an earlier configuration, frees the check on completion, so that it is started beside its own task |
| `Monitoring.ReappliedRunsTwice` | src/monitoring.rs:59-113 | the run tick, same configuration again, tick has two tasks of a check in flight |
| `BoundedCounters.ColdestUnique` | src/dwaar_analytics.rs:549-556 | the order in which counters are given up has one first counter |
| `BoundedCounters.Coldest` | src/dwaar_analytics.rs:549-556 | the search finds it: lowest count, and the greatest key among equal counts |
| `BoundedCounters.ReplayWithinCap` | src/dwaar_analytics.rs:537-559 | a counter never exceeds its cap |
| `BoundedCounters.EvictsMinimum` | src/dwaar_analytics.rs:549-558 | an eviction gives up one counter of lowest count and touches no other |
| `BoundedCounters.RetainedCount` | src/dwaar_analytics.rs:537-559 | each retained count is the number of adds of its value since it was last inserted |
| `BoundedCounters.CountsConserved` | src/dwaar_analytics.rs:537-559 | retained and evicted counts together are the non-empty adds |
| `BoundedCounters.ExactIff` | src/dwaar_analytics.rs:537-559 | the counter is exact if and only if at most cap distinct values occurred |
| `BoundedCounters.BoundedCounter.constructor` | src/dwaar_analytics.rs:530-535 | an empty counter with a cap of at least one |
| `BoundedCounters.BoundedCounter.Add` | src/dwaar_analytics.rs:537-559 | the counts stay those of the whole history of adds |
| `VisitorBits.MaskTests` | src/dwaar_analytics.rs:216-221 | testing a word against a mask sees exactly its bit |
| `VisitorBits.MarkSets` | src/dwaar_analytics.rs:216-221 | setting a bit adds that position and no other |
| `TopValues.LabelledReplays` | src/dwaar_analytics.rs:177-193 | each top-value counter is the bounded counter of the values of its field |
| `TopValues.TopsCount` | src/dwaar_analytics.rs:167-193 | for each field of a domain's entries: within the cap, exact iff no more values than that, retained plus evicted equal to the values recorded |
| `TopValues.TopCounters.constructor` | src/dwaar_analytics.rs:151-162 | twelve empty counters with their caps |
| `TopValues.TopCounters.AddLabel` | src/dwaar_analytics.rs:177-193 | adds to the one counter and leaves the others |
| `TopValues.TopCounters.AddPlain` | src/dwaar_analytics.rs:177-181 | adds values to their counters in order |
| `TopValues.TopCounters.AddUtm` | src/dwaar_analytics.rs:182-191 | the loop adds each known campaign parameter to its counter and ignores the others |
| `TopValues.TopCounters.RecordLabels` | src/dwaar_analytics.rs:177-193 | an entry adds exactly its labels |
| `DomainTallies.BoundMeans` | src/dwaar_analytics.rs:884-894 | a bound is not exceeded exactly when the bucket is at or before it |
| `DomainTallies.LatencyBucketIndex` | src/dwaar_analytics.rs:884-894 | the loop finds the first bucket whose bound is not exceeded, or the last |
| `DomainTallies.StatusClassIndex` | src/dwaar_analytics.rs:862-871 | the class of a status is its hundreds, and only 100 to 599 have one |
| `DomainTallies.DomainBucket.constructor` | src/dwaar_analytics.rs:138-165 | empty tallies and counters and a bitmap of the configured size |
| `DomainTallies.DomainBucket.MarkUnique` | src/dwaar_analytics.rs:208-222 | marks the visitor's position, counting it the first time only |
| `DomainTallies.DomainBucket.CountViews` | src/dwaar_analytics.rs:168-175 | counts the view, its bytes, and it as human or bot, and keeps its timestamp |
| `DomainTallies.DomainBucket.CountClasses` | src/dwaar_analytics.rs:194-201 | counts the status class and the latency buckets |
| `DomainTallies.DomainBucket.RecordVisit` | src/dwaar_analytics.rs:168-176 | views and visitor of an entry |
| `DomainTallies.DomainBucket.RecordDetails` | src/dwaar_analytics.rs:177-201 | top values and classes of an entry |
| `DomainTallies.DomainBucket.Record` | src/dwaar_analytics.rs:167-201 | recording an entry in place is the step of the tallies, top values included |
| `DomainTallies.BitsAreVisitors` | src/dwaar_analytics.rs:208-222 | the set bits are exactly the positions visitors hash to, and the bit count is their number |
| `DomainTallies.ViewsCounted` | src/dwaar_analytics.rs:167-176 | page views are all entries, human plus bot; bytes are their sum, saturated; the timestamp is the last one |
| `DomainTallies.ClassesCounted` | src/dwaar_analytics.rs:194-201 | every class counter is the number of entries of its class |
| `DomainTallies.LatencyBalances` | src/dwaar_analytics.rs:197 | the response-latency buckets add up to the page views |
| `DomainTallies.TallyBalances` | src/dwaar_analytics.rs:167-222 | page views = human + bot = sum of latency buckets, and bound the distinct positions |
| `Analytics.LinesConserved` | src/dwaar_analytics.rs:279-308 | lines = page views over domains + malformed + dropped, and domains stay within the cap |
| `Analytics.DomainsWhole` | src/dwaar_analytics.rs:279-308 | a domain is kept with all of its lines or not at all, and left out only by a full collector |
| `Analytics.UpdatedIsFold` | src/dwaar_analytics.rs:303-307 | recording into one bucket keeps every bucket the fold of its own entries |
| `Analytics.FoldIsTally` | src/dwaar_analytics.rs:167-201 | a bucket recorded entry by entry holds the tallies and top values of its history |
| `Analytics.Collector.constructor` | src/dwaar_analytics.rs:264-277 | an empty collector with room for one domain at least |
| `Analytics.Collector.RecordMalformed` | src/dwaar_analytics.rs:335-341 | counts a malformed line |
| `Analytics.Collector.RecordLine` | src/dwaar_analytics.rs:279-308 | empty, oversized, unparsable and domainless lines are malformed; the others are recorded |
| `Analytics.Collector.RecordEntry` | src/dwaar_analytics.rs:295-307 | an entry is dropped exactly when its domain is new and the collector full |
| `Analytics.Collector.RecordInBucket` | src/dwaar_analytics.rs:303-307 | get-or-insert and record updates the one bucket |
| `Analytics.InOrder` | src/dwaar_analytics.rs:429-439 | one snapshot per domain, sorted by name |
| `Analytics.PutInOrder` | src/dwaar_analytics.rs:434 | one more snapshot keeps them sorted and adds its domain |
| `Analytics.PlaceFor` | src/dwaar_analytics.rs:434 | where a domain belongs in that order |
| `Analytics.Collector.CollectAndReset` | src/dwaar_analytics.rs:318-325 | hands out everything since the last reset, sorted by domain, and starts over |
| `Analytics.DrainAccounts` | src/dwaar_analytics.rs:279-325 | what is handed out accounts for every line, and each domain's tallies are those of exactly its own lines |
| `SelfUpdate.FileSystem.NewTemp` | src/self_update.rs:59-94 | creates an empty file that did not exist, under the first free of 100 names, or changes nothing |
| `SelfUpdate.FileSystem.Append` | src/self_update.rs:390-394 | a write appends, or fails leaving anything in that file only |
| `SelfUpdate.FileSystem.Install` | src/self_update.rs:459-479 | the rename replaces the target and removes the temporary file, or nothing changes |
| `SelfUpdate.WriteChunkCapped` | src/self_update.rs:378-396 | a chunk is written iff it fits 128 MiB, keeping file, hash and count in step |
| `SelfUpdate.ReceiveChunks` | src/self_update.rs:271-298 | the loop accepts iff chunk i carries number i, the first chunk's claims hold, and all fit |
| `SelfUpdate.StreamAgentBinary` | src/self_update.rs:243-316 | succeeds iff the stream is complete, with its chunks in order in the file and any declared size met |
| `SelfUpdate.CopyPieces` | src/self_update.rs:398-457 | the copy loop keeps file and hash in step and stops at the limit |
| `SelfUpdate.CopyReaderCapped` | src/self_update.rs:318-376 | a reader is copied whole, or fails; the file is started over first |
| `SelfUpdate.Transfer` | src/self_update.rs:130-155 | inline, streamed, or the fallback after any failure of the stream delivers what the specification says, touching only the temporary file |
| `SelfUpdate.UpdateAgent` | src/self_update.rs:119-180 | every file stays as it was, or exactly the target is replaced by the delivered bytes, within 128 MiB and with the expected checksum; the latter iff a temporary file, a complete delivery, the checksum and the rename were had |

## Left out

- Spool segment file names: files are keyed by their sequence number; formatting, parsing and other directory entries are not modelled.
- Spool I/O errors partway through an operation, torn payloads found at open, and poisoned locks: directories hold whole frames and every file operation is total.
- Overflow of the 64-bit byte and record counters of the spool; the scanner's overflow check and the saturation of sequence numbers are modelled.
- DiskSpools.Perform: operations that hand out a sequence number twice are left out, since cached state and files then part; `DiskSpools.DiskSpool.AppendBytes` and `DiskSpools.ReuseTruncates` say what they do.
- DiskSpools.Replay: so are runs that contain such an operation.
- LogForwarding.StepKeepsInv: so are pushes that hand out a sequence number twice.
- LogForwarding.RunKeepsInv: so are runs that contain such a push; the protobuf decoder is a parameter, the reply of the backend is an input, and waiting and reconnecting are left out.
- Configuration payload parsing and value validation, and the restart plan that goes with a patch.
- ConfigPatch.ExtractAfterUpsert: files are well-formed (each line moves the depth by at most one, never below zero, back to zero at the end) and the written line is balanced; `ConfigPatch.UpsertFoundIff` says what happens otherwise.
- CI plan validation, process execution, environment merging, logs, artifacts and service containers: how each phase and each step ends is an input.
- Cache copies that fail halfway, symbolic links and path canonicalization: a save is complete or not begun, and entries are told apart by path.
- Redaction.SecretRedactor.Redact: texts and secrets are their UTF-8 bytes; a match on bytes is a match on characters.
- CommandLoop.RunKeepsInv: shutdown, reconnection and dropped result channels are left out; a handler is a sequence of polls of which the last sends its result or fails.
- CommandLoop.CommandCancels.Cancel: runs its look-up and its abort in one call, while `CommandLoop.RunKeepsInv` lets other steps come between the two.
- Monitoring.MonitoringState.ApplyConfig: which targets are valid is a parameter.
- Health checks themselves (HTTP, TCP and process probes) and their timeouts.
- BoundedCounters.RetainedCount: histories of up to 2^64 - 1 adds, beyond which counts saturate; the sorted listing of a counter is left out.
- DomainTallies.DomainBucket.constructor: error signals are left out.
- DomainTallies.DomainBucket.Record: error signals are left out, and latencies are real numbers.
- Analytics.FoldIsTally: so they are here.
- Analytics.Collector.RecordLine: the JSON parser is a parameter, the history since the last reset is below 2^64 lines, and buckets are values owned by the map.
- The logarithmic visitor estimate and other floating-point code.
- SelfUpdate.UpdateAgent: the payload parser, the checksum function, what the network and `curl` deliver and where writes fail are inputs; removing the temporary file always succeeds, and permissions, restarts and progress messages are left out.
- gRPC, TLS, key exchange and encryption, Docker, git and systemd, and the handlers that only validate arguments and call out.
