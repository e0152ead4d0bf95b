# ULPF: verified models

ULPF takes log lines from files and sockets, stores every event in an append-only, hash-chained
store, parses it, and writes one output line per event. This project models the parts of it
whose correctness is hardest to see, and proves what they promise:

- **The store and its recovery** (`Bytes`, `Disk`, `StoreFormat`, `Recovery`, `CrashImages`,
  `Durability`, `TornRecords`, `RestartedRecovery`, `RawStore`). A segment and an index sit behind two buffers that drain on their
  own, so a kill leaves an arbitrary prefix of each, and zeros that an earlier recovery left may
  stand behind either. `Recovery` is `recover` as functions of the two files; `RawStore` has the
  same loops over file objects, proved equal to them, and the class `RawStore` with `open`,
  `append`, `flush` and `get`. `CrashImages` proves what recovery yields for every image,
  `Durability` what holds over every sequence of appends, flushes and kills, and `TornRecords`
  exactly when a kill brings an unflushed record back altered, and `RestartedRecovery` that a kill
  during recovery itself changes nothing.
- **Reading and attesting** (`RawReader`, `Attestation`). Opening a snapshot, `verify`, the
  attestation document, and what agreement with one proves.
- **From input to output** (`Framing`, `Ingest`, `OutputLines`, `FileLines`, `Pipeline`,
  `PipelineRuns`, `Listeners`, `OutFile`). Framing in
  chunks, resumed ingestion, the repair of an output cut anywhere, the pipeline of producers,
  workers and the output thread as a step system with kills, and the binary search over the output.
- **Template inference** (`Align`, `Lcs`, `Tokens`, `Columns`, `Cluster`, `Runs`). The affine-gap
  alignment, the tokenizer, the fold of every line into columns, and the passes that collapse runs.
- **Printers and parsers** (`Template`, `Cef`, `Diff`). The pattern language, CEF escaping, and the
  unified diff with patch application as its inverse.
- **Time** (`Calendar`, `TimePolicy`, `Rfc3339`). Civil dates over all integers, the policy for
  timestamps without a year, and the RFC 3339 printer and reader (section 5.6 of RFC 3339).

`dafny verify dfyconfig.toml` checks the whole project.

SHA-256 is a function parameter of which nothing is assumed, except where a statement says so:
`TearShows` (the chain value computed for an index entry torn inside its offset is not the 32 zeros
in its place), for that entry of that image alone, and `NoCollisionAt` (two given inputs that hash
alike are equal) for the records an attestation compares. The
random bytes of a new store id are a parameter of `RawStore.Open`.

## What the proofs found

- **A torn body can be accepted.** `zero_tail` leaves file lengths alone, so after one recovery a
  later kill can leave a record torn inside its body whose missing bytes read as zeros. Recovery
  keeps it without hashing the bytes whenever its place lies below `indexed`: because its index
  entry is whole, or because the entry never reached the disk and zeros of an earlier recovery are
  counted in its place (`TornRecords.TornBodyAccepted` covers both). `TornRecords.KillExact` gives
  the exact condition on any image a kill can leave: recovery yields just the whole records if and
  only if its record check finds nothing at the cut, and `TornRecords.UnalteredExactly` says when
  what it does find is what was appended. `TornRecords.TwoKillsAlter` builds a run of two kills
  that alters a record over any history, with or without the index entry on disk.
  `Durability.KillLeaves` bounds the damage: at most one record a kill, the last one, never a
  flushed one, and only where zeros trail the segment; `verify` names it
  (`RawReader.VerifyNamesTheDishonest`).
- **The chain covers bytes, not the whole record.** The comment at the head of `store.rs` says that
  changing any byte of a record changes the chain. The receipt time and the source enter neither
  the digest nor the chain (`Attestation.ReceiptAndSourceUncovered`).
- **A listener can overtake recovery.** A comment in `recover_output` says that a running listener
  must not slip a batch ahead of the recovered ones; taking the sequence number under the store
  lock does not prevent it, since `serve` starts the listeners and the output thread first. Four
  runs in `Listeners` show what can come of it: the lines of ids 1, 0 and 1 (`ListenerOvertakes`);
  a record that never gets a line, because a listener's later line was in the file when recovery
  read its end (`ListenerHides`), or because a second kill cut the output behind that line
  (`SecondKillHides`, where the last run itself has no early batch); and no harm at all
  (`ListenerInTime`). Over every run, whatever was stored or killed when, and with nothing in
  flight, the output is the line of every stored record once and in order if and only if what
  recovery found was so up to the id it went on from and no early batch came behind it
  (`PipelineRuns.OutputExactly`); lines are lost if and only if one was missing below that id
  (`PipelineRuns.LossExactly`); `PipelineRuns.DuplicatesExactly` is the same for repeats. In `run`
  the files are read after recovery, so `PipelineRuns.ExactlyOnce` applies.
- **A line longer than the window can stop the repair.** `recover_output` looks at the last MiB
  only. `OutputLines.CutExactly` says exactly when it still goes on at the right id, and
  `OutputLines.LongLineStops` has a cut at which it names none.
- **Printing a template is not always undone.** `{?a}` followed by a constant that starts with `}`
  prints to a text that parses to something else (`Template.GroupBeforeBrace`).
  `Template.RoundTrip` gives the exact condition, and `Template.ParsedRoundTrips` shows that no
  template that came from a text is affected.
- **A stray digit behind a zone's hours is accepted.** The comments list `Z`, `+HH:MM`, `+HHMM` and
  `+HH`; the code also takes `+053`, as five hours. `Rfc3339.StampExactly` has every form there is.
- **CEF values lose blanks at their end** when another field follows (`Cef.RoundTrip` is an
  if-and-only-if; `Cef.PrintedParses` says what comes back in general).

## Model

| member | source | states |
|---|---|---|
| StoreFormat.SegInjective | crates/ulpf-store/src/store.rs:3-5 | Two histories, of whatever lengths, that write the same segment are the same history |
| StoreFormat.HeaderFields | crates/ulpf-store/src/store.rs:234-240 | Every field of a record header is read back from the bytes that `append` lays out |
| StoreFormat.FramedAt | crates/ulpf-store/src/store.rs:245-248 | Record i of a history stands in the segment exactly between its offset and the next |
| StoreFormat.EntryAt | crates/ulpf-store/src/store.rs:241-247 | Entry i of the index stands at its place and holds the record's offset and the chain value of the prefix |
| StoreFormat.NextOffset | crates/ulpf-store/src/store.rs:519-520 | The length field of record i says where record i + 1 starts |
| Recovery.FindsWhole | crates/ulpf-store/src/store.rs:509-534 | A record that lies whole in the segment prefix is found at its offset with its own end and digest, hashed or not |
| Recovery.RecordEndExactly | crates/ulpf-store/src/store.rs:509-534 | On any bytes a record is found exactly where one stands whole, framed under that id and, if hashed, honest, with its end and digest |
| Recovery.FindsNothing | crates/ulpf-store/src/store.rs:509-518 | Where nothing or only zeros are left no record is found |
| Recovery.FindsTorn | crates/ulpf-store/src/store.rs:519-531 | If the bytes of a record end early, anything found there ends past the last byte that reached the disk |
| Recovery.FoundIsKept | crates/ulpf-store/src/store.rs:466-475 | Whatever recovery reads after the first i records is record i itself, or the one altered record with only zeros behind it |
| CrashImages.EntryOfImage | crates/ulpf-store/src/store.rs:450-461 | An index entry of a crash image that passes the link test has its offset on disk in full and it is its record's; one torn inside the offset, or beyond the tear, never passes |
| CrashImages.BackwardAgreed | crates/ulpf-store/src/store.rs:446-463 | Dropping entries from the back stops at a state where both files begin with those of one history |
| CrashImages.ForwardAgreed | crates/ulpf-store/src/store.rs:464-475 | Indexing complete records again keeps both files those of one history and finds every record of the prefix |
| CrashImages.FlushedIsLinked | crates/ulpf-store/src/store.rs:446-463 | The entry of the last flushed record is always accepted, so no flushed record is dropped |
| CrashImages.RecoverRebuilds | crates/ulpf-store/src/store.rs:439-479 | For every crash image, zeros behind it included, recovery leaves both files those of one history plus zeros, shrinks neither, and keeps every flushed record |
| CrashImages.RecoverExact | crates/ulpf-store/src/store.rs:435-479 | If both files are plain prefixes, in either drain order, recovery yields exactly the whole records of the segment prefix, whatever the hash |
| CrashImages.RecoverIdempotent | crates/ulpf-store/src/store.rs:439-479 | Running recovery over a recovered store changes nothing |
| CrashImages.RecoverStopsAt | crates/ulpf-store/src/store.rs:464-477 | Recovery yields just the whole records exactly if the second loop finds none at the cut, wherever the first loop left off |
| Durability.RebuiltUnique | crates/ulpf-store/src/store.rs:435-438 | The history recovery rebuilds is determined by the files it leaves |
| Durability.KillLeaves | crates/ulpf-store/src/store.rs:439-503 | One kill keeps the flushed records, cuts the rest to the records whose bytes reached the disk, and alters at most one, the last, and only where zeros trail the segment |
| Durability.StepKeeps | crates/ulpf-store/src/store.rs:229-252 | Every append, flush and kill keeps the history valid and keeps its flushed records |
| Durability.FlushedForever | crates/ulpf-store/src/store.rs:18-24 | Over every run of appends, flushes and kills a flushed record keeps its id, bytes, place and chain value, and its id is never handed out again |
| TornRecords.KillExact | crates/ulpf-store/src/store.rs:439-479 | A kill and recovery leave exactly the whole records if and only if all of them are whole or the record check, hashing past `indexed` only, finds nothing at the cut |
| TornRecords.UnalteredExactly | crates/ulpf-store/src/store.rs:439-479 | No record comes back altered if and only if, besides, what is found at the cut are the very bytes that were appended |
| TornRecords.TornBodyAccepted | crates/ulpf-store/src/store.rs:464-477 | On every crash image whose last record is torn inside its body and lost a non-zero byte, with zeros behind the cut and an index file past its entry, whole or not, recovery rebuilds that record with other bytes than were appended |
| TornRecords.TwoKillsAlter | crates/ulpf-store/src/store.rs:464-503 | Over any history a first kill that tears a record and a second that tears a shorter one make a run that alters it, whether or not its index entry reached the disk |
| RestartedRecovery.RecoveryRestarts | crates/ulpf-store/src/store.rs:439-504 | Killed at any byte of its writes, to the index entries, over the index tail or over the segment tail, recovery run again ends with the files, count and head it would have ended with |
| RawStore.ZeroTailInFile | crates/ulpf-store/src/store.rs:491-504 | The chunked overwrite zeroes exactly the tail and changes neither the rest nor the length |
| RawStore.RecordEndInFile | crates/ulpf-store/src/store.rs:509-534 | The seeks and reads over the segment file find what the record scan says |
| RawStore.RecoverInPlace | crates/ulpf-store/src/store.rs:439-479 | The two loops over the files leave both files and return the count, end and head that recovery says |
| RawStore.ReadHeaders | crates/ulpf-store/src/store.rs:137-146 | A new store gets its headers, a known one its id back, and anything else is refused untouched |
| RawStore.Open | crates/ulpf-store/src/store.rs:129-163 | Opening whatever a kill left of a store hands the same store back, nothing flushed lost; other files fare as the header checks and recovery say |
| RawStore.RawStore.constructor | crates/ulpf-store/src/store.rs:147-163 | The writers stand at the ends it is given, with empty buffers; `Open` shows that these are the ends recovery found |
| RawStore.RawStore.Append | crates/ulpf-store/src/store.rs:229-252 | An event takes the next id and adds one honest record, a link and an entry to the history; one of 4 GiB or more is refused and changes nothing |
| RawStore.RawStore.Flush | crates/ulpf-store/src/store.rs:323-331 | Both buffers are empty and every record counts as flushed |
| RawStore.RawStore.Get | crates/ulpf-store/src/store.rs:257-285 | Every id handed out reads back its record, with the appended bytes; other ids read nothing |
| RawStore.RawStore.DiskIsCrashImage | crates/ulpf-store/src/store.rs:151-163 | At every moment the two files are a crash image of the history, so a kill loses at most what was never flushed |
| RawReader.Open | crates/ulpf-store/src/store.rs:646-676 | A snapshot is refused without both magics and otherwise counts entries without the zeros behind them |
| RawReader.OpenCounts | crates/ulpf-store/src/store.rs:667-674 | Opening the files of a history, zeros behind it or not, yields a reader of exactly that history |
| RawReader.ReaderShows | crates/ulpf-store/src/store.rs:691-746 | Such a reader shows every record with its bytes, source, receipt, offset and chain value |
| RawReader.GetExactly | crates/ulpf-store/src/store.rs:727-746 | On any files a record is shown under an id exactly if it stands whole at its entry's offset, framed under that id |
| RawReader.Reader.Verify | crates/ulpf-store/src/store.rs:766-798 | The report lists exactly the ids at fault in order, and the first with its reason |
| RawReader.Reader.FaultyIsAll | crates/ulpf-store/src/store.rs:752-757 | The listed ids are all those below the count that are at fault, each once and increasing |
| RawReader.Reader.ReasonsExactly | crates/ulpf-store/src/store.rs:772-784 | The digest is blamed exactly for an unreadable record or bytes that do not hash to it, the chain exactly for a link that fails alone |
| RawReader.VerifyNamesTheDishonest | crates/ulpf-store/src/store.rs:752-757 | On the files of a history `verify` names exactly the records whose bytes are not the hashed ones |
| RawReader.RecoveredVerifies | crates/ulpf-store/src/store.rs:646-676 | After recovery the store opens, counts what recovery counted, and verifies up to the one altered record |
| Attestation.HexInjective | crates/ulpf-store/src/store.rs:425-433 | Two hex texts are equal, case aside, exactly when the bytes are |
| Attestation.Attest | crates/ulpf-store/src/store.rs:833-862 | The document names the store and holds its chain value at every 4096th id and the last, in order |
| Attestation.CheckAttestation | crates/ulpf-store/src/store.rs:800-831 | It reports no problem exactly when the store has the same identity, enough records, the attested head and every checkpoint; otherwise which check failed first |
| Attestation.LinkIff | crates/ulpf-store/src/store.rs:418-423 | Two chain values agree exactly when the predecessors' values and the records' bytes do |
| Attestation.ChainIffBytes | crates/ulpf-store/src/store.rs:11-15 | The chain value at an id agrees exactly when all bytes of all records up to it do |
| Attestation.AttestationSound | crates/ulpf-store/src/store.rs:759-764 | A verified store that agrees with another's attestation holds the same bytes in all attested records |
| Attestation.AttestationExact | crates/ulpf-store/src/store.rs:800-831 | A verified store is accepted if and only if it has the same identity, at least as many records and the same bytes in each attested one |
| Attestation.AttestationLocates | crates/ulpf-store/src/store.rs:759-764 | If the first record in which a verified store differs is n, the reported bad checkpoint is the least attested id at or after n |
| Attestation.ReceiptAndSourceUncovered | crates/ulpf-store/src/store.rs:11-15 | Rewriting receipt time and source changes no chain value and leaves every record verified |
| Framing.LineIff | crates/ulpf-store/src/frame.rs:40-47 | A line ends right behind its first terminator, or with a complete input that has none, and nowhere else |
| Framing.Framer.Next | crates/ulpf-store/src/frame.rs:52-72 | The next range is the next event, and the position moves to its end |
| Framing.Drain | crates/ulpf-store/src/frame.rs:32-36 | An exhausted framer has yielded all events, and `remainder` is what is left behind them |
| Framing.Lossless | crates/ulpf-store/src/frame.rs:49-72 | Events and remainder concatenate to the input |
| Framing.EventStays | crates/ulpf-store/src/frame.rs:40-47 | A decided event is not changed by bytes that arrive later |
| Framing.OneSplit | crates/ulpf-store/src/frame.rs:32-36 | Framing a chunk, carrying the remainder and going on yields the events of the whole |
| Framing.ChunkingIrrelevant | crates/ulpf-store/src/frame.rs:32-72 | The same for every split of the input into any number of chunks |
| Framing.MatchesReference | eval/lib/frame.py:18-43 | The framing of a whole input is splitting it into lines and grouping continuation lines |
| Ingest.StoreBatch | crates/ulpf/src/engine.rs:1930-1938 | Under one lock every range of the batch becomes one record of the source with the batch's receipt, in order, and all of them are flushed; it fails only on an event of 4 GiB or more |
| Ingest.IngestFile | crates/ulpf/src/engine.rs:1907-1965 | A pass stores a prefix of the events of the file from its start, batch by batch with each batch's receipt: all of them if no stop was requested at a boundary, just the full batches up to the first boundary where one was, and up to the first event the store refuses otherwise |
| Ingest.ResumePass | crates/ulpf/src/engine.rs:1696-1701 | A pass from the resume offset is a step of the runs below, however it ends, and returns the next resume offset; a finalizing pass that nobody stops leaves the source with the whole file |
| Ingest.CleanKill | crates/ulpf-store/src/store.rs:439-479 | A kill leaves a prefix of the records if and only if no record comes back altered, and always if no zeros stand behind the segment |
| Ingest.StepConserves | crates/ulpf/src/engine.rs:1927-1929 | Growth, a pass and a kill each keep every source's stored bytes a prefix of its file |
| Ingest.RunConserves | crates/ulpf-store/src/store.rs:299-305 | Over every run the records of a source concatenate to a prefix of its file as long as the resume offset |
| Ingest.FinalPassIsWhole | crates/ulpf/src/engine.rs:1860-1864 | A finalizing pass that is not stopped leaves the whole file as it saw it |
| Ingest.IngestedBytes | crates/ulpf-store/src/store.rs:306-320 | The sums per source are the lengths of their stored bytes; an unreadable record is an error |
| OutputLines.LastNewline | crates/ulpf/src/engine.rs:1608-1623 | The last terminator, or none if there is none |
| OutputLines.RecoverOutput | crates/ulpf/src/engine.rs:1597-1633 | The repaired file and the next id are those of the cut over its bytes |
| OutputLines.CutKeepsWholeLines | crates/ulpf/src/engine.rs:1608-1633 | An output cut anywhere loses exactly its torn line and resumes at the first id whose line is not whole, if the last whole line and the tear fit the window |
| OutputLines.CutExactly | crates/ulpf/src/engine.rs:1603-1633 | It does so if and only if they fit, or the window starts inside the last whole line and the rest of that line still reads as its id |
| OutputLines.LongLineStops | crates/ulpf/src/engine.rs:1615-1622 | A line longer than the window, cut just before its terminator, stays in the file and names no id |
| Pipeline.KillKeeps | crates/ulpf/src/engine.rs:1597-1633 | A kill at any byte, of any run, leaves a file and a store that a run can begin with: unless a line was glued to a torn one, no complete line reads as an id the store lacks |
| Pipeline.TurnKeeps | crates/ulpf/src/engine.rs:1927-1946 | Reading the end of the output, cutting it, reading the length, recovering, storing at any time, sending, taking, rendering, receiving, writing and flushing each keep the invariant of the pipeline |
| Pipeline.StoreSurvives | crates/ulpf-store/src/store.rs:439-479 | A kill and recovery of the store model is a kill of this system: the store keeps at least what was flushed |
| FileLines.CutInWindow | crates/ulpf/src/engine.rs:1608-1633 | With the last line in the window the repair keeps the complete lines and reads the last one |
| PipelineRuns.SequenceIffOrder | crates/ulpf/src/engine.rs:2096-2175 | At any moment what a run has written behind what recovery read is in sequence exactly if each written batch was numbered at the end of the batches before it |
| PipelineRuns.ExactlyOnce | crates/ulpf/src/engine.rs:2096-2175 | In every run in which nobody stores before recovery is through, at every moment, the output is the lines of ids 0, 1, ... each once, in order, none past the store, but for a torn end recovery has yet to cut, and so is what any kill leaves of it |
| PipelineRuns.QuietMeansWritten | crates/ulpf/src/engine.rs:2096-2175 | In such a run, with no batch in a channel or in hand, the reorder buffer is empty and every stored record has its line |
| PipelineRuns.OrderExactly | crates/ulpf/src/engine.rs:1660-1664 | In every run, with nothing in flight, what was written behind what recovery read is in order, each id once, from where recovery went on, if and only if no batch was stored before recovery had numbered its last one but those whose lines it found in the file |
| PipelineRuns.RepeatsExactly | crates/ulpf/src/engine.rs:1634-1650 | In every run, with nothing in flight, some id is written twice behind that if and only if such a batch was stored before recovery read the store's length |
| PipelineRuns.OutputExactly | crates/ulpf/src/engine.rs:1573-1578 | In every run, with nothing in flight, the whole output is the line of every stored record, once and in order, if and only if what recovery found was that up to the id it went on from, and no early batch came behind |
| PipelineRuns.DuplicatesExactly | crates/ulpf/src/engine.rs:1573-1578 | Some id has two lines in the whole output if and only if it had in what recovery found, or a line found there is of an id recovery went on to, or a batch was stored before the length was read |
| PipelineRuns.LossExactly | crates/ulpf/src/engine.rs:1573-1578 | Every stored record has a line in the whole output if and only if none was missing, in what recovery found, below the id it went on from |
| PipelineRuns.KillLosesNothing | crates/ulpf/src/engine.rs:1597-1633 | A kill on a run without an early batch keeps it so: none missing below the old id, none missing below the one the next run goes on from |
| Listeners.ListenerOvertakes | crates/ulpf/src/engine.rs:1732-1744 | A run with one kill and one early batch whose output has the lines of ids 1, 0 and 1 |
| Listeners.ListenerHides | crates/ulpf/src/engine.rs:1597-1633 | A run in which a listener's line is in the file before recovery reads it, and record 0 never gets one |
| Listeners.SecondKillHides | crates/ulpf/src/engine.rs:1597-1633 | A run with two kills that loses the line of record 0 and ends without an early batch |
| Listeners.ListenerInTime | crates/ulpf/src/engine.rs:1597-1633 | A run in which a listener stores before recovery reads the output, and the output is in order |
| OutFile.LastTerminator | crates/ulpf/src/outfile.rs:116-130 | One past the last terminator, or 0 without one |
| OutFile.Output.constructor | crates/ulpf/src/outfile.rs:29-35 | The snapshot ends at the last terminator and holds whole lines only |
| OutFile.Output.LineAt | crates/ulpf/src/outfile.rs:36-45 | The line that starts at an offset with its terminator, none at the end |
| OutFile.Output.NextStart | crates/ulpf/src/outfile.rs:47-68 | The first line start at or after an offset, or the end |
| OutFile.Output.LowerBound | crates/ulpf/src/outfile.rs:70-99 | On ordered lines the offset of the first line whose id is at least the target, for any line lengths |
| OutFile.Output.Walk | crates/ulpf/src/outfile.rs:79-91 | When no line starts in the upper half the walk finds the same offset |
| OutFile.Output.Find | crates/ulpf/src/outfile.rs:101-111 | On ordered lines a line is returned exactly if one carries the id, and it is that line |
| OutFile.EmittedIsOrdered | crates/ulpf/src/engine.rs:2096-2175 | The lines the pipeline writes are ordered as the search needs, and an id is found exactly if it is below their number |
| Lcs.Table | crates/ulpf-infer/src/align.rs:8-14 | Every table entry is the longest-common-subsequence length of its suffixes |
| Lcs.LengthBounds | crates/ulpf-infer/src/align.rs:5-7 | No common subsequence of two suffixes is longer than the table says, for any relation |
| Lcs.Longest | crates/ulpf-infer/src/align.rs:7-29 | The result is a common subsequence and none is longer |
| Lcs.Similarity | crates/ulpf-infer/src/align.rs:126-133 | Twice the length of a longest common subsequence over both lengths, a share between 0 and 1, and 1 exactly for equal lists |
| Align.PairsIncrease | crates/ulpf-infer/src/align.rs:40-41 | The matches of an alignment are in range, of positive weight, and increase strictly on both sides |
| Align.Floor | crates/ulpf-infer/src/align.rs:44-74 | Every cell's best score is at least -4; a state no alignment starts in stays at the sentinel |
| Align.TableBounds | crates/ulpf-infer/src/align.rs:61-76 | No alignment from a cell scores more than the table of the state it starts in |
| Align.TraceScores | crates/ulpf-infer/src/align.rs:85-122 | The traceback reaches the end, is an alignment, and scores what its first cell says |
| Align.ChosenIsOptimal | crates/ulpf-infer/src/align.rs:31-41 | No alignment of the two sequences outscores the chosen one |
| Align.ChosenIsFirst | crates/ulpf-infer/src/align.rs:77-84 | Of all best alignments the chosen one comes first in the order in which matches, substitutions, deletions and insertions are preferred |
| Align.DiagonalWins | crates/ulpf-infer/src/align.rs:31-41 | If every token weighs most against the one at its own place, each is matched with that one |
| Align.FillCell | crates/ulpf-infer/src/align.rs:62-74 | One more cell of all four tables holds its score |
| Align.StepOn | crates/ulpf-infer/src/align.rs:87-114 | One turn of the loop goes where the score it spends is accounted for |
| Align.Traceback | crates/ulpf-infer/src/align.rs:77-123 | Over full tables the loop pushes the matches of the chosen alignment |
| Align.Align | crates/ulpf-infer/src/align.rs:41-124 | The method returns the matches of the optimal alignment |
| Align.AlignPromise | crates/ulpf-infer/src/align.rs:31-41 | The returned pairs are the matches of an alignment that no other outscores; they increase strictly, are in range and weigh something |
| Tokens.HexChain | crates/ulpf-infer/src/token.rs:153-173 | A chain is found exactly if no colon stands before it and seven hex pairs set apart by colons follow; it covers the longest run of pairs, and the colon behind it if a hex digit follows |
| Tokens.BracketGroup | crates/ulpf-infer/src/token.rs:177-197 | A group is found exactly if brackets close over a letter and no blank, bracket or quote |
| Tokens.QuotedEnd | crates/ulpf-infer/src/token.rs:223-233 | The end stands right behind the first quote with an even run of backslashes before it, and there is none exactly if no such quote follows |
| Tokens.WordEnd | crates/ulpf-infer/src/token.rs:129-145 | A word ends where no word byte follows, inner dots and dashes standing between word bytes |
| Tokens.NextToken | crates/ulpf-infer/src/token.rs:86-150 | At every offset the token is blanks to the last, else a chain, else a bracketed group, else the typed atom, else the string to its first closing quote, a word if it is a key of a JSON object, else a maximal word, else one mark |
| Tokens.Tokenize | crates/ulpf-infer/src/token.rs:86-150 | The tokens concatenate to the line, and each is the one that stands at its offset |
| Tokens.TokensOnce | crates/ulpf-infer/src/token.rs:86-150 | A line has exactly one list of such tokens |
| Columns.WeightMeans | crates/ulpf-infer/src/cluster.rs:58-82 | A constant of the same text weighs 3, a typed token of one family 2, blanks among themselves 1, a slot against a token of its family 1, anything else nothing |
| Columns.FoldedConcat | crates/ulpf-infer/src/cluster.rs:107-126 | Folding two stretches one after the other folds their concatenation |
| Columns.FoldedMatch | crates/ulpf-infer/src/cluster.rs:115-121 | A match leaves every other member's text and adds the token's, up to blanks |
| Columns.FoldedTake | crates/ulpf-infer/src/cluster.rs:143-155 | A substitution or one more value of a slot or region changes what the column shows for its member alone |
| Columns.FoldedAbsent | crates/ulpf-infer/src/cluster.rs:140-141 | Columns a member lacks stay and show it nothing |
| Cluster.JoinFor | crates/ulpf-infer/src/cluster.rs:203-212 | A member's part of a region is what its columns read, with their number and the last kind |
| Cluster.Gather | crates/ulpf-infer/src/cluster.rs:200-217 | The region is present for exactly the members some column is, with their joined values and kinds |
| Cluster.RegionShows | crates/ulpf-infer/src/cluster.rs:200-220 | A region reads for every member what the columns it replaces read |
| Cluster.RegionKinds | crates/ulpf-infer/src/cluster.rs:200-217 | A member's value in a region is of the kind it had if one column alone gave it, and free text if more did |
| Cluster.OneWord | crates/ulpf-infer/src/cluster.rs:184-188 | A single word among blanks reads, without blanks, as the run |
| Cluster.Collapse | crates/ulpf-infer/src/cluster.rs:163-221 | A differently shaped run becomes a substitution of its first word, of the first column, or one region, and no text is lost |
| Cluster.Gap | crates/ulpf-infer/src/cluster.rs:133-161 | Between two matches each branch leaves the columns it should, other members read what they read, and the member reads its tokens up to blanks |
| Cluster.TakeRange | crates/ulpf-infer/src/cluster.rs:135 | Every column of a gap is still there to be taken, and is taken once |
| Cluster.AlignMember | crates/ulpf-infer/src/cluster.rs:107-127 | Folding one line in changes no other member's text and adds the line, up to blanks; the columns follow the matches of a best alignment, each in its place and as it was but present for the member, and between two of them stands what the gap becomes |
| Cluster.Consensus | crates/ulpf-infer/src/cluster.rs:97-105 | For every member of every cluster the columns read as its line, up to blanks; equal lines have one column for each token, none of them a substitution or a region |
| Cluster.ColumnsOf | crates/ulpf-infer/src/cluster.rs:1-5 | From the raw lines on, no member's text is lost but blanks, and equal lines have one plain column for each token of the line |
| Runs.Sorts | crates/ulpf-infer/src/cluster.rs:276-282 | A column that ever held a typed value, or is a required constant other than blanks, is an anchor; a slot that never did is a free-text slot |
| Runs.CollapseRun | crates/ulpf-infer/src/cluster.rs:315-335 | A run put into one slot reads for every member, byte for byte, as before, and is optional exactly if some member has nothing there |
| Runs.CollapseMessyRuns | crates/ulpf-infer/src/cluster.rs:288-341 | No member's text changes by a byte, every anchor column survives, in order, no messy stretch between anchors is left, and without one nothing changes |
| Runs.CollapseWordRuns | crates/ulpf-infer/src/cluster.rs:356-402 | No member's text changes by a byte, other columns survive, no run of two slots or more that is due is left, and without one nothing changes |
| Template.FindFromFinds | crates/ulpf-parse/src/template.rs:69-71 | A name finds the type it is the name of, and nothing else |
| Template.FromNameInverts | crates/ulpf-parse/src/template.rs:51-71 | Every type is found by its own name |
| Template.ParseTokens | crates/ulpf-parse/src/template.rs:153-215 | The loop over the iterator returns the tokens, the rest or the error the grammar step function says |
| Template.WriteTokens | crates/ulpf-parse/src/template.rs:217-239 | The printer appends exactly the printed tokens |
| Template.PrintedReads | crates/ulpf-parse/src/template.rs:153-239 | Reading well-formed printed tokens gives them back, inside a group up to its closing brace |
| Template.ParsedIsWellFormed | crates/ulpf-parse/src/template.rs:153-215 | Every parse result has whole non-empty constants, legal names, flat non-empty groups, and no group right before a constant that starts with a closing brace |
| Template.AcceptedIsSpelled | crates/ulpf-parse/src/template.rs:153-215 | A text that is accepted is written, brace by brace, in one of the ways its tokens can be |
| Template.UntypedIsText | crates/ulpf-parse/src/template.rs:193-197 | A slot without a type is one of text |
| Template.RoundTrip | crates/ulpf-parse/src/template.rs:119-124 | Parsing the printed template gives it back if and only if it is well formed |
| Template.ParsedRoundTrips | crates/ulpf-parse/src/template.rs:1-4 | Whatever a text parses to survives printing and parsing |
| Template.GroupBeforeBrace | crates/ulpf-parse/src/template.rs:119-124 | A template of legal parts that does not come back |
| Cef.UnescapeIfNeeded | crates/ulpf-parse/src/structured.rs:65-85 | The fast path and the loop both unescape |
| Cef.EscapeRoundTrip | crates/ulpf-parse/src/structured.rs:65-85 | Unescaping undoes escaping of backslash, pipe, equals sign, line feed and carriage return on every text |
| Cef.SplitPipes | crates/ulpf-parse/src/structured.rs:87-104 | The loop yields the pieces between unescaped pipes, the last taking the rest, all within the text |
| Cef.PiecesExactly | crates/ulpf-parse/src/structured.rs:87-104 | The pieces lie end to end, cut at exactly the unescaped pipes, the last taking the rest |
| Cef.ExtensionPairs | crates/ulpf-parse/src/structured.rs:120-159 | The loops yield the fields between the keys found backwards from unescaped equals signs |
| Cef.MarksExactly | crates/ulpf-parse/src/structured.rs:127-144 | A key is found exactly where an unescaped equals sign follows key bytes that begin at the start or behind a blank |
| Cef.FindTag | crates/ulpf-parse/src/structured.rs:107 | The least offset at which the tag stands, and none exactly if it stands nowhere |
| Cef.RefusedExactly | crates/ulpf-parse/src/structured.rs:106-112 | A record is refused exactly if it has no tag or fewer than eight pieces behind the first |
| Cef.ApplyCef | crates/ulpf-parse/src/structured.rs:106-118 | The headers and fields behind the first tag, in order |
| Cef.ExtMarks | crates/ulpf-parse/src/structured.rs:127-144 | In a printed extension the marks are exactly the keys |
| Cef.PrintedParses | crates/ulpf-parse/src/structured.rs:106-159 | Behind any prefix without a tag, any seven headers and any fields with legal keys come back in order, but for blanks at the end of values another field follows |
| Cef.RoundTrip | crates/ulpf-parse/src/structured.rs:106-159 | They come back exactly if and only if no value that another field follows ends in a blank |
| Diff.EditScript | crates/ulpf/src/pending.rs:425-448 | The script turns one list of lines into the other and keeps as many lines as any script can |
| Diff.Header | crates/ulpf/src/pending.rs:462-470 | The four header numbers are the true starts and lengths |
| Diff.Hunks | crates/ulpf/src/pending.rs:450-480 | The hunks cover every change exactly once, in order, with three lines of context, and join changes at most six lines apart |
| Diff.PatchAll | crates/ulpf/src/pending.rs:453-479 | Strict application of the hunks, every header number and line checked, turns what the script reads into what it writes |
| Diff.PatchBack | crates/ulpf/src/pending.rs:453-479 | The undone hunks turn it back |
| Diff.UnifiedDiff | crates/ulpf/src/pending.rs:416-480 | Within the size limit the diff patches one list into the other and back, and is empty exactly if they agree; past it there is none |
| Calendar.YearOfEra | crates/ulpf-time/src/lib.rs:174-180 | The division formula finds the year of every day of an era |
| Calendar.DateRoundTrip | crates/ulpf-time/src/lib.rs:163-185 | Every valid date comes back from its day number, over all years |
| Calendar.DayRoundTrip | crates/ulpf-time/src/lib.rs:163-185 | Every integer is the day number of a valid date |
| Calendar.Successor | crates/ulpf-time/src/lib.rs:164-198 | Day numbers count dates one by one, through months, leap years and eras |
| Calendar.YearOfDay | crates/ulpf-time/src/lib.rs:174-185 | A day between two new years is a date of that year |
| Calendar.CivilOfEpoch | crates/ulpf-time/src/lib.rs:200-214 | Every instant has a civil time in range and is the instant of it |
| Calendar.EpochRoundTrip | crates/ulpf-time/src/lib.rs:200-236 | From 1970 to the last 64-bit instant, instants come back from civil time |
| Calendar.CivilRoundTrip | crates/ulpf-time/src/lib.rs:216-236 | A civil time comes back from its instant exactly if it is no leap second |
| TimePolicy.CivilDay | crates/ulpf-time/src/lib.rs:745-752 | A date or day of the year lies in the year it was built for |
| TimePolicy.NoYearPolicy | crates/ulpf-time/src/lib.rs:767-782 | A timestamp without a year lands in the receipt's local year or the one before, never more than 7 days after receipt, less than 367 days before it if the date exists that year, and in the receipt's year whenever within the slack |
| TimePolicy.NoYearLands | crates/ulpf-time/src/lib.rs:767-782 | Read back at its offset it is of one of those two years, a leap second being of the year of the second before it |
| TimePolicy.GivenYear | crates/ulpf-time/src/lib.rs:745-766 | With a year the instant is the one whose civil time, where it was written, is that date and time |
| TimePolicy.HourRoundTrip | crates/ulpf-time/src/lib.rs:740-743 | Every hour comes back from how a twelve-hour clock shows it |
| TimePolicy.ZonesAndFlags | crates/ulpf-time/src/lib.rs:725-739 | The zone of the text counts before the default, and each thing assumed is said by its own flag |
| Rfc3339.Cur.Digits | crates/ulpf-time/src/lib.rs:388-401 | Up to so many digits are read as a number, none if too few, and the cursor moves over them either way |
| Rfc3339.Cur.Fraction | crates/ulpf-time/src/lib.rs:406-422 | Digits after the point are scaled to nanoseconds, those beyond nine dropped |
| Rfc3339.Cur.Offset | crates/ulpf-time/src/lib.rs:454-473 | A zone is `Z` or a signed offset below a day |
| Rfc3339.Cur.Hms | crates/ulpf-time/src/lib.rs:513-524 | A time of day with an optional fraction |
| Rfc3339.Read | crates/ulpf-time/src/lib.rs:527-551 | The cursor reader reads exactly the stamps the grammar functions say |
| Rfc3339.StampExactly | crates/ulpf-time/src/lib.rs:526-551 | These are exactly the texts written as date, a `T` or blanks, time, perhaps a fraction, blanks and perhaps a zone, each read as the fields and the signed offset it was written for |
| Rfc3339.ScaledIsFloor | crates/ulpf-time/src/lib.rs:405-422 | A fraction of any length is nanoseconds, rounded down |
| Rfc3339.ZonedRoundTrip | crates/ulpf-time/src/lib.rs:453-473 | The local time of an instant, with any offset of whole minutes in any of the spellings, reads back as the instant rounded down to the millisecond |
| Rfc3339.PrintedReads | crates/ulpf-time/src/lib.rs:242-255 | Every field of a printed 64-bit instant is read back |
| Rfc3339.RoundTrip | crates/ulpf-time/src/lib.rs:242-255 | From 1970 on a printed instant reads back, as RFC 3339 or by guessing, as itself rounded down to the millisecond, with nothing assumed |
| Rfc3339.GuessesRight | crates/ulpf-time/src/lib.rs:696-714 | A stamp is taken as such, bracketed or not; nine digits or more are a number, fewer are not |

## Left out

- PipelineRuns.ExactlyOnce: is about runs in which nobody stores before recovery is through and every line that recovery reads starts in the window; `PipelineRuns.OutputExactly` is about all runs. An output of another store, or a fresh output beside an older store, is not repaired by the engine and not modelled.
- Pipeline.TurnKeeps: abstracts an output line as bytes carrying a raw id and ending in a terminator; what parsing and mapping put into the line is not modelled, nor are metrics, queue depths beyond a capacity, and the engine's other threads.
- Pipeline.LookKeeps: an id that is read from a line glued to a torn one, or from the middle of a line that starts before the window, is assumed to be none beyond the store's; the read of the length and of the last MiB of the file are one step.
- OutputLines.CutKeepsWholeLines: is about cuts whose last complete line and torn tail fit the last MiB; `OutputLines.CutExactly` has the others.
- OutFile.Output.Find: takes the id on a line as a function of the line; the scan for it inside the JSON text is not modelled, nor is a file that shrinks below the snapshot.
- Ingest.RunConserves: covers kills that bring no record back altered, for which `Ingest.CleanKill` has the exact condition; an altered last record would break the prefix, as `TornRecords.TornBodyAccepted` shows.
- PipelineRuns.OutputExactly: and the other statements about the whole output leave out runs in which the end of the output named no id, after which nothing is recovered.
- RestartedRecovery.RecoveryRestarts: is about recoveries that bring no record back altered, and assumes that an index entry whose offset is overwritten half way does not link.
- Ingest.IngestFile: takes the file as a byte sequence that only grows; unreadable and shrinking files, the catalogue rows and the metrics are left out.
- RawStore.RawStore.Append: requires segment offsets to fit 64 bits; offsets of corrupted index entries are added without wrap-around.
- RawStore.Open: the lock, the catalogue, fsync and power loss that reorders writes are not modelled; a buffer may drain any part of itself at any write.
- RawReader.Open: memory mapping beside a live writer is a snapshot of two byte sequences.
- Attestation.AttestationSound: is about stores that verify and records on which the hash does not collide; the texts and dates of the document are left out.
- Align.Align: scores are unbounded integers, where the code has 32 bits and a sentinel at a quarter of their range.
- Lcs.Table: entries are unbounded, where `lcs` has 16 bits.
- Lcs.Similarity: is a real number, where the code has a 64-bit float.
- Tokens.Tokenize: takes the typed-atom regexes as a function that finds a non-empty piece of the line or nothing.
- Cluster.Consensus: columns are values, as they are moved from list to list in the code; the evidence notes are left out.
- `presence_rules` drops rare columns by design, so it is not part of the lossless statements; nor are keyword splitting and slot naming.
- Diff.UnifiedDiff: is over lists of lines and hunks as records; splitting a text into lines (which drops a missing final newline) and the spelling of the header line are left out. A side without lines gets the start line 1, where other tools write 0, and so it is here.
- Template.RoundTrip: messages of parse errors are reduced to their kind and the names they mention.
- Cef.PrintedParses: does not model the reuse of scratch buffers and borrowed slices.
- Calendar.DateRoundTrip: is over unbounded years, where the code casts the year to 32 bits.
- TimePolicy.NoYearPolicy: the zone table is an input, as the offset it has for a name; the bound of 367 days asks that the local time of receipt fits 64 bits, since the code saturates there.
- Rfc3339.RoundTrip: the epoch, syslog, ctime and strftime readers are parameters that the round trip never reaches.
- JSON, LEEF, XML, key-value and delimiter parsing, detection, mapping, the drift window, the desktop shell, the web UI and the command line are not modelled.
