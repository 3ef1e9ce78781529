# Verified model of codex-autoapprover

codex-autoapprover launches Codex behind a local decision broker. The broker
answers permission requests over a socket and appends a private audit log; after
the session the log is read back and folded into a small persisted state file; an
update selector picks a release from a catalogue of manifests. This project
models the parts of that program that carry hard properties and proves them for
every input, every run or every schedule.

`dafny verify dfyconfig.toml` checks everything.

| module | what it models |
|---|---|
| `Broker`, `Ledger` | the accept loop, up to 16 handler threads, the shared ledger and the stop flag, as a transition system over arbitrary interleavings |
| `BrokerGrants`, `BrokerService` | what stands behind a grant and behind each logged line, when a request is granted, and that requests can be served |
| `Audit`, `Outcome` | the lines the broker appends and the reader that reconstructs counts from them |
| `Framing` | length-prefixed frames over partial, interrupted and failing system calls |
| `Ancestry` | the walk up parent processes that decides whose requests count |
| `Observations` | the bounded, saturating list of observations in the state file |
| `StateStore` | lock, load, write-temporary, verify, rename, with any number of processes and a crash at any step |
| `EndToEnd` | sessions through the audit log and the store to the outcome reported |
| `Versions`, `Manifest`, `Selection`, `SelectionLaws` | version syntax, manifest validation, release selection and its laws |
| `Quoting` | the hook command: shell quoting inside a TOML string |
| `Cycles` | the depth-first cycle detector of the roadmap validator |
| `Bundle` | the bounded directory walk and the digest input over a bundle |
| `CargoGraph` | the worklist closure over the resolved Cargo graph |
| `Trace` | the acceptor for Codex execution traces |
| `Common`, `Order` | shared datatypes, stable sorting, strictly sorted sequences |

Where the source changes state step by step the model does so too: classes with
`modifies` clauses (`UpdateState`, `RequestLedger`, `SessionOutcomeAccumulator`,
`Detector`, `Stream`) and methods with loops, each proved against a specification
function or predicate whose own properties are proved as lemmas. Concurrent parts
are state machines over their atomic steps.

## Results worth knowing

Most promises hold as the source intends. These hold only under a condition. The
model states each condition exactly, as an if and only if, and shows an input that
fails it:

- A state update can report an error although it is committed: the directory sync
  comes after the rename. A process that returned an error has committed exactly
  when it had already reached the renamed state (`StateStore.ErrorMeansNotCommitted`,
  `StateStore.CommitMayStillReportError`, `StateStore.CommittedYetReported`).
- The read that looks for trailing data does not retry after an interruption, as
  every other read does, so one interrupted call refuses a complete request
  (`Framing.ReceiveJudges`, `Framing.QuietReceive`,
  `Framing.InterruptedLastReadRefuses`).
- `docs/distribution-handoff.md` says malformed stable versions are rejected, but
  a component may carry a leading `+`. Printing a parsed version gives the same
  text back exactly when it has no plus sign (`Versions.DisplayOfParse`,
  `Versions.PlusSignIsLost`).
- Raising the host runtime keeps a selection exactly when the raised runtime is
  one the selector recognises: a Windows release half other than 1 or 2 makes it
  unknown (`SelectionLaws.RaisingKeepsSelection`, `SelectionLaws.RaisingMayLoseSelection`).
- The hook command survives both layers of quoting exactly when the path has no
  control character other than line feed, carriage return and tab
  (`Quoting.HookCommandRoundTrip`, `Quoting.BellIsNotCarried`).
- A stored hook outcome is the worst ever recorded for its identity, except that
  hook entries without any outcome, a protocol failure on their own, are hidden by
  outcomes none of which is a protocol failure. Counts read from a broker's log
  never look like that (`Observations.StoredHookIsWorst`,
  `Observations.MergedOutcomeIsWorst`, `Observations.MergeMayHideFailure`,
  `EndToEnd.SessionsAlwaysReport`).
- SPDX names are built with hyphens. Two selected packages share one, and their
  relationships are merged, exactly when the hyphen of one key can be read further
  left in the other; every such pair occurs in a graph that is accepted, and none
  among the names Cargo allows (`CargoGraph.SpdxNamesExactly`,
  `CargoGraph.SelectedNamesApart`, `CargoGraph.SpdxNamesMayCollide`,
  `CargoGraph.SpdxNamesApart`).

## Model

| member | source | states |
|---|---|---|
| Broker.CounterIsLiveHandlers | src/broker/linux.rs:269-303 | On every schedule the connection counter is the number of live handlers (plus the one being spawned), never exceeds 16, and the back-out after the increment is never reached. |
| Broker.JoinedExactlyOnce | src/broker/linux.rs:269-303 | When the accept loop has ended, the joined threads are the spawned threads, each once, and all of them have exited. |
| Broker.ReapFinishedWorkers | src/broker/mod.rs:39-49 | One pass joins the finished workers and keeps the others in order; together they are the workers it was given. |
| Broker.SelectSplits | src/broker/mod.rs:39-49 | Splitting the workers by any observation of who has finished loses and duplicates none. |
| Broker.QuietAfterShutdown | src/broker/linux.rs:255-303 | Once `shutdown` has returned, no later step appends a line, grants a request or changes a handler. |
| Broker.ShutdownIsBounded | src/broker/linux.rs:255-303 | After the flag is raised the loop and the handlers together make at most as many steps as there is work left, on every schedule. |
| Broker.ShutdownNeverStuck | src/broker/linux.rs:259-303 | In every reachable state with the flag raised, until `shutdown` has returned, the loop, a handler it waits for, or (once the loop has ended) the launcher can move. |
| Broker.ShutdownCanReturn | src/broker/linux.rs:259-303 | Every run can be continued until `shutdown` has returned. |
| Broker.GrantsAreExclusive | src/broker/linux.rs:410-472 | Over any run the granted requests share one session id and have distinct process sources and distinct inputs, number at most 4096 and at most one without admission; both ledger sets have one entry for each grant. |
| Broker.FewGrantsAfterStop | src/broker/linux.rs:255-257 | After the stop flag is set, at most 16 further requests are ever granted: those already past the check. |
| Broker.LoggedAllowsAreGranted | src/broker/linux.rs:345-376 | Request, allow and emitted lines are no more than the grants the ledger made. |
| Broker.AuditIsReadable | src/broker/linux.rs:305-377 | For every interleaving each prefix of the log has connections >= invoked >= requests >= allowed >= emitted; the reader of a non-empty log returns TooManyRecords exactly above 64 connections and the exact summary otherwise, never Malformed. |
| Broker.InvAlways | src/broker/linux.rs:186-303 | The invariant behind these results holds after every possible schedule. |
| BrokerGrants.GrantsAreDeserved | src/broker/linux.rs:410-472 | On every schedule each granted request was read by a handler, is for PermissionRequest and passes the configured checks, and the identity of the guarded process had been set. |
| BrokerGrants.GrantedExactly | src/broker/linux.rs:458-471 | A request that passed every other check is granted exactly when it can be serialised, has a session, fits beside the earlier grants and there is room: 4096, or one without an admission. |
| BrokerGrants.LogIsTrue | src/broker/linux.rs:330-377 | On every schedule each invoked line carries the event and hash of an input that was read, and each request, allow and emission line the hashes of a granted request. |
| BrokerGrants.StopAdmitsNobody | src/broker/linux.rs:419-457 | After the stop flag no handler passes either check of it any more, and whatever is granted later is the request of a handler that had passed both before. |
| BrokerService.RequestCanBeServed | src/broker/linux.rs:269-377 | From every reachable state of a broker that still accepts, every request that deserves it and fits can be accepted, granted, answered and logged, by its five lines in order. |
| BrokerService.LoopEndsForCause | src/broker/linux.rs:271-302 | The accept loop ends for the stop flag or a failed accept only, and after a failed accept always. |
| BrokerService.NoHandlerAfterLoop | src/broker/linux.rs:271-302 | Once the loop has ended no schedule starts another handler. |
| Ledger.RequestLedger.TryConsume | src/broker/mod.rs:67-98 | The method leaves the ledger unchanged when it refuses, and otherwise moves it to the specified state. |
| Ledger.ConsumeExact | src/broker/mod.rs:67-98 | A ledger that remembers its grants accepts exactly a serialisable request with a non-empty session that matches every earlier one, from a new source and with a new input, within the limits. |
| Ledger.ConsumeStep | src/broker/mod.rs:67-98 | Each call keeps the ledger equal to what was granted and the grants exclusive. |
| Ledger.GrantsAreExclusive | src/broker/mod.rs:60-98 | The same over any sequence of calls from an empty ledger. |
| Audit.TextAppend | src/audit.rs:34-106 | One append adds the record's line and a newline at the end of the file. |
| Audit.ClassifyLine | src/update/outcome.rs:262-278 | The reader assigns to every line the broker can write the kind the writer meant, and rejects a request line for another event. |
| Audit.ClassifyExactly | src/update/outcome.rs:262-278 | What the reader makes of any line at all: the exact texts and prefixes of the five forms. |
| Audit.LineTells | src/audit.rs:34-106 | From its line a record's kind, event class, tool hash and input hash can be told, so no two different records of one event class share a line. |
| Audit.LineEndsIrrelevant | src/update/outcome.rs:262 | Lines that end in CR LF are read like those that end in LF. |
| Audit.LinesOfJoined | src/update/outcome.rs:262 | Splitting the file into lines gives back the lines that were appended. |
| Audit.KindsOfText | src/update/outcome.rs:262-278 | The kinds read from a written log are those of its records, in order. |
| Audit.CountLine | src/update/outcome.rs:263-277 | One line bumps the one counter of its kind, unless that is one too many or the line is malformed. |
| Audit.Tabulate | src/update/outcome.rs:260-278 | The counting loop computes the specified tally, stopping at the first error. |
| Audit.Settle | src/update/outcome.rs:279-295 | The closing checks and the no-decision loop compute the specified counts. |
| Audit.ReadAuditFile | src/update/outcome.rs:236-296 | The whole reader returns what the specification says for any contents. |
| Audit.ReadAuditExactly | src/update/outcome.rs:236-296 | For any file, whoever wrote it: accepted exactly when it is neither empty nor over 64 KiB, every line has one of the five forms and none more than 64 times, and the numbers descend; and the exact counts. |
| Audit.ReadKindsExactly | src/update/outcome.rs:260-278 | Otherwise the first line that is of no form, or one too many, decides the error. |
| Common.ByteSizeExactly | src/update/outcome.rs:244-253 | The size that the limits compare is the length of the UTF-8 form. |
| Common.Utf8Carries | src/update/outcome.rs:244-253 | That form carries each character: its bytes give back its number (section 3 of RFC 3629). |
| Common.ContainsExactly | src/update/outcome.rs:266 | The search for the hash label in an invoked line finds it wherever it stands. |
| Audit.ReadPrefix | src/update/outcome.rs:260-278 | On an ordered log the tally is exact unless connections exceed 64, and then it is TooManyRecords. |
| Audit.TextFits | src/update/outcome.rs:244-253 | A log takes at most 100 bytes for each record, which relates the size limit to the number of records. |
| Audit.ReadOrderedLog | src/update/outcome.rs:236-296 | A non-empty ordered log is never Malformed: it is read exactly, or has too many connections. |
| Outcome.SessionOutcomeAccumulator.RecordHookOutcome | src/update/outcome.rs:193-203 | Bumps the one counter of the outcome, refusing past 64, and leaves the others alone. |
| Outcome.AggregateIsWorst | src/update/outcome.rs:160-177 | The aggregate is the one outcome that is most severe among those recorded; without any, entries mean a protocol failure. |
| Outcome.SessionOutcomeAccumulator.RecordCommandOutcome | src/update/outcome.rs:205-215 | Adds one outcome to the history, of which the field stays the worst. |
| Outcome.SessionOutcomeAccumulator.Finish | src/update/outcome.rs:217-223 | After any sequence of recordings: the worst hook outcome counted, the worst command outcome recorded, and Unknown when none was. |
| Outcome.WorstCommandUnique | src/update/outcome.rs:205-215 | The worst command outcome depends on which outcomes were recorded, not on their order. |
| Observations.UpdateState.RecordObservation | src/update/state.rs:103-197 | The in-place update yields the specified list, and reports success exactly when the input was accepted and the resulting state validates. |
| Observations.UpdateState.Validate | src/update/state.rs:78-101 | The loop accepts exactly the states within bounds whose entries are all valid. |
| Observations.UpdateState.OldestIndex | src/update/state.rs:175-192 | The scan finds the first entry with the least identity. |
| Observations.LeastIndex | src/update/state.rs:175-192 | No identity in the list is before the one chosen, and it is the first such. |
| Observations.AddCountsAt | src/update/state.rs:113-160 | Every counter of a merged entry is the saturated sum, and the result is within bounds. |
| Observations.BeforeExact | src/update/state.rs:294-304 | Identities are ordered by Codex version, then autoapprover version, then operating system. |
| Observations.MergedOutcomeIsWorst | src/update/state.rs:121-169 | Merging two entries reports the more conservative of their outcomes exactly unless one has hook entries without any outcome and the other an outcome that is not a protocol failure. |
| Observations.StoredHookIsWorst | src/update/state.rs:169-172 | Over every run a stored hook outcome is the worst ever recorded for its identity if and only if no entries without outcome are hidden. |
| Observations.MergeMayHideFailure | src/update/state.rs:121-169 | Two accepted calls, for any identity, that leave a successful exchange over a protocol failure. |
| Observations.RunSummarisesHistory | src/update/state.rs:103-197 | After any sequence of calls on a default state the list is strictly sorted, holds exactly the eight greatest identities accepted, and each entry has min(64, sum) counts and the worst command outcome of its identity. |
| Observations.CallTimes | src/update/state.rs:170-197 | Over every run an accepted call stamps the entry of its identity with its second clock reading, and every other stored entry was stored before, unchanged. |
| Observations.StoredTimes | src/update/state.rs:170-197 | After any run a stored time is the reading of the last accepted call for its identity. |
| Observations.AcceptedExactly | src/update/state.rs:103-112 | An observation is accepted exactly when no counter is above 64, its hook outcome is the worst of its counts and one of the two times is not zero. |
| Observations.RunOrderIrrelevant | src/update/state.rs:103-197 | Two sequences with the same accepted observations leave the same list up to time stamps. |
| Observations.EvictedNeverReturns | src/update/state.rs:170-197 | An identity that was evicted or refused is not stored after any continuation. |
| Observations.RecordKeepsValid | src/update/state.rs:103-197 | One call keeps a valid list valid while the clock reads after 1970. |
| Observations.RunValid | src/update/state.rs:103-197 | So does any sequence of calls. |
| Observations.GreatestUnique | src/update/state.rs:39 | The eight greatest identities of a set are determined by the set. |
| StateStore.StateNameAlwaysWhole | src/update/state.rs:554-597 | For any interleaving and any crashes the state name is absent before the first commit and otherwise holds one complete value, the one the commits determine. |
| StateStore.CommitsAreSerial | src/update/state.rs:513-531 | Each commit's value is `record` applied to the value of the commit before it. |
| StateStore.CommitsOnlyGrow | src/update/state.rs:554-597 | A commit is never undone or reordered by later steps. |
| StateStore.NoUpdateLost | src/update/state.rs:513-597 | A process that reported success stays in the history, once and with its own update. |
| StateStore.UpdateCanSucceed | src/update/state.rs:513-597 | From every reachable store with nobody inside, every new process can record every update that the current value admits: it ends with success, and its update is the one new commit. |
| StateStore.NeverStuck | src/update/state.rs:513-597 | The same from every reachable store, whoever is inside and whatever has crashed. |
| StateStore.HolderCanLeave | src/update/state.rs:583-596 | Whoever is inside can give up and leave what is committed as it is. |
| StateStore.NoLitter | src/update/state.rs:593-595 | Without a crash each temporary file belongs to a process still at work on it. |
| StateStore.FailedCreationCleans | src/update/state.rs:562-596 | When the temporary file cannot be created, whatever has its name is removed before the error is reported. |
| StateStore.CrashIsHarmless | src/update/state.rs:554-597 | A crash between any two steps changes no file and no commit and frees the lock. |
| StateStore.MutualExclusion | src/update/state.rs:636-683 | On every schedule at most one process is inside the transaction. |
| StateStore.LockFreeWhenNobodyInside | src/update/state.rs:636-683 | A crash never leaves the lock taken: when nobody is inside, a waiting process can take it. |
| StateStore.ErrorMeansNotCommitted | src/update/state.rs:583-596 | A process that reported an error has committed if and only if it failed after its rename. |
| StateStore.CommitMayStillReportError | src/update/state.rs:587-590 | From every state just after a rename such a failure is possible, and leaves the commit in place. |
| StateStore.CommittedYetReported | src/update/state.rs:587-596 | From every reachable store with nobody inside, and for every update admitted, a run that commits it and reports an error. |
| StateStore.InvAlways | src/update/state.rs:513-597 | The invariant behind these results holds after every possible schedule, including the check of the lock entry before the commit. |
| EndToEnd.StateFileSummarisesCommits | src/update/state.rs:513-531 | With concurrent sessions and crashes, the state file summarises exactly the committed observations. |
| EndToEnd.RecordSession | src/launcher.rs:189-232 | Reading the audit file, recording an unknown command and finishing gives the specified recording, or none when the file cannot be read. |
| EndToEnd.SessionContribution | src/launcher.rs:189-236 | A session contributes the exact counts of its broker's log, or nothing when it had no connection or too many. |
| EndToEnd.SessionsAlwaysReport | src/update/outcome.rs:279-295 | Counts read from a broker's log always have an outcome, so the exception of `MergedOutcomeIsWorst` never arises from sessions. |
| EndToEnd.StoredHookOutcome | src/update/outcome.rs:160-177 | The stored outcome of an identity is ProtocolFailure if and only if some session of it had a connection without an emitted allow, and BrokerAllowUnconfirmed otherwise; saturation never hides it. Its command outcome is Unknown, since sessions never claim one, and its time that of the last recording. |
| EndToEnd.CommitsAreSessions | src/update/state.rs:513-531 | When each process opens the store with its session's recording, every commit is the recording of its process's session. |
| EndToEnd.FileHookOutcome | src/update/state.rs:513-597 | The same for what the state file holds after any schedule of such processes, crashes included, in terms of the sessions that committed. |
| EndToEnd.ObservationCanBeRecorded | src/update/state.rs:513-597 | From every reachable store every accepted observation can still be recorded while the clock is running. |
| Framing.JudgeExact | src/broker/linux.rs:544-561 | Exactly one byte stream stands for each payload of 1 to maximum bytes, and no other stream is worth it. |
| Framing.ReadExactTakes | src/broker/linux.rs:563-595 | A read that succeeds returns the next bytes in order and takes no more. |
| Framing.AcceptedIsJudged | src/broker/linux.rs:544-660 | Under any schedule a request is accepted only when the whole stream is its frame: no zero or oversized length, truncation or extra byte gets through. |
| Framing.ReadExactOutcome | src/broker/linux.rs:563-595 | On every schedule a read ends well, at the end of a stream that is too short, at the deadline, or at a fault that occurred. |
| Framing.ReceiveJudges | src/broker/linux.rs:544-660 | On every schedule the outcome is what the stream alone is worth, or the deadline, or a fault that occurred; an interruption or an empty poll refuses exactly when it hits the call after a complete frame. |
| Framing.QuietReceive | src/broker/linux.rs:544-660 | With partial reads and interruptions alone, however many: a timeout once the calls are used up, a refusal exactly when the call after the frame is interrupted, and otherwise the worth of the stream. |
| Framing.MoreTimeSame | src/broker/linux.rs:563-660 | A later deadline changes no outcome except a timeout. |
| Framing.FairReceive | src/broker/linux.rs:544-660 | Time for more reads than there are bytes rules the timeout out. |
| Framing.ThreeReadsSuffice | src/broker/linux.rs:544-660 | Every payload is received in three reads: header, body and end. |
| Framing.WriteAllSendsPrefix | src/broker/linux.rs:621-648 | A write sends a prefix, and succeeds exactly when the prefix is everything. |
| Framing.WriteFrameOutcome | src/broker/linux.rs:602-648 | On every schedule a sendable payload is written, or the deadline, a fault or a write of nothing that occurred stops it; any other payload is refused before a byte is sent. |
| Framing.FairWriteAll | src/broker/linux.rs:621-648 | Partial writes and interruptions with time for a write of each byte never make a write fail. |
| Framing.RoundTrip | src/broker/linux.rs:544-660 | For every payload and every pair of schedules: a frame that was written whole is received as its payload unless the deadline, a fault or the unrepeated last call comes in between, and only the deadline, a fault or a write of nothing prevents the writing. |
| Framing.QuietRoundTrip | src/broker/linux.rs:544-660 | With partial moves and interruptions alone, however many: the write succeeds or times out, and what was written is received as the payload, times out, or is refused exactly when the call after the frame is interrupted. |
| Framing.FairRoundTrip | src/broker/linux.rs:544-660 | With time enough on both sides there is no timeout: the frame is read whole and nothing is left. |
| Framing.NothingButThePayload | src/broker/linux.rs:544-660 | Whatever fails on either side, a receiver that accepts has the sender's payload and the sender's write succeeded. |
| Framing.InterruptedLastReadRefuses | src/broker/linux.rs:650-660 | A complete request refused because of one interrupted call. |
| Framing.Stream.ReadExactUntil | src/broker/linux.rs:563-595 | The loop over the buffer does what the specification says, byte for byte. |
| Framing.Stream.ReadFrameUntil | src/broker/linux.rs:544-561 | Header, length check and body follow the specification. |
| Framing.Stream.EnsureNoTrailingData | src/broker/linux.rs:650-660 | One read decides, and an interruption is an error. |
| Framing.Stream.WriteAllUntil | src/broker/linux.rs:621-648 | The write loop does what the specification says. |
| Framing.Stream.WriteFrameUntil | src/broker/linux.rs:602-619 | Refuses an empty or oversized payload and otherwise writes header and payload. |
| Framing.Stream.ReceiveRequest | src/broker/linux.rs:316-323 | A frame, and then the end of the stream. |
| Framing.NoFrameBeginsAnother | src/broker/linux.rs:602-619 | No frame is a proper beginning of another, so a partly sent request is never taken for a shorter one. |
| Ancestry.CollectAncestry | src/process/linux.rs:85-114 | The loop ends where the walk along parents ends, with the result that belongs to that end. |
| Ancestry.WalkEndsOnce | src/process/linux.rs:85-114 | A walk on a fixed table ends in one place with one result. |
| Ancestry.EndDecides | src/process/linux.rs:68-114 | The collected records hold the expected identity if and only if it is at most 31 parents above the peer. |
| Ancestry.LoopNeverReaches | src/process/linux.rs:92-99 | Loop is reported only when no walk of any length reaches the expected pid. |
| Ancestry.ValidateAncestry | src/process/linux.rs:68-83 | On a fixed table success is exactly descent within 32 readable, well-formed records and Changed never occurs; on a changing table success implies descent in both readings. |
| Quoting.EscapesAtOnce | src/codex.rs:475-482 | The five successive replacements equal one simultaneous escape of each character. |
| Quoting.BackslashMustComeFirst | src/codex.rs:476-477 | In another order they would not. |
| Quoting.TomlRoundTrip | src/codex.rs:475-483 | A TOML v1.0.0 basic-string reader recovers the value and what follows it exactly when the value has no unescapable control character. |
| Quoting.ShellLineHasTwoWords | src/codex.rs:466-473 | A POSIX shell splits the line into exactly the path and `hook`, for every path, empty or with quotes in it. |
| Quoting.HookCommandRoundTrip | src/codex.rs:388-401 | Through both layers the two words come back exactly when the path is writable, and otherwise the value does not parse. |
| Quoting.BellIsNotCarried | src/codex.rs:388-401 | A path that neither the TOML reader nor the whole reader gets back. |
| Cycles.DetectCycles | src/bin/validate_distribution_roadmap.rs:457-484 | Terminates and accepts if and only if the dependency relation is acyclic; the task it names lies on a cycle. |
| Cycles.Detector.Visit | src/bin/validate_distribution_roadmap.rs:458-476 | The recursive visit finishes the task and restores `visiting`, or names a task on a cycle. |
| Cycles.FinishedNotOnCycle | src/bin/validate_distribution_roadmap.rs:458-476 | No finished task lies on a cycle. |
| Cycles.ClosedStack | src/bin/validate_distribution_roadmap.rs:467-469 | A dependency found on the stack of visits closes a genuine cycle. |
| Bundle.ListFiles | src/artifact.rs:368-410 | Succeeds if and only if the tree has only trusted directories and regular files with Unicode paths, at most 512 directories and 1 to 256 files, and then returns all of them sorted; the check of the directory count never fires. |
| Bundle.ReadEntry | src/artifact.rs:378-403 | One entry keeps the account of what has been read and what is left, or shows the tree unacceptable. |
| Bundle.CountShuffled | src/artifact.rs:378-403 | A tree holds the same things in whatever order its directories are read. |
| Bundle.ListingUnique | src/artifact.rs:405-409 | Two readings of one tree list the same names in the same order, without duplicates. |
| Bundle.NoPathTwice | src/artifact.rs:391-396 | With distinct names in each directory no path occurs twice. |
| Bundle.EncodeInjective | src/artifact.rs:131-134 | The digest input determines the list of names, sizes and file digests, for NUL-free names. |
| Bundle.EncodeLayout | src/artifact.rs:131-134 | One file is its name, a zero byte, its size in eight bytes with the most significant first, and the 64 characters of its digest. |
| Bundle.SameDigestSameFiles | src/artifact.rs:107-135 | Two bundles accepted with the same digest input hold the same files, sizes and digests. |
| Bundle.MeasureFile | src/artifact.rs:113-129 | A file is measured exactly when its size is stable and fits what remains. |
| Bundle.DigestInput | src/artifact.rs:107-135 | Computed exactly when every file is stable and the total is within the limit; the remaining allowance never underflows. |
| CargoGraph.SelectedGraph | scripts/cargo_graph.py:11-66 | Succeeds exactly when the metadata is well formed, every reachable package fits and their keys are distinct; the result describes exactly the reachable packages and the non-dev edges leaving them. |
| CargoGraph.Closure | scripts/cargo_graph.py:36-59 | The worklist terminates and collects exactly the packages reachable through normal or build dependencies, with exactly their edges. |
| CargoGraph.Expand | scripts/cargo_graph.py:48-59 | The dependencies of one package add exactly its edges and targets, or one of them is unacceptable. |
| CargoGraph.ChosenExactly | scripts/cargo_graph.py:54 | The short-circuiting test chooses exactly the dependencies with a normal or build kind. |
| CargoGraph.KindsExactly | scripts/cargo_graph.py:49-54 | The two tests on the kinds accept exactly the non-empty lists of known entries in which one without `kind` comes only after a normal or build one. |
| CargoGraph.FitsExactly | scripts/cargo_graph.py:41-57 | In terms of the input lists: a package fits exactly when it and its node are listed, Cargo.lock has its name and version with the same source, and all its dependencies are proper. |
| CargoGraph.EdgeExactly | scripts/cargo_graph.py:48-59 | The edges of a package are its listed normal and build dependencies. |
| CargoGraph.IndexSize | scripts/cargo_graph.py:20-23 | Comparing the size of a dictionary with its list finds exactly repeated keys. |
| CargoGraph.KeyCount | scripts/cargo_graph.py:60-62 | Comparing the number of keys with the number of packages finds exactly ambiguous identities. |
| CargoGraph.SpdxNamesExactly | scripts/cargo_graph.py:7-8 | Two different keys have one SPDX name if and only if one is the other with its hyphen shifted. |
| CargoGraph.SelectedNamesApart | scripts/cargo_graph.py:60-66 | In an accepted graph the selected packages have different names if and only if no two selected keys are shifted. |
| CargoGraph.EdgesShareRelationship | scripts/cargo_graph.py:63-65 | Two edges become one relationship if and only if their ends are pairwise the same or shifted. |
| CargoGraph.SpdxNamesMayCollide | scripts/cargo_graph.py:11-66 | Every pair of shifted keys occurs in an accepted graph whose two edges become one relationship. |
| CargoGraph.ShiftedExample | scripts/cargo_graph.py:7-8 | Shifted keys exist. |
| CargoGraph.SpdxNamesApart | scripts/cargo_graph.py:7-8 | Keys that Cargo allows never share a name. |
| Trace.Analyze | scripts/inspect_exec_trace.py:32-109 | Accepts exactly the traces within the limits whose lines say, in their own JSON fields: a thread start, a turn start, harmless items, one start of the exact command, updates of it among harmless items, its end with exit code zero, harmless items and the turn's completion; the result is the number of lines. |
| Trace.SymbolMeans | scripts/inspect_exec_trace.py:40-97 | What each event counts as, in its own fields: type, item type, command, identity, status and exit code. |
| Trace.OneCommandOnce | scripts/inspect_exec_trace.py:73-93 | An accepted trace holds exactly one event that starts the command and exactly one that ends it with exit code zero, under one identity. |
| Trace.ClosedExactly | scripts/inspect_exec_trace.py:42-100 | The automaton behind the counters accepts exactly that language. |
| Trace.CheckKind | scripts/inspect_exec_trace.py:49-97 | On each event the counters either follow the automaton or report an error, exactly when the automaton dies. |
| Trace.ReadEvents | scripts/inspect_exec_trace.py:38-100 | The loop and the final check accept exactly when the automaton does. |
| Versions.ParseOfDisplay | src/update/manifest.rs:50-84 | Parsing a printed version gives the version back. |
| Versions.DisplayOfParse | src/update/manifest.rs:50-84 | Printing a parsed version gives the text back exactly when it has no plus sign. |
| Versions.ParseVersionExactly | src/update/manifest.rs:50-79 | Accepted are exactly three texts joined by dots, each for a number below 2^64: its digits, or a plus sign, any zeros and its digits. |
| Versions.PlusSignIsLost | src/update/manifest.rs:50-84 | A text for which it does not. |
| Versions.DisplayInjective | src/update/manifest.rs:81-85 | Different versions print differently. |
| Versions.OlderExact | src/update/manifest.rs:42-47 | Versions compare by major, then minor, then patch number. |
| Versions.OlderTotal | src/update/manifest.rs:42-47 | Versions are totally ordered. |
| Versions.ParseDecimalInjective | src/update/selection.rs:398-418 | Two texts with the same decimal value are the same text. |
| Manifest.ValidateManifest | src/update/manifest.rs:352-405 | The loops over assets and records accept exactly the valid manifests. |
| Manifest.ValidateEntries | src/update/manifest.rs:373-403 | One loop that inserts names and identities into sets finds exactly the invalid entries and the repetitions. |
| Manifest.RuntimeMinimumInjective | src/update/selection.rs:346-396 | For one operating system a parsed runtime minimum determines its text. |
| Manifest.ParseWindowsExactly | src/update/selection.rs:346-378 | After `windows-` exactly the texts major, hyphen, two-digit year, `h` and half 1 or 2 are accepted, each with its numbers. |
| Manifest.ParseGlibcExactly | src/update/selection.rs:379-394 | After `glibc-` exactly the texts major, dot, minor are accepted, each with its numbers. |
| Manifest.RuntimeMinimumExactly | src/update/selection.rs:346-396 | The parser accepts the one text of each runtime of the asset's system, with that runtime, and nothing else. |
| Manifest.ValidAssetExactly | src/update/manifest.rs:407-455 | An asset is accepted exactly when its free fields pass, its length is from 1 to 512 MiB, and it is a Linux tarball with glibc or a Windows zip without, with the text of some runtime. |
| Manifest.ValidManifestExactly | src/update/manifest.rs:352-405 | A manifest is accepted exactly when its parts are, and no two assets share their name or both system and requirement, and no two records their tuple. |
| Manifest.DistinctMinimums | src/update/manifest.rs:373-389 | Two assets of a valid manifest for one system have different minimums. |
| Manifest.CatalogIdentityRefines | src/update/selection.rs:251-275 | Assets the selector would call conflicting already conflict for the manifest validator. |
| Selection.SelectApplicable | src/update/selection.rs:164-235 | The loop with its two lists computes the specified outcome. |
| Selection.FindAmbiguity | src/update/selection.rs:237-249 | The catalogue check reports the first ambiguity. |
| Selection.FindManifestAmbiguity | src/update/selection.rs:251-291 | The check of one manifest reports the specified ambiguity. |
| Selection.ChooseAsset | src/update/selection.rs:293-338 | The two loops over assets choose as specified. |
| SelectionLaws.ValidatedNeverAmbiguous | src/update/selection.rs:293-338 | For a validated manifest AmbiguousAsset, MalformedRuntimeRequirement and AmbiguousCompatibility are unreachable, and the catalogue check finds nothing. |
| SelectionLaws.ValidatedAmbiguity | src/update/selection.rs:237-249 | For a validated catalogue the only ambiguity is a repeated version. |
| SelectionLaws.SelectAssetAnswer | src/update/selection.rs:293-338 | Asset selection stated without order: the best applicable asset, or why there is none. |
| SelectionLaws.SelectAssetExactly | src/update/selection.rs:293-338 | The answer for any assets at all, valid or not: the platform, the host's runtime, no asset met, a tie for the greatest requirement, or the best asset. |
| SelectionLaws.SelectCompatibilityAnswer | src/update/selection.rs:453-497 | Record selection stated without order: the answer of the one matching record, or that there is none. |
| SelectionLaws.SelectCompatibilityExactly | src/update/selection.rs:453-497 | The answer for any records at all: an exclusion first, then none or several about this Codex, then the eligibility of the only one. |
| SelectionLaws.HostOrder | src/update/selection.rs:420-451 | New enough compares the parts in order: major, year and half on Windows, major and minor for glibc. |
| SelectionLaws.RequirementOrder | src/update/selection.rs:333-337 | So does the order that puts the greatest requirement first. |
| SelectionLaws.MeetsExactly | src/update/selection.rs:346-451 | In the host's numbers and the asset's text: an asset suits a host exactly when it is for its system and the numbers in its requirement are not above the host's. |
| SelectionLaws.JudgeExplained | src/update/selection.rs:164-235 | A valid candidate is rejected for exactly the first objection, stated in the fields of manifest and host, and accepted when there is none. |
| SelectionLaws.ApplicableExactly | src/update/selection.rs:164-235 | A valid candidate is applicable exactly when nothing is objected to. |
| SelectionLaws.NoApplicableExplained | src/update/selection.rs:219-222 | When nothing is applicable the answer lists each candidate with the first objection to it, from the oldest version to the newest. |
| SelectionLaws.JudgeExact | src/update/selection.rs:164-235 | A candidate is accepted exactly when it is newer and has an applicable asset and record, with its best asset and that record. |
| SelectionLaws.SelectsGreatest | src/update/selection.rs:164-235 | Something is selected exactly when some candidate is applicable, and it is the applicable candidate with the greatest version. |
| SelectionLaws.RefusedExactly | src/update/selection.rs:164-249 | A validated catalogue is rejected exactly when it is empty or repeats a version. |
| SelectionLaws.SimilarKeepsValid | src/update/manifest.rs:352-405 | Rearranging assets and records keeps a manifest valid. |
| SelectionLaws.OrderIrrelevant | src/update/selection.rs:164-235 | For a validated catalogue every order of candidates, assets and records is validated too and gives the same outcome. |
| SelectionLaws.RaisingKeepsSelection | src/update/selection.rs:420-451 | Raising the host runtime keeps a selection, of no lower version, exactly when the raised runtime is well formed. |
| SelectionLaws.RaisingMayLoseSelection | src/update/selection.rs:420-441 | For every choice of field checks, any texts they accept and any newer version give a validated catalogue that selects on Windows 11 24H2 and no longer does when the half is above 2. |
| SelectionLaws.ExpectedHookValid | src/update/manifest.rs:497-512 | The program's hook schema consists of valid texts, so that catalogue exists for it. |
| Order.SortStrict | src/update/state.rs:193-194 | Sorting distinct keys gives a strictly increasing list. |
| Order.StrictlySortedUnique | src/artifact.rs:405 | A strictly increasing list is determined by its members. |

## Left out

- Windows: the Windows broker, process reader, path and quoting arms, and access-control lists; the portable logic repeats the Linux files modelled here.
- Process launching, prompts, signals, certificates, environment probes and the hook client: plumbing around the modelled parts; the decision, configuration and ancestry checks of a request appear in `Broker` as arbitrary answers.
- Library internals: JSON tokenising, UTF-8 decoding, TOML parsing outside one basic string, SHA-256 and regular file metadata. Digests are uninterpreted functions and JSON values are trees.
- Wall-clock time: deadlines and lock polling are nondeterministic choices, and a `Framing` schedule ends when the deadline passes.
- Handler panics, and a partly written audit line: each append happens whole or not at all.
- Power loss: a crash stops a process between two steps; file contents already written stay as written. Replacement of the lock file or the state file by a process outside the protocol appears only as a failing check.
- `UpdateState` fields other than the observations: whether they validate is one flag.
- Manifest field syntax that selection does not use (names, addresses, hashes, provenance, evidence texts): arbitrary predicates in `Manifest.Checks`. The one accepted hook schema is a field there too, so that the laws hold for every schema; the program's is `EXPECTED_HOOK`. Only one target architecture exists, so UnsupportedArchitecture is not modelled.
- The opening checks of the bundle (`locate`, package metadata) and file identity stamps; a directory being trusted and readable is part of the modelled tree.
- Roadmap checks other than the cycle detector, and Markdown rendering.
- Release scripts other than the Cargo graph and the trace acceptor; in the Cargo graph a missing key other than `kind` is not modelled, and the comparison with Cargo.toml is one flag.
- Bundle.ListFiles: does not say which error is reported, because that depends on the order in which entries are read.
- Bundle.DigestInput: does not say which error is reported when several files are wrong.
- CargoGraph.SelectedGraph: does not say which error is reported, because the worklist order decides it.
- Trace.Analyze: does not say which error is reported; every rejection ends the program alike.
- Canonicalising the executable path and the lossy conversion of a path that is not Unicode, which come before the quoting.
- Shell syntax outside plain words, backslashes and single quotes: the reader in `Quoting` refuses it.
