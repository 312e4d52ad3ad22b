# Verified model of the Agaric end-to-end harness

Agaric is a note-taking app; its real-backend test suite drives the built binary
through WebdriverIO. The logic that decides whether that suite can be believed is
in the harness and the specs: it makes and sweeps throwaway vaults while other
invocations run, speaks pipelined JSON-RPC, types through a driver that loses
keys, deals specs to shards, reads trees and virtualized lists back, explains
failed waits and computes the dates the backend should reach. This project models
that logic in Dafny and proves what it is relied on for. Where the repository
holds the other half of a contract (the reader of the archives `tar` writes, the
recurrence engine behind the date oracle), that half is modelled too and the two
are proved against each other.

`dafny verify dfyconfig.toml` checks the whole project.

| module | models |
|---|---|
| `Sandboxes` | temporary vaults shared by concurrent processes, as a step system over all interleavings |
| `LogLabels`, `LogRescues` | label sanitizing; the log rescue, once per label and process, into a directory all processes share |
| `Settlement`, `LineFraming`, `McpClients`, `Bridges` | which event settles a request; newline framing; the two JSON-RPC clients |
| `TarFraming`, `TarArchive` | the ustar writer of the specs and the app's reader of it |
| `Typing`, `VerifiedTyping` | splitting text into calls the driver keeps; the retry loop with read-back |
| `WaitMessages`, `Diagnosis` | the parser of a failed wait's message; the page probe and its verdict |
| `StoredTrees` | depth-first flattening of parent pointers, and back |
| `Shards` | round-robin dealing under contiguous slicing |
| `Positions` | editor positions of a place in the text |
| `Scrolling`, `Paging` | reading a virtualized list end to end; bounded Load more |
| `DateOracle`, `CatchingUp`, `Recurrence` | the spec's expected dates against the engine's catch-up |
| `Basics`, `Arithmetic`, `Calendar` | shared definitions |

Results worth knowing, because they differ from what the code's comments say:

- `wdio.conf.ts:714-733` argues that a day-old sandbox cannot be a live session.
  As long as the timeouts bound a session that is so: no sweep removes a live
  session's sandbox (`Sandboxes.TimelySessionsAreSafe`), and they bound it by less
  than a day exactly up to 287 tests and hooks in a spec file
  (`Sandboxes.TimeoutsFit`). But the sweep reads wall-clock time and timeouts do
  not run while a machine sleeps. Once a session has outlived them, only a change
  to the sandbox's own directory each day protects it (`Sandboxes.TouchedDailyIsSafe`);
  writing in the vault is no such change, so the sandbox can be swept, alive and
  busy as the session is (`Sandboxes.BusySessionCanBeSwept`, with a run in
  `Sandboxes.LiveSessionIsSwept`).
- The name `mkdtemp` picks must not be one another session, an app that outlived
  its session, or a sweep on its way to removing it still acts on. All the safety
  results need just that, and it is exact: under any other name a next step can
  harm the new sandbox (`Sandboxes.FreeIsUnharmed`). A name never given before is
  always free (`Sandboxes.NewNamesAreFree`).
- `wdio.conf.ts:224-225` says reverse waits are deliberately unmatched. They are,
  except when the selector itself quotes a wait; then the reverse wait is taken
  for the quoted one and its verdict is inverted (`WaitMessages.ReverseIsUnmatched`
  has the exact condition, `WaitMessages.ReverseIsInverted` the failing messages).
- `typeVerified` returns only on a read-back equal to the text, except for the
  empty text when every read of the first attempt throws: then it returns without
  a read-back (`VerifiedTyping.SuccessIsReadBack`, `VerifiedTyping.UnreadSuccess`).
- `wdio.conf.ts:818-821` says the extra rescue cannot half-overwrite a completed
  copy. The labels are remembered per process, the artifact directory is shared
  by all workers, and each ends its session under the same label: a second worker
  overwrites what the first completed, and finds its logs among the first one's
  (`LogRescues.SecondWorkerOverwrites`). `LogRescues.CompletedStays` and
  `LogRescues.SessionRescueHappens` have the exact conditions.
- `wdio.conf.ts:277-283` says the walk reports every node whose style takes the
  element off screen, and `:495-498` concludes a RENDERING failure from any. The
  walk also reports two kinds of nodes that hide nothing: an ancestor whose
  `visibility` the element sets back, and an element whose own contents are
  skipped. RENDERING is then false (`Diagnosis.ShownYetRendering`,
  `Diagnosis.FalseRendering`); the DISAGREEMENT sentence stands beside exactly
  these, if the engine answers as it judges (`Diagnosis.DisagreementMeans`).
- `wdio.conf.ts:127-131` calls a trailing hyphen and an all-dots label
  structurally impossible. The cut at 120 characters comes after the clean-up, so
  both can occur, exactly when `LogLabels.WhatTheCutLeaves` says
  (`LogLabels.TheCutDoesLeaveThem` has one title for each).
- Framing in `McpClient` does depend on chunk boundaries when a line parses to
  `null` before the last line: reading its `id` throws and abandons the event
  (`LineFraming.CutsAgree` gives the exact condition).
- `tar` round-trips one octal digit further than its field is padded for: the
  reader takes 12 digits, so sizes below 8^12 come back (`TarArchive.RoundTrip`).

## Model

| member | source | states |
|---|---|---|
| `Sandboxes.Harness.SweepStaleSandboxes` | wdio.conf.ts:735-754 | Of a directory that can be read exactly the entries with the prefix, changed more than a day ago and not denied are gone; all others, and everything in a directory that cannot be read, are as they were. |
| `Sandboxes.Harness.CreateSandboxEnv` | wdio.conf.ts:765-793 | A fresh sandbox is recorded as this process's own and added; every other entry is as it was. |
| `Sandboxes.Harness.Before` | wdio.conf.ts:1103-1122 | The check passes exactly when a sandbox is recorded and one of its looks, until the time for looking is up, finds the database in it. |
| `Sandboxes.Harness.RemoveSandbox` | wdio.conf.ts:845-853 | Unless it is kept, this process's recorded sandbox is gone, whatever is in it, and nothing is recorded; every other entry is as it was. |
| `Sandboxes.InvStep` | wdio.conf.ts:700-793 | One inductive invariant over sandbox ownership, creation times, sweeps in progress and surviving apps, kept by every step of every process, if only a new sandbox gets a name nobody still acts on. |
| `Sandboxes.InvRun` | wdio.conf.ts:700-793 | That invariant in every state of every such run, from any litter at the start. |
| `Sandboxes.NewNamesAreFree` | wdio.conf.ts:700-711 | Names no sandbox had before are free, so the invariant holds of every run with `mkdtemp`'s unique names. |
| `Sandboxes.FreeIsUnharmed` | wdio.conf.ts:744-753 | The condition is exact: no next step harms a new sandbox (removes it without being its owner, or puts another session's database in it) if and only if no live sweep is about to remove its name and no other session or surviving app has it. |
| `Sandboxes.YoungSandboxesAreSafe` | wdio.conf.ts:703-718 | Over every interleaving of creating, sweeping, removing, crashing and signals, an entry disappears only by its own session's removal or by a sweep more than a day after it was made; entries without the prefix never do. |
| `Sandboxes.OwnSandboxGoes` | wdio.conf.ts:845-853 | In every run, a session that removes its sandbox or shuts down takes its own with it, a finished vault as well as an empty one, and leaves every other entry as it was. |
| `Sandboxes.GoneForGood` | wdio.conf.ts:1158-1162 | Under new names it stays gone: its name comes back only if the session's own app has outlived it and writes there again. |
| `Sandboxes.WhatStepsDo` | wdio.conf.ts:700-793 | No step changes an entry but the one it acts on, and what becomes of that one: new and empty, gone, touched now, or with the database of its app. |
| `Sandboxes.EndedForGood` | wdio.conf.ts:930-942 | After a crash or a shutdown a process takes no further step in the run; only its app may. |
| `Sandboxes.TimelySessionsAreSafe` | wdio.conf.ts:714-733 | While no live session is older than a day, a live session's sandbox disappears only by its own removal or shutdown, touched or not, over every interleaving. |
| `Sandboxes.TimeoutsFit` | wdio.conf.ts:1005-1008 | The timeouts of starting, checking, testing and reaping add up to a day at most exactly when a spec file has at most 287 tests and hooks. |
| `Sandboxes.LauncherRemovesNothing` | wdio.conf.ts:930-942 | A process that never made a sandbox deletes nothing on shutdown. |
| `Sandboxes.PassedCheckIsProof` | wdio.conf.ts:1095-1122 | The check passes if and only if this session has a sandbox, its own app made the database in it earlier in the run, and it has stayed since; the sandbox is then this session's own. |
| `Sandboxes.TouchedDailyIsSafe` | wdio.conf.ts:714-718 | A sandbox whose own directory is changed at least once a day is removed by no sweep, however long its session lives and however late a sweep acts on what it found. |
| `Sandboxes.ChangedDailyIsSafe` | wdio.conf.ts:714-718 | The same told from the steps: made in the run and changed at least once in every day since, a sandbox is removed by no sweep. |
| `Sandboxes.UntouchedCanBeSwept` | wdio.conf.ts:727-733 | From any reachable state in which a sandbox's directory has been left unchanged for longer, the four steps of a sweep that starts now remove it, all other processes, its own session included, standing as they were. |
| `Sandboxes.WritesDoNotTouch` | wdio.conf.ts:748-748 | Once the vault is there, no write in it moves the mtime a sweep looks at, over any stretch of a run. |
| `Sandboxes.BusySessionCanBeSwept` | wdio.conf.ts:714-733 | Past the timeouts, as after a day's sleep of the machine: a day after its vault was made a session's sandbox can be swept, alive as the session is and whatever its app has written since. |
| `Sandboxes.LiveSessionIsSwept` | wdio.conf.ts:727-733 | A run of that kind, with new names only: a session that lasts longer than its timeouts allow loses its sandbox, its check passed and its app writing. |
| `Sandboxes.ReusedNameIsUnsafe` | wdio.conf.ts:744-753 | A run in which a name that is not free does harm: a slow sweep deletes a live sandbox made a moment ago, because examining and removing are two steps. |
| `Sandboxes.SoloSweepIsSwept` | wdio.conf.ts:735-754 | The interleaved sweep steps, run without interference, do what the sweep method does. |
| `LogLabels.LabelIsSafe` | wdio.conf.ts:94-113 | For every title the label is 1 to 120 kept characters, has no leading hyphen, and is none of `.`, `..` and the reserved label. |
| `LogLabels.LabelIs` | wdio.conf.ts:137-142 | The label is the first 120 characters of the cleaned title, but `failure` for one that is empty or all dots and the suffixed label for the reserved one. |
| `LogLabels.RunBecomesHyphen` | wdio.conf.ts:138-138 | Between kept characters a run of others, however long, becomes one hyphen. |
| `LogLabels.HyphensGo` | wdio.conf.ts:138-138 | All hyphens at both ends go, and nothing else. |
| `LogLabels.KeptAre` | wdio.conf.ts:138-138 | Kept are the ASCII letters and digits, the dot, the underscore and the hyphen, and no other character. |
| `LogLabels.WhatTheCutLeaves` | wdio.conf.ts:127-142 | A label ends in a hyphen, or is all dots, exactly when the cut at 120 falls so. |
| `LogLabels.TheCutDoesLeaveThem` | wdio.conf.ts:127-131 | A title for each: the claim that both are impossible is false. |
| `LogLabels.SanitizingTwice` | wdio.conf.ts:137-142 | Sanitizing is idempotent on a label exactly when the cut left neither a trailing hyphen nor only dots. |
| `LogLabels.MovedLabelIsShared` | wdio.conf.ts:115-127 | Exactly two kinds of titles get the label the reservation moves to: those that clean up to the reserved one, and those that clean up to that label itself. |
| `LogLabels.SuffixCollides` | wdio.conf.ts:115-127 | The documented collision: one title of each kind. |
| `LogRescues.LogRescue.RescueAppLogs` | wdio.conf.ts:823-842 | Which of the six outcomes, what is copied where in the shared directory (also when a copy throws half-way), and that a label is recorded only after its last copy. |
| `LogRescues.LogFilesSnoc` | wdio.conf.ts:833-833 | Rescued are the files whose names start with `agaric.log`, in the order of the listing. |
| `LogRescues.TestLabelIs` | wdio.conf.ts:1189-1189 | A failing test's label is made of its suite's title and its own, with stand-ins for what is missing. |
| `LogRescues.CompletedIsRescued` | wdio.conf.ts:824-841 | Over every interleaving a process has completed a label exactly when a rescue of its own copied every log under it; one that threw half-way can be made again. |
| `LogRescues.EachLabelOnce` | wdio.conf.ts:815-821 | Each process completes each label at most once, over every interleaving of the calls of all processes. |
| `LogRescues.SessionLabelIsFree` | wdio.conf.ts:104-113 | No failing test of a process completes the session's label, so its session-end rescue is not skipped. |
| `LogRescues.SessionDirectoryIsFree` | wdio.conf.ts:104-113 | Whatever the failing tests of any process are called, none of their rescues touches the session's directory. |
| `LogRescues.SessionRescueHappens` | wdio.conf.ts:1150-1157 | So the rescue at session end is made whenever there are logs, whatever other processes did; its directory then holds exactly those logs if and only if it held no other name before. |
| `LogRescues.CompletedStays` | wdio.conf.ts:818-821 | A completed copy is unchanged after any more calls if and only if the other processes among them wrote, last, no new name and no different text under its label; its own process never writes to it again. |
| `LogRescues.DirectoryIsWrites` | wdio.conf.ts:835-839 | A label's directory is what all copies under it, by whatever process, whole or half, leave of it. |
| `LogRescues.StandsThroughout` | wdio.conf.ts:818-821 | A copy stands after each of any calls if and only if no single rescue under its label writes a new name or a different text. |
| `LogRescues.SecondWorkerOverwrites` | wdio.conf.ts:1150-1157 | Two workers of one run: the second overwrites the first one's completed copy, and a log of the first stays among its own. |
| `Settlement.FirstWins` | e2e-tauri/mcp-agent-token.e2e.ts:52-60 | Over every history, a request is settled exactly when something after its issue has an effect on it, and with the first such effect. |
| `Settlement.SettledOnce` | e2e-tauri/mcp-agent-token.e2e.ts:95-98 | An outcome stands whatever happens later. |
| `Settlement.OpenUntilEffect` | e2e-tauri/helpers.ts:1684-1689 | A request is open exactly while nothing since its issue has had an effect on it. |
| `Settlement.UnknownIdChangesNothing` | e2e-tauri/helpers.ts:1659-1659 | A message without an id, or with an id not pending, changes no promise. |
| `LineFraming.FeedConserves` | e2e-tauri/helpers.ts:1653-1661 | Consumed lines with their newlines plus the buffer are the input so far, for every cut into chunks. |
| `LineFraming.CutsAgree` | e2e-tauri/helpers.ts:1653-1661 | All cuts of a stream give the same lines and the same buffer if and only if no line parses to `null` before the last line read. |
| `LineFraming.CutsAgreeWithoutNull` | e2e-tauri/helpers.ts:1653-1661 | Without `null` lines any cut reads the stream as a whole, and between events the buffer holds a newline only behind a malformed line. |
| `LineFraming.DrainStopsAtNull` | e2e-tauri/helpers.ts:1656-1661 | The other half: one event that carries an earlier `null` line reads fewer lines than the stream has. |
| `LineFraming.FeedReadsLines` | e2e-tauri/helpers.ts:1653-1661 | Chunk by chunk the loop reads what reading the whole stream at once would, from any buffer with no complete line. |
| `LineFraming.DrainIs` | e2e-tauri/helpers.ts:1655-1661 | What one event reads, told from the lines in the buffer: those before the first that is no message, and that one too if it is `null`; a malformed one stays at the front. |
| `McpClients.McpClient.OnData` | e2e-tauri/helpers.ts:1653-1662 | The handler delivers the lines up to one that throws, keeps the rest, and throws exactly when a line is malformed or `null`. |
| `McpClients.McpClient.TakeLine` | e2e-tauri/helpers.ts:1656-1661 | One turn of the loop takes one line off what there is to drain, or ends the event on a line that throws. |
| `McpClients.McpClient.Request` | e2e-tauri/helpers.ts:1684-1689 | Issues the next id and registers it, leaving every promise and what is half received alone. |
| `McpClients.McpClient.Deliver` | e2e-tauri/helpers.ts:1659-1659 | Settles the message's own request if it is pending and open, and no other. |
| `McpClients.IdsAreUnique` | e2e-tauri/helpers.ts:1684-1687 | In every run the ids issued are 1, 2, 3 and so on, each once and in order. |
| `McpClients.ResolvedByFirstReply` | e2e-tauri/helpers.ts:1640-1689 | Over all runs of requests and chunks, a request is resolved exactly when a message with its id is among the lines read since it was made, and with the first such message, whatever the reply order. |
| `McpClients.RunConserves` | e2e-tauri/helpers.ts:1653-1661 | In every run what arrived, with its newlines, and the buffer make up the chunks received, requests in between or not. |
| `McpClients.RequestsDoNotMatter` | e2e-tauri/helpers.ts:1684-1689 | Leaving the requests out of a run changes neither what arrives nor the buffer. |
| `McpClients.RunIsQuiet` | e2e-tauri/helpers.ts:1653-1661 | Between the events of any run that has read no `null`, the buffer holds no complete line but a malformed one at its front. |
| `McpClients.RunIsFeed` | e2e-tauri/helpers.ts:1653-1662 | Data events after any run add to it what the framing of their chunks says. |
| `McpClients.CutsDoNotMatter` | e2e-tauri/helpers.ts:1640-1662 | After any run of requests and chunks that has read no `null`, the same further bytes lead to the same client state, promises included, wherever they are cut, if they bring no `null` before their last line. |
| `Bridges.Bridge.OnLine` | e2e-tauri/mcp-agent-token.e2e.ts:52-55 | One line settles at most its own request; it throws exactly when the line is malformed or `null`. |
| `Bridges.Bridge.OnExit` | e2e-tauri/mcp-agent-token.e2e.ts:56-60 | The one exit rejects every open request and only those. |
| `Bridges.Bridge.OnTimeout` | e2e-tauri/mcp-agent-token.e2e.ts:97-97 | A timer rejects its own request if it is still open. |
| `Bridges.Bridge.Request` | e2e-tauri/mcp-agent-token.e2e.ts:93-101 | Issues the next id, also after the exit. |
| `Bridges.RunIsOrderly` | e2e-tauri/mcp-agent-token.e2e.ts:42-101 | In every run ids are issued once each in order, there is one exit at most, and timers fire only for issued requests. |
| `Bridges.RunRecordsEvents` | e2e-tauri/mcp-agent-token.e2e.ts:42-101 | The history of a run is that of its events, in their order: an id per request, every line, the first exit, and the timeout of each request made by then. |
| `Bridges.SettledForGood` | e2e-tauri/mcp-agent-token.e2e.ts:42-101 | Every settlement stands through the rest of the run. |
| `Bridges.FirstOfThree` | e2e-tauri/mcp-agent-token.e2e.ts:52-98 | Told from the events of any run: a request is settled by the first event since it was made that is a line with its id, the process's first exit or its own timeout, with what that event says, and is open until then. |
| `Bridges.TimerEnds` | e2e-tauri/mcp-agent-token.e2e.ts:97-97 | Once its timer has fired a request is settled, whatever the process did. |
| `Bridges.SentAfterExit` | e2e-tauri/mcp-agent-token.e2e.ts:56-98 | A request sent after the exit is never rejected by it; without a line of its own only its timeout settles it. |
| `TarArchive.WriteHeader` | e2e-tauri/import-formats.e2e.ts:104-107 | The three writes into the zeroed buffer give the header the round trip is about, also when a long name runs into later fields. |
| `TarArchive.HeaderLayout` | e2e-tauri/import-formats.e2e.ts:104-107 | The ustar fields of a header: the name at 0, eleven octal digits of the size and a NUL at 124, the flag of a regular file at 156, NULs elsewhere. |
| `TarArchive.LongNamesRunOn` | e2e-tauri/import-formats.e2e.ts:104-107 | A longer name runs on through the header, but for the bytes the two later writes put over it. |
| `TarArchive.Tar` | e2e-tauri/import-formats.e2e.ts:100-112 | The pushed parts are the archive of the framing: header, data and padding per entry, then 1024 zero bytes. |
| `TarFraming.WholeBlocks` | e2e-tauri/import-formats.e2e.ts:108-111 | The archive is a multiple of 512 bytes and its last 1024 are zero. |
| `TarArchive.ReadStringField` | src/lib/jex-import.ts:154-159 | The loop gives the bytes up to the first NUL, or the whole field. |
| `TarArchive.ReadOctalField` | src/lib/jex-import.ts:142-151 | The loop gives the number that `parseInt` finds in the field without its NULs and spaces, 0 for none. |
| `TarArchive.ReadHeader` | src/lib/jex-import.ts:174-192 | One header block, by the loops over its fields, on every possible block; the reader's loop calls it. |
| `TarArchive.HeadLayout` | src/lib/jex-import.ts:174-192 | What the reader takes a header for, by the fields of the format: the end for NULs only or a negative size; otherwise prefix and name, the size, and a regular file for the flags NUL, `0` and `7`. |
| `TarArchive.ParseOctalIs` | src/lib/jex-import.ts:149-150 | A number counts from its white space and sign on up to the first character that is no octal digit, and is 0 without one. |
| `TarArchive.StrippedSnoc` | src/lib/jex-import.ts:144-148 | NULs and spaces are dropped from a number's field wherever they stand. |
| `TarArchive.ReadTar` | src/lib/jex-import.ts:169-203 | The loop over the header blocks ends on every byte sequence and finds exactly the members of the framing. |
| `TarArchive.SizeReadBack` | src/lib/jex-import.ts:142-151 | The size field comes back when it has at most 12 octal digits, and reads as less otherwise. |
| `TarArchive.NameReadBack` | src/lib/jex-import.ts:154-159 | The name comes back exactly when it has at most 100 bytes and no NUL. |
| `TarArchive.RoundTrip` | e2e-tauri/import-formats.e2e.ts:99-112 | Reading what was written gives the same entries if and only if every name has at most 100 bytes and no NUL and every size is below 8^12. |
| `TarArchive.WriteAndRead` | e2e-tauri/import-formats.e2e.ts:99-112 | The writer's and the reader's loops together return the entries if and only if all of them fit. |
| `TarArchive.PartialArchive` | src/lib/jex-import.ts:161-168 | Bytes after the zero blocks do not disturb the round trip, and any cut of the archive loses members only from the end. |
| `TarFraming.ReadUndoesWrite` | src/lib/jex-import.ts:169-203 | Reading undoes writing for any header codec that reads back, wherever in a larger byte sequence the archive stands. |
| `TarFraming.OthersArePassed` | src/lib/jex-import.ts:189-200 | A member that is no regular file is passed over with its data and padding: nothing is found in it and the reader stands behind it. |
| `TarFraming.TruncationKeepsAPrefix` | src/lib/jex-import.ts:164-165 | Of any byte sequence, a truncation reads as a prefix of the whole: no member is invented or altered. |
| `Typing.DistinctKeyChunks` | e2e-tauri/helpers.ts:439-451 | The loop's chunks are the greedy split into longest runs without a repeat. |
| `Typing.OneCallIsExact` | e2e-tauri/helpers.ts:434-437 | One call to a driver that loses held keys delivers its text exactly when no character repeats. |
| `Typing.DeliveredSnoc` | e2e-tauri/helpers.ts:434-437 | Of one call the driver loses exactly the keys pressed again while held. |
| `Typing.GreedyIsExact` | e2e-tauri/helpers.ts:432-451 | The chunks concatenate to the text, no chunk has a repeat, and sending them delivers the text. |
| `Typing.ChunksAreLongest` | e2e-tauri/helpers.ts:442-448 | Each chunk is as long as it can be: the next begins with a character it holds. |
| `Typing.StaysAhead` | e2e-tauri/helpers.ts:439-451 | Greedy stays ahead of every other split, from any point of it. |
| `Typing.FewestExactCalls` | e2e-tauri/helpers.ts:432-451 | No sequence of calls that delivers the text, whatever keys it presses, has fewer calls. |
| `VerifiedTyping.TypeVerified` | e2e-tauri/helpers.ts:462-517 | Whatever the page shows and however many reads throw, it returns at the first of three attempts that succeeds, with the box as that attempt left it, and otherwise rejects, the box as the third attempt left it, with the `lastSeen` of the last attempt any read of which succeeded. |
| `VerifiedTyping.TypeOnce` | e2e-tauri/helpers.ts:481-486 | The first attempt sends the greedy chunks, a retry one key at a time; either way exactly the text is inserted at the caret, through the lossy driver. |
| `VerifiedTyping.Poll` | e2e-tauri/helpers.ts:489-505 | The wait ends on the first read that is the text or has settled for 400 ms, else on the last one; when every read throws, `lastSeen` is what it was. |
| `VerifiedTyping.SeenIs` | e2e-tauri/helpers.ts:489-505 | What is seen is what the first read shows that is the text, or that nothing has changed in for 400 ms, or that is the last. |
| `VerifiedTyping.TrimIs` | e2e-tauri/helpers.ts:494-494 | Trimming takes the white space off both ends, all of it, and nothing else. |
| `VerifiedTyping.SuccessIsReadBack` | e2e-tauri/helpers.ts:457-460 | A success rests on a read-back that is the text, if and only if the text is not empty or some read of the first attempt did not throw. |
| `VerifiedTyping.UnreadSuccess` | e2e-tauri/helpers.ts:477-506 | Otherwise it says nothing: typing the empty text into a box of any content succeeds at once when no read succeeds. |
| `VerifiedTyping.TypedWithinTwo` | e2e-tauri/helpers.ts:453-511 | With a reliable read-back and from any content and caret, the verdict is success if and only if trimming leaves the text as it is, and then within two attempts. |
| `WaitMessages.ParserUndoesTemplate` | wdio.conf.ts:190-236 | For every state and timeout, selector and state are recovered if and only if the selector is not empty and on one line, whatever quotes or copies of the message it holds. |
| `WaitMessages.MessageReads` | wdio.conf.ts:203-204 | The messages the template makes, letter by letter, for each awaited state and the reverse. |
| `WaitMessages.TailIs` | wdio.conf.ts:228-231 | The parser takes for a message's end just the closing quote, `still not`, a state, `after`, one digit or more and `ms`, whatever follows. |
| `WaitMessages.ReverseIsUnmatched` | wdio.conf.ts:224-226 | A reverse wait is unmatched if and only if its selector does not quote a wait: no line of it leads, from its start or from a quoted head, to a quoted tail. |
| `WaitMessages.ReverseOnOneLine` | wdio.conf.ts:224-233 | For a selector on one line: it is matched if and only if a tail stands in the selector anywhere but at its start. |
| `WaitMessages.ReverseIsInverted` | wdio.conf.ts:224-233 | For every one-line selector and all states and timeouts, a reverse wait on the selector with a quoted tail behind it parses to the quoted wait. |
| `Diagnosis.ProbeVisibilityInPage` | wdio.conf.ts:293-428 | The probe of any page and selector: every hiding and blocking node on the way to the root, the box and viewport facts of a box with size, and the engine's own answer. |
| `Diagnosis.MatchesAre` | wdio.conf.ts:308-314 | The matches are all the elements that match, once each and in document order, so the element probed is before all others. |
| `Diagnosis.MatchesCount` | wdio.conf.ts:420-420 | The number reported is that of the elements that match. |
| `Diagnosis.WalkUp` | wdio.conf.ts:326-355 | The ancestor walk's two lists, in order from the element up. |
| `Diagnosis.NamedHides` | wdio.conf.ts:332-347 | Every node the walk names, in order from the element up and at its own depth, hides the element as an engine judges, or is one of the two misleading kinds. |
| `Diagnosis.HidersAreNamed` | wdio.conf.ts:332-347 | Every node on the path with a style the walk tests is named, with its reasons. |
| `Diagnosis.ReasonsAre` | wdio.conf.ts:332-343 | The reasons given for a node are exactly the four that apply to its style, in their order. |
| `Diagnosis.RenderingMeans` | wdio.conf.ts:326-355 | Something is named if and only if the element is hidden, its own contents are skipped, or an ancestor's `visibility` is not the default. |
| `Diagnosis.ExplainVisibilityProbe` | wdio.conf.ts:455-641 | One message carries exactly one conclusion, the one its facts justify, whatever facts occur together; the other facts stand beside it in order, none dropped, with the scope caveat last. |
| `Diagnosis.BlockingIsTold` | wdio.conf.ts:596-617 | What blocks an interaction is told in any case: as the conclusion on a visible element, beside the rendering verdict otherwise. |
| `Diagnosis.ExplainVisibility` | wdio.conf.ts:492-575 | The visibility chain concludes, except for an interaction wait on a visible element. |
| `Diagnosis.ExplainInteraction` | wdio.conf.ts:577-637 | The interaction chain concludes exactly when the visibility chain did not. |
| `Diagnosis.OneIsJustified` | wdio.conf.ts:446-453 | The facts justify one conclusion and no other, so the order of the branches decides nothing. |
| `Diagnosis.FoundMeans` | wdio.conf.ts:492-637 | The conclusion the facts justify is the only one of the twelve that is true of the page: of what hides, misleads or blocks on the path, the engine's answer and where the box is. |
| `Diagnosis.AsidesAreBeside` | wdio.conf.ts:470-641 | The other facts of a message are exactly those that belong beside its conclusion, by what is true of the page. |
| `Diagnosis.FalseRendering` | wdio.conf.ts:494-505 | RENDERING by a named node is concluded of an element on screen if and only if its own contents are skipped or an ancestor's `visibility` is not the default. |
| `Diagnosis.ShownYetRendering` | wdio.conf.ts:494-498 | A page where it is: a child set back to visible under a hidden parent, and every wait but for existence concludes RENDERING. |
| `Diagnosis.DisagreementMeans` | wdio.conf.ts:499-505 | With an engine that answers as it judges, the DISAGREEMENT sentence stands beside exactly the false RENDERINGs. |
| `Diagnosis.NothingUnmodelled` | wdio.conf.ts:506-513 | With such an engine the verdict of hiding the walk cannot name is never true. |
| `Diagnosis.BlockedMeans` | wdio.conf.ts:348-362 | Something is listed as blocking if and only if a node on the path takes no pointer events, the element is disabled in either way, or something else is at its centre. |
| `Diagnosis.BlockedAre` | wdio.conf.ts:348-412 | What is listed as blocking is all that blocks, once each: nodes without pointer events from the element up, its own two attributes, and what the page shows at its centre. |
| `Diagnosis.MissingMeans` | wdio.conf.ts:442-445 | Nothing is found exactly when nothing matches, and then every scoped lookup is empty too. |
| `Diagnosis.Diagnose` | wdio.conf.ts:1204-1214 | From page to verdict, for every page, selector and wait: Missing exactly when nothing matches, in any scope, and then nothing else is said; otherwise, of the match before all others in the document, the only conclusion true of the page, beside it exactly the facts that belong there, and the disagreement with exactly the false RENDERINGs. |
| `Diagnosis.ExplainFailure` | wdio.conf.ts:1204-1214 | From the failed test's message: every wait with a selector on one line is diagnosed as the wait it was, and a reverse wait gets no diagnosis unless its selector quotes a wait. |
| `StoredTrees.Walker.Walk` | e2e-tauri/page-source-document.e2e.ts:114-123 | Pushing in the recursive closure appends exactly the rows below the block it was called for. |
| `StoredTrees.ReadStoredTree` | e2e-tauri/page-source-document.e2e.ts:105-126 | The list is the depth-first tree of the page, for every forest in which the page is not below itself. |
| `StoredTrees.SortSorts` | e2e-tauri/page-source-document.e2e.ts:117-117 | The sibling sort is a permutation into position order that keeps equal positions in the order received. |
| `StoredTrees.SiblingsInOrder` | e2e-tauri/page-source-document.e2e.ts:114-124 | The children of every block under the page are listed exactly once each, by ascending position, none counting as 0, and at equal positions as received. |
| `StoredTrees.RowsInOrder` | e2e-tauri/page-source-document.e2e.ts:114-124 | Of any two rows with the same parent the upper has the smaller position, or the same one and was received first. |
| `StoredTrees.ListsEachOnce` | e2e-tauri/page-source-document.e2e.ts:104-126 | The list has each block under the page once and nothing else, at the depth its chain of parents gives. |
| `StoredTrees.OneChain` | e2e-tauri/page-source-document.e2e.ts:114-124 | There is one way down from the page to each block. |
| `StoredTrees.ParentsRebuilt` | src/editor/page-mode/page-document.ts:5-7 | Rebuilding parents from ids and depths alone, with a stack of open ids, undoes the walk. |
| `StoredTrees.StackIsNearest` | src/editor/page-mode/page-document.ts:5-7 | On any lines the stack gives each the id of the nearest line above that is one level up. |
| `StoredTrees.NearestAboveIsParent` | src/editor/page-mode/page-document.ts:5-7 | In the walk's list a block's parent is the nearest row above that is one level up, and the page at depth 0. |
| `StoredTrees.LinesDetermineParents` | src/editor/page-mode/page-document.ts:5-7 | Two block lists that show the same ids and depths have the same parents. |
| `StoredTrees.WalkEnds` | e2e-tauri/page-source-document.e2e.ts:114-124 | The recursion returns, with enough calls nested, if and only if the page is not below itself; it then returns the tree and nests at most one call more than there are blocks. |
| `StoredTrees.ChainsEnd` | e2e-tauri/page-source-document.e2e.ts:114-124 | Parent chains from the page are bounded if and only if it is not below itself; cycles it does not reach do no harm. |
| `Shards.DealtAt` | wdio.conf.ts:944-952 | File i of the sorted list stands at its place in the dealt list, which has the same length. |
| `Shards.PlaceClosedForm` | wdio.conf.ts:950-952 | That place is (i mod n)·(L div n) + min(i mod n, L mod n) + i div n. |
| `Shards.DealtIsPermutation` | wdio.conf.ts:947-952 | Places and files correspond one to one. |
| `Shards.EachFileRunsOnce` | wdio.conf.ts:947-947 | However the dealt list is cut into contiguous slices, exactly one slice runs each file. |
| `Shards.NeighboursApart` | wdio.conf.ts:944-947 | Slices of the group sizes hold the residue classes, so up to n neighbours in name order run in different shards. |
| `Positions.SourceAt` | e2e-tauri/helpers.ts:1284-1288 | The summing loop gives the place of (line, offset) in the token sequence of the buffer. |
| `Positions.PageModeCaret` | e2e-tauri/page-mode.ts:90-94 | The same for a block of page mode, by offset or at the text's end. |
| `Positions.PlaceHoldsText` | e2e-tauri/page-mode.ts:90-94 | Between the first and the last place of a node the document holds exactly that node's text. |
| `Positions.SourcePlaceIs` | e2e-tauri/helpers.ts:1284-1288 | In the source buffer a place is its offset, one, and for every line before it that line's length and two. |
| `Positions.PlaceIsNested` | e2e-tauri/page-mode.ts:90-94 | Every place is exactly as deep in the document as its node's text. |
| `Positions.EditorsNest` | src/editor/page-mode/page-document.ts:22-26 | That is one level down in the source buffer and two in page mode, and all nodes close what they open. |
| `Positions.PlacesInOrder` | e2e-tauri/helpers.ts:1284-1289 | Within their texts, one place is smaller than another exactly when it is earlier by node and then by offset. |
| `Positions.ResolveUndoesPlace` | e2e-tauri/helpers.ts:1284-1288 | Resolving a position recovers the pair if and only if the offset is within the text. |
| `Positions.EditorsAreFramed` | src/editor/page-mode/page-document.ts:24-26 | The documents of both editors meet what those results need, whatever their blocks hold besides the first text. |
| `Scrolling.ListBox.ListedRows` | e2e-tauri/search-load-more.e2e.ts:78-95 | The scroll loop returns the rows mounted in some turn it makes, in index order. |
| `Scrolling.ListBox.ReadMounted` | e2e-tauri/search-load-more.e2e.ts:87-89 | Reading adds exactly the mounted rows, whatever order they are met in. |
| `Scrolling.TurnsMade` | e2e-tauri/search-load-more.e2e.ts:84-92 | Which turns the loop makes, told from the layout: all those before which none came within a pixel of the end, each half a viewport or a pixel further, down to the end of the range. |
| `Scrolling.ListsWhatWasSeen` | e2e-tauri/search-load-more.e2e.ts:82-94 | What is listed, every row or not, are the texts of the rows mounted in one of at most 500 turns, once each and by index. |
| `Scrolling.PassedIsSeen` | e2e-tauri/search-load-more.e2e.ts:84-92 | No stride jumps over a row: once the viewport's lower edge has passed a row's top, the row has been mounted. |
| `Scrolling.ScrollingMissesNoRow` | e2e-tauri/search-load-more.e2e.ts:77-95 | Every row is listed once in order when the last turn brings the last row into view, for every virtualizer that mounts what shows; for one that mounts no more, only then. |
| `Scrolling.RangeSuffices` | e2e-tauri/search-load-more.e2e.ts:84-91 | A scroll range of at most 499 half-viewports is enough. |
| `Paging.LoadEveryPage` | e2e-tauri/search-load-more.e2e.ts:61-75 | It ends for every pager, returning where the presses stop, rejecting one that still offers Load more at the bound, and rejecting a press that adds nothing: each exactly then. |
| `Paging.LoadCorrect` | e2e-tauri/search-load-more.e2e.ts:56-75 | With a correct pager of N matches it presses ceil(N/P)-1 times and lists N. |
| `Paging.EveryPageCounts` | e2e-tauri/search-load-more.e2e.ts:61-75 | Before the last page each press is offered and adds rows; the last page lists all. |
| `DateOracle.CatchUpFifth` | e2e-tauri/agenda-projected-repeat.e2e.ts:359-362 | However stale, the loop ends on the least 5th of a month strictly after today. |
| `DateOracle.NextFifthIs` | e2e-tauri/agenda-projected-repeat.e2e.ts:359-362 | There is one such date, and where it is. |
| `DateOracle.MonthOnIs` | e2e-tauri/agenda-projected-repeat.e2e.ts:354-358 | The month-on date is valid, in the next month, and keeps the day unless that month is shorter. |
| `Recurrence.ShiftIs` | src-tauri/agaric-store/src/recurrence_math.rs:118-206 | The separate arms for months and years are one clamped shift and fail exactly when it leaves the calendar rail. |
| `Calendar.MonthLength` | src-tauri/agaric-store/src/recurrence_math.rs:28-35 | The lengths of the months in the Gregorian calendar. |
| `Recurrence.ShiftPlusPlus` | src-tauri/agaric-engine/src/recurrence/parser.rs:167-237 | The `++` loop: the first shifted date after today, or which of its two errors. |
| `Recurrence.CatchUpPastToday` | src-tauri/agaric-store/src/recurrence_math.rs:400-413 | The projection's copy of that loop has a date exactly when the first has, and the same one. |
| `CatchingUp.CatchUpFinds` | src-tauri/agaric-store/src/recurrence_math.rs:394-413 | Catching up finds the first due occurrence, or overflows where one leaves the rail before it. |
| `CatchingUp.CapMeans` | src-tauri/agaric-store/src/recurrence_math.rs:400-413 | The cap ends it exactly when as many occurrences as it allows are on the rail and not due. |
| `CatchingUp.CaughtIsDue` | src-tauri/agaric-store/src/recurrence_math.rs:394-413 | What is caught is due and on the rail. |
| `Recurrence.CapIsSlack` | src-tauri/agaric-engine/src/recurrence/parser.rs:123-128 | For month and year intervals the cap of 10 000 steps is never what ends the loop. |
| `Recurrence.CatchUpMeetsOracle` | e2e-tauri/agenda-projected-repeat.e2e.ts:342-371 | For every today and however stale a 5th, the engine reaches the spec's expected date if and only if the shifts stay on the calendar rail. |
| `Recurrence.MonthOnMeetsOracle` | e2e-tauri/agenda-projected-repeat.e2e.ts:354-358 | The engine's `.+` month from today is the spec's month-on date if and only if that is on the rail. |
| `Recurrence.ClampSticks` | src-tauri/agaric-store/src/recurrence_math.rs:141-154 | k steps reach the date one long step gives if and only if no month passed on the way is too short for its day. |
| `Recurrence.EarlyDaysNeverClamp` | src-tauri/agaric-store/src/recurrence_math.rs:141-154 | Up to the 28th nothing is ever clamped. |

## Left out

- Spawning processes, `/proc` scans, real file copies, sockets and the WebDriver protocol: they appear only as steps and parameters.
- Sandboxes: the clock is taken to be monotone, and an app's start as one step that makes the vault and its database; removing one directory is a single step, and failures to stat or remove an entry are a parameter of the method and skipped entries in the runs.
- `sandboxVaultDir` has no field of its own: it is set and cleared together with `sandboxRunDir`, as a fixed child of it.
- Two processes copying at the same instant: a rescue is one step of its process, as its copies are synchronous and the runner starts one worker at a time (`maxInstances: 1`).
- `afterSession`'s order of killing the driver, rescuing, reaping and removing is not modelled as a sequence; its removal and its rescue are.
- The tar name and data are bytes: UTF-8 encoding by the writer and `TextDecoder` by the reader are not modelled, nor are directory and pax records beyond being skipped. The writer sets neither magic nor checksum and the reader looks at neither.
- JSON parsing is a function from lines to malformed, `null` or a message with an optional id; the multi-byte decoding of socket chunks before the handler is not modelled, nor is writing to the stdin of a process that has exited.
- Text is a sequence of characters; surrogate pairs, grapheme clusters and key names are not modelled. A read that throws counts as none, as `waitUntil` goes on after it. Waiting for display and focus before typing is taken to succeed.
- Message wording of the diagnosis: its sentences are constructors with the facts they carry.
- The page of the diagnosis is a tree of elements with their computed styles; shadow roots, slots and `display:contents` are not modelled.
- `storedTree` also attaches each block's properties sorted by `localeCompare`; the rows here have id, parent and position only, and `kindOf` is left out.
- The arithmetic by which WebdriverIO turns `--shard i/n` into a slice is not part of this model (every contiguous slicing is covered); `--shard i/0` deals no file and is excluded.
- `Paging.LoadEveryPage`: does not cover a search seeded with no rows, whose bound is -1 presses and so never reached.
- Day and week intervals, the parsing of rule strings, 64-bit overflow (beyond the calendar rail, which comes first for dates in range), and JavaScript's years 0 to 99 and daylight saving in the date oracle.
- `runScopedMarker`, `dataDirFromEnviron`, `isoDay`, `joplinItem`, `tinyWav` and similar one-line helpers: easy members.
- The rest of the Rust backend (CRDT, materializer, search ranking, import, export and sync): the modelled code only asserts its outcomes.
