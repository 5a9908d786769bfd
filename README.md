# MeetC2 calendar command channel — a Dafny model

MeetC2 runs commands on remote hosts through a shared CalDAV calendar.

- **Organizer.** The organizer console (`controller/organizer.go`) creates one calendar entry per command. The entry's summary is the marker `Meeting from nobody: ` followed by the command text, optionally prefixed by `@host:` or `@*:`. The description starts empty. The console lists entries with their status, shows one entry's outputs, and deletes entries that some host has answered.
- **Guest.** Each guest (`guest.go`) polls the calendar. It skips entries without the marker, entries that already hold its own `[OUTPUT-<hostname>]` marker, and entries aimed at another host. For any other entry it runs the command and appends one block to the description:
  ```
  \n\n[OUTPUT-<hostname>]\n<output>\n[/OUTPUT-<hostname>]
  ```
  The organizer reads those blocks back: the listing counts the start-marker lines, and a two-state line scanner extracts each host's output.

The model has seven modules:

- `Wrappers`: `Option`.
- `GoStrings`: the Go `strings` functions the code uses, as Dafny functions over `seq<char>`. These are `HasPrefix`, `HasSuffix`, `TrimPrefix`, `TrimSuffix`, `TrimSpace`, `Fields`, `Split`, `SplitN(…, 2)`, `Join` and `Contains`, with the helpers `IndexOf`, `TrimLeft`, `TrimRight` and `Word` that define them.
- `CommandCodec`: the summary as the organizer writes it and the guest decodes it, and the targeting rule.
- `OutputCodec`: the output blocks, the host listing (`getExecutedHosts`) and the capture machine (`extractHostOutputs`).
- `Calendar`: the calendar as a `Store` class holding a map from path to entry. Its `Get`, `Put` and `RemoveAll` methods may fail.
- `Guest`: the per-entry decision, the command runner over an abstract host environment, the write-back, and one polling pass. The pass is a `Guest` class method with a loop, proved equal to a specification function `GuestPass`. Idempotence is proved about `GuestPass`.
- `Organizer`: `create`, `list`, `get` and `clear`. `create`, `list` and `clear` are `Organizer` class methods; `list` and `clear` are loops proved against specification functions. `get` is the function `EventOutput`.

The organizer reads descriptions through its literal `\n` replacement (`Unescape`). Stored descriptions are treated as the text the guest wrote.

## Model

| member | source | states |
|---|---|---|
| CommandCodec.Summary | controller/organizer.go:147 | the stored summary carries the command marker, and the listing's trim of `Meeting from nobody: ` gives back exactly the command text |
| CommandCodec.CommandLine | guest.go:161 | the command line is no longer than the summary and neither starts nor ends with white space |
| CommandCodec.Classify | guest.go:168-171 | the empty target is broadcast, `*` is wildcard, and any other target names its host |
| CommandCodec.ShouldExecute | guest.go:171-173 | a command runs on this host exactly when its target is broadcast, wildcard, or this host's own name |
| CommandCodec.ParseTarget | guest.go:160-175 | a line that does not start with `@` or has no `:` is the command with an empty target; otherwise the target holds no `:` and `@` + target + `:` + command rebuilds the line |
| CommandCodec.SplitCommand | guest.go:176-184 | the command word has no white space; the argument string has none exactly when there are at most two fields; the command is empty exactly when there are no fields, and then so are the arguments |
| CommandCodec.Decode | guest.go:152-184 | a summary decodes to a command record exactly when it starts with the marker `Meeting from nobody:` |
| CommandCodec.SkipRule | guest.go:171-173 | the guest's test (target non-empty, not this host, not `*`) skips exactly the records for which `ShouldExecute` is false: broadcast and `*` run everywhere, `@name:` only on host `name` |
| CommandCodec.DecodeAnnotated | guest.go:165-175 | a command line `@T:rest` (T without `:`) decodes to target T with the command and arguments split from `rest` |
| CommandCodec.DecodeUnannotated | guest.go:165-167 | a command line without `:` (even one starting with `@`) is broadcast, and the whole line is split into command and arguments |
| CommandCodec.DecodeBlank | guest.go:176-184 | a summary that is only the marker and white space decodes to a broadcast with an empty command and empty arguments |
| CommandCodec.CommandLineOfSummary | guest.go:161 | trimming the marker and white space from an organizer summary gives back command text that neither starts nor ends with white space |
| CommandCodec.SplitCommandJoin | guest.go:176-184 | for words as `strings.Fields` yields them and `exec` joins them, the command is the first word and the arguments are the rest joined by single spaces |
| CommandCodec.RoundTrip | controller/organizer.go:104-110 | decoding the summary made from `exec`'s words and a valid target returns that target, the first word, and the other words joined by single spaces |
| CommandCodec.RoundTripBroadcast | guest.go:161-184 | the round trip for words with no annotation whose first word does not start with `@` |
| CommandCodec.RoundTripAnnotated | guest.go:165-184 | the round trip for `@name:` followed by the words: the target reads back as `name` |
| CommandCodec.BroadcastLine | guest.go:161-175 | joined words without an annotation are the command line, and the parse gives an empty target and the whole line |
| OutputCodec.HasBlockAt | guest.go:156 | the guest's "already executed" test holds exactly when the host's start marker occurs at some position of the description, inside a line or not |
| OutputCodec.ExecutedHosts | controller/organizer.go:312-323 | every host listed has its start marker somewhere in the description |
| OutputCodec.StepLine | controller/organizer.go:335-355 | a line that is not an end marker commits nothing; a commit stores the buffer under the current, non-empty host of a capture; after the line the machine captures exactly when the line is a start marker, or it was capturing and the line is not an end marker |
| OutputCodec.ExtractAll | controller/organizer.go:325-358 | no output is keyed by an empty host, and outputs exist only when some line is an end marker |
| OutputCodec.ScanKeys | controller/organizer.go:338-345 | from a state without an empty-named output, the machine never commits an output under an empty host name |
| OutputCodec.CommitNeedsEnd | controller/organizer.go:343-346 | if the scan from the idle state commits anything, some line is an end marker |
| OutputCodec.AppendBlock | guest.go:261-262 | appending a block keeps the old description as a prefix and puts the host's start marker in the text |
| OutputCodec.GetExecutedHosts | controller/organizer.go:312-323 | the loop returns `ExecutedHosts`: the hosts of the lines that start with `[OUTPUT-` and end with `]`, in line order |
| OutputCodec.ExtractHostOutputs | controller/organizer.go:325-358 | the loop returns `ExtractAll`: the outputs of the capture machine run over the description's lines |
| OutputCodec.Written | controller/organizer.go:351-354 | the new buffer splits at newlines into the buffer's lines (none for an empty buffer) followed by the captured line's own lines: a line is joined on with a newline exactly when the buffer is non-empty |
| OutputCodec.EmptyDescription | controller/organizer.go:312-358 | an empty description lists no host and yields no output |
| OutputCodec.MarkerLines | controller/organizer.go:316-318 | a start marker is a listed line naming its host; an end marker is never listed; neither marker looks like the other |
| OutputCodec.HostLineIsMarker | controller/organizer.go:316-318 | every listed line is exactly the start marker of the host it yields |
| OutputCodec.ListedLinesOccur | guest.go:156-158 | a host that the listing shows also passes the guest's "already executed" test |
| OutputCodec.BlockLines | guest.go:261-262 | the lines of a description after a block are the old lines, a blank line, the start marker, the output's lines and the end marker |
| OutputCodec.ExecutedHostsAppend | controller/organizer.go:312-323 | after a block, the listing is the old listing, then the host, then any marker lines inside the output |
| OutputCodec.ScanLinesAppend | controller/organizer.go:333-356 | scanning two runs of lines is scanning the second from the state the first left |
| OutputCodec.EndWhileIdle | controller/organizer.go:343-348 | an end-marker line while not capturing, or while capturing under an empty host name, commits nothing and leaves the machine idle |
| OutputCodec.EndClosesAnyCapture | controller/organizer.go:343-346 | an end marker for any host, not only the one being captured, commits the buffer under the current host and stops capturing |
| OutputCodec.StartResets | controller/organizer.go:338-342 | a start-marker line discards any unfinished capture and starts an empty buffer for the named host, whatever the state before |
| OutputCodec.StartNotEnd | controller/organizer.go:338 | no line starts with both `[OUTPUT-` and `[/OUTPUT-` |
| OutputCodec.CaptureLines | controller/organizer.go:349-355 | while capturing, lines that are not markers only grow the buffer |
| OutputCodec.NoEndNoCommit | controller/organizer.go:343-346 | without an end-marker line, no output is committed |
| OutputCodec.LeadingBlanksDropped | controller/organizer.go:351-354 | blank lines at the start of a capture leave no trace in the captured output |
| OutputCodec.AccumulateJoin | controller/organizer.go:349-355 | with a non-empty buffer, captured lines are appended joined by newlines |
| OutputCodec.AccumulateSplit | controller/organizer.go:349-355 | capturing the lines of an output that does not begin with a newline rebuilds the output exactly |
| OutputCodec.BlankStep | controller/organizer.go:349-355 | a blank line commits nothing |
| OutputCodec.StartStep | controller/organizer.go:338-342 | the start marker of a host starts capturing that host with an empty buffer |
| OutputCodec.EndStep | controller/organizer.go:343-348 | the end marker of the host being captured commits the buffer under that host |
| OutputCodec.ScanBlock | controller/organizer.go:333-356 | from any state, the lines of one block commit exactly that host's output |
| OutputCodec.ExtractAppend | controller/organizer.go:325-358 | after a well-formed block, the extracted outputs are the old ones with that host mapped to its output |
| OutputCodec.UnterminatedDiscarded | controller/organizer.go:338-346 | a block whose end marker is missing is dropped when the next block starts |
| OutputCodec.BodyHostsEmpty | controller/organizer.go:316 | lines that are not markers list no host |
| OutputCodec.ExtractAllReadBack | controller/organizer.go:325-358 | after any number of well-formed blocks, the extracted outputs are the old ones overlaid with the blocks, later ones winning |
| OutputCodec.ListAllReadBack | controller/organizer.go:312-323 | after any number of well-formed blocks, the listing is the old listing followed by the blocks' hosts in append order |
| OutputCodec.OverlayDistinct | controller/organizer.go:345 | with distinct hosts, each block's host maps to its own body and no other key changes |
| OutputCodec.ExtractFresh | controller/organizer.go:325-358 | for a new entry answered by distinct hosts, the extracted outputs are exactly those hosts and their outputs |
| OutputCodec.ListFresh | controller/organizer.go:312-323 | for a new entry, the listing is the answering hosts in append order |
| OutputCodec.RoundTripFresh | guest.go:261-262 | for a new entry, the organizer reads back exactly the blocks the guests wrote: hosts, outputs and order |
| Calendar.Store.Get | guest.go:247-256 | the fetched entry is the stored one, and nothing is fetched for a missing path |
| Calendar.Store.Put | guest.go:267 | a successful put stores the entry under the path; a failed put changes nothing |
| Calendar.Store.RemoveAll | controller/organizer.go:299-304 | a delete succeeds exactly when the call does not fail and the path exists, and only then removes that path |
| Guest.CurrentUser | guest.go:197-203 | `$USER` when it is non-empty; when it is empty, `$USERNAME` if that is non-empty and `unknown` otherwise; never empty |
| Guest.ShellInvocation | guest.go:229-234 | the shell line is the command, a space and the arguments; it runs under `cmd /c` exactly on Windows and under `sh -c` otherwise |
| Guest.Report | guest.go:195-241 | `whoami` is exactly the `User:`, `Hostname:` and `OS: <os>/<arch>` lines; `pwd` is the working directory; `exit` is `Terminating...`; `upload` is exactly `Error: ` and the read error, or exactly `File: <path>`, `[DATA]`, the encoded data and `[/DATA]` on their own lines; any other command is exactly the shell's output, preceded by `Error: `, the message and a line break when the run failed |
| Guest.ExecuteCommand | guest.go:191-242 | every answer, whichever branch ran, begins with `[Host: <hostname>]` and a line break, and that is its first line |
| Guest.Decide | guest.go:152-184 | an entry is not a command exactly without the marker; it is already executed exactly when this host's start marker occurs anywhere in the description; otherwise the decoded command runs exactly when its target selects this host, with the decoded command and arguments |
| Guest.WriteBack | guest.go:244-274 | only the entry under the path changes: it keeps UID and summary, and its description gains this host's block; a missing or unreachable path leaves the store unchanged |
| Guest.PassStep | guest.go:130-188 | one item never adds or removes an entry |
| Guest.GuestPass | guest.go:130-188 | a pass never adds or removes an entry |
| Guest.Guest.constructor | guest.go:98-103 | the guest keeps its hostname and its calendar |
| Guest.Guest.UpdateEventWithOutput | guest.go:244-274 | the result is success exactly when the entry exists and the put goes through; the store becomes `WriteBack` of the old store |
| Guest.Guest.CheckAndExecute | guest.go:106-189 | the loop leaves the store as the specification `GuestPass` over the query items |
| Guest.DecideExecute | guest.go:152-184 | an unanswered command entry whose target selects this host runs the command and arguments split from its parsed command text |
| Guest.DecideSkip | guest.go:165-173 | an entry whose target does not select this host is not run |
| Guest.PassSkip | guest.go:152-173 | an item the guest does not run leaves the rest of the pass unchanged |
| Guest.PassRun | guest.go:186-187 | an item the guest runs writes its answer back before the rest of the pass |
| Guest.DecideAnnotated | guest.go:165-175 | for `@T:rest` the entry is skipped exactly when T is non-empty, not `*` and not this host; otherwise `rest` runs |
| Guest.DecideUnannotated | guest.go:165-167 | a command line without `:` is never skipped for its target |
| Guest.DecideCreated | guest.go:152-184 | a fresh entry the organizer made runs on exactly the hosts its target selects, with the typed command and arguments |
| Guest.SettledStable | guest.go:156-158 | once an entry is not to be run, appending more text keeps it so |
| Guest.ExtendsTrans | guest.go:261-262 | appending twice still extends the original entry |
| Guest.PassFrame | guest.go:130-188 | a pass keeps every path, only appends to descriptions, and leaves unlisted and unreachable entries as they were |
| Guest.PassSkipsSettled | guest.go:152-158 | a pass over settled or undecodable items changes nothing |
| Guest.PassSettles | guest.go:130-188 | after a pass, every reachable listed entry is settled for this host |
| Guest.StepSettles | guest.go:186-187 | one reachable item leaves its entry settled |
| Guest.GuestIdempotent | guest.go:156-158 | a second pass over a fresh query of the same reachable paths changes nothing, whatever the environment |
| Guest.StepLocal | guest.go:186-187 | an item's step depends only on the entry under its own path |
| Guest.PassExact | guest.go:130-188 | over distinct paths read from the store, each entry ends as its own step alone leaves it |
| Organizer.Unescape | controller/organizer.go:201 | replacing `\n` pairs never lengthens the text |
| Organizer.UnescapePlain | controller/organizer.go:201 | text without a backslash reads back unchanged |
| Organizer.UnescapePair | controller/organizer.go:201 | a backslash-n pair after plain text becomes one line break |
| Organizer.Audience | controller/organizer.go:161-166 | the confirmation names all hosts exactly when the command does not start with `@`; otherwise it names the command's `@…` prefix up to the first `:` |
| Organizer.NewEntry | controller/organizer.go:141-148 | a new entry carries the command marker and the command, and its description lists no host and holds no output |
| Organizer.EventPath | controller/organizer.go:136 | the path is the calendar path, a slash, the UID and `.ics`, and the UID can be read back from it |
| Organizer.Rows | controller/organizer.go:191-214 | the listing has at most one row per query item, every row is the row of some item, and every item that has a row contributes it |
| Organizer.Executed | controller/organizer.go:287-297 | clear selects an item exactly when its data is present and its listing status is not `Pending` |
| Organizer.Doomed | controller/organizer.go:285-305 | clear deletes only listed paths, and never an unreachable one |
| Organizer.RowOf | controller/organizer.go:205-212 | an entry has a listing row exactly when it carries the marker; the row shows its UID and the command with `Meeting from nobody: ` trimmed |
| Organizer.ItemRow | controller/organizer.go:191-213 | a query item has a row exactly when its data decodes and carries the marker |
| Organizer.EventOutput | controller/organizer.go:239-267 | not found exactly for an empty result; unreadable exactly for undecodable data; not yet executed exactly when no output is extracted; otherwise one output per extracted host, trimmed, and the view carries the first event's summary |
| Organizer.DoomedSnoc | controller/organizer.go:285-307 | one more query item adds its path to the paths clear deletes exactly when it is executed and reachable |
| Organizer.ClearAdvance | controller/organizer.go:285-307 | one iteration of clear deletes and counts the entry exactly when it is listed as executed, reachable and still present |
| Organizer.RemoveStep | controller/organizer.go:299-301 | a delete adds one to the count exactly when the path was still there |
| Organizer.ClearMatchesStatus | controller/organizer.go:295-297 | a command entry's status is `Pending` exactly when clear does not select it (`!Executed`); a selected entry may still stay when its path is unreachable |
| Organizer.Organizer.constructor | controller/organizer.go:71-74 | the console keeps its calendar path and its calendar |
| Organizer.Organizer.CreateCommand | controller/organizer.go:134-167 | the store gains the new entry under `<calendar>/<uid>.ics` exactly when the put goes through, and is otherwise unchanged |
| Organizer.Organizer.ListEvents | controller/organizer.go:169-215 | the loop returns the specification listing `Rows`: one row per decodable command entry, in query order |
| Organizer.Organizer.ClearExecutedEvents | controller/organizer.go:270-310 | the store loses exactly the reachable listed entries whose description lists a host, and the count is the number of them that existed |
| Organizer.Status | controller/organizer.go:207-211 | the status is `Pending` exactly when no host is listed; otherwise it is `Executed (` + the hosts joined by `, ` + `)` |
| Organizer.ListCreated | controller/organizer.go:205-212 | a freshly created command is listed with its own text as `Pending` |
| Organizer.AppendAllPlain | guest.go:261-262 | appending blocks without backslashes introduces none |
| Organizer.BlockPlain | guest.go:261-262 | one block without backslashes introduces none |
| Organizer.AnsweredHosts | controller/organizer.go:199-208 | for a created entry, the organizer lists the answering hosts in append order |
| Organizer.AnsweredStatus | controller/organizer.go:207-211 | the status of a created entry after n answers is `Pending` when n = 0 and otherwise `Executed (h1, …, hn)` |
| Organizer.ListAnswered | controller/organizer.go:205-212 | a created entry answered by `h1 … hn` is listed as `Executed (h1, …, hn)` (or `Pending` when n = 0), and clear selects it exactly when n > 0 |
| Organizer.ClearKeeps | controller/organizer.go:284-307 | an entry survives clear exactly when no item lists it as executed and reachable, and survivors are unchanged |
| Organizer.ClearSelectsListed | controller/organizer.go:291-297 | over a query read from the store with every path reachable, clear deletes a command entry exactly when its row is not `Pending` |

## Left out

- CalDAV transport, authentication, client construction (`NewOrganizer` ignores its URL and password arguments and fixes the calendar path; the model takes the path as given) and query construction are left out. This includes the 24-hour time windows and the UID filter of `get`. A query is given as a sequence of items (path and decoded entry), and a failing call is named by the caller: a `fails` flag, or a set of unreachable paths.
- iCalendar encoding is left out. Entries keep only UID, summary and description. Text escaping other than the organizer's literal `\n` replacement is not modelled, and the blocks in the read-back lemmas contain no backslash.
- A nil calendar and a calendar without an event are both an item whose data is `None`. In `GetEventOutput` (controller/organizer.go:244-245), a nil calendar is dereferenced before its events are counted. `Organizer.EventOutput` reports that case as `ParseFailed`.
- `ListEvents` and the guest's write-back index the first event without checking that one exists. A missing summary, description or UID is read as empty. The model has no panics.
- The interactive console (controller/organizer.go:80-132), the guest's polling loop and timer, signal handling and all printing and logging are left out. The listing and the outputs are returned as values.
- Map iteration order is left out. `get` prints the hosts in Go's map order, which is unspecified; the model returns the map.
- `Guest.ExecuteCommand`: the operating system is abstracted as a `HostEnv` value. It supplies environment variables, platform, working directory, file reads and shell runs. File contents arrive already base64-encoded, and error values arrive as their messages. The `exit` command's delayed self-deletion and process exit are not modelled; only its answer is.
- `Organizer.EventPath` writes `path.Join` as plain concatenation, which matches when the calendar path is clean and neither `/` nor `.`, and the UID holds no `/`.
- The fresh UID (`uuid.New`) is a parameter; event times (the clock and the start and end times) are not modelled. Concurrency between guests, and lost updates between a guest's fetch and put, are not modelled.
- `Organizer.Organizer.ClearExecutedEvents` deletes every entry whose description lists a host, including entries without the command marker. This follows the code (controller/organizer.go:285-305), whereas `list` shows only entries that carry the marker (controller/organizer.go:205).
- The organizer's read-back is exact only for bodies that do not begin with a newline and have no line that looks like a marker once trimmed (`OutputCodec.BodyOk`). The end-marker match and the loss of leading blank lines are stated as lemmas (`EndClosesAnyCapture`, `LeadingBlanksDropped`).
