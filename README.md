# sethosts, modelled in Dafny

`sethosts` rewrites the Windows hosts file (`%SystemRoot%\System32\drivers\etc\hosts`)
from a JSON list of `{IP, HostName}` records given as its single command-line
argument. One run works like this:

- It refuses any argument count other than one ("Missing JSON hosts entries", exit code 1).
- It decodes the JSON. On failure it logs "Bad JSON hosts entries" and the decoder's error, then exits with code 1.
- If the decoded list is empty, it exits with code 0 and does nothing else.
- Otherwise it copies the current hosts file into `hosts.bak` and recreates `hosts` empty.
- It then walks the list once. Each entry whose `IP` and `HostName` are both non-empty becomes the line `IP<TAB>HostName<LF>`. That line goes to stdout and to the buffered writer of the new hosts file.
- Every other entry produces the log line `Ignored malformed JSON host entry IP: … and HostName: …`.
- Finally the writer is flushed into the hosts file.

The project has two modules:

- `HostsFormat` (`hosts_format.dfy`) covers the value side. It has the `HostsEntry` record (main.go:14-17) and the rule for which entries are kept (`WellFormed`, `Filter`, `Malformed`). It defines the text made of an entry list (`Line`, `Emit`, `Render`) and the log lines of dropped entries (`LogLine`, `Rejections`). It also has a reader for the produced text, `ParseHosts`. On entries that fit on one line the reader inverts the renderer: the written text reads back as exactly the kept entries.
- `SetHosts` (`set_hosts.dfy`) covers one run. `World` holds the observable state: the hosts file, `hosts.bak`, stdout and the log. `Run` gives the effect of one run as a function of the arguments, the decoder and the previous state. The class `HostsMachine` holds that state in fields. Its method `RootRun` updates them step by step as `rootRun` does, and is proved to agree with `Run`. The `for` loop of main.go:51-58 is the method `WriteEntries`, proved against `Render` and `Rejections` through its loop invariants. Lemmas about `Run` state the properties of a run.

The JSON decoder is a parameter `decode: string -> Decoded` of the run. Its result is either `ParseFailed(err)` or `Parsed(entries)`.

Behaviour of `cmd/sethosts/main.go` that the model keeps:

- `rootRun` takes exactly one argument. It neither joins several arguments nor reads stdin.
- There is no dry-run, merge, verbose or pause mode.
- Every file-operation error is discarded. There is no "backup failed" or "write failed" outcome.
- The backup is taken even when the hosts file cannot be opened. In that case `hosts.bak` ends up empty.
- A non-empty list whose entries are all malformed still runs the backup and the re-creation of `hosts` (main.go:41-50) before the loop. `hosts.bak` is overwritten with the old content and the hosts file ends up empty. Only an empty list leaves both files alone (`AllMalformedEmptiesHosts`).

## Model

| member | source | states |
|---|---|---|
| HostsFormat.Filter | cmd/sethosts/main.go:51-54 | an entry is written if and only if it is in the input and both its `IP` and `HostName` are non-empty; never more entries than the input |
| HostsFormat.Malformed | cmd/sethosts/main.go:55-56 | an entry is dropped if and only if it is in the input and one of its fields is empty; kept and dropped counts add up to the input length |
| HostsFormat.FilterPartition | cmd/sethosts/main.go:51-58 | every input entry is either written or dropped, exactly once (as multisets) |
| HostsFormat.FilterKeepsWellFormed | cmd/sethosts/main.go:51-54 | an input of well-formed entries is written in full and unchanged |
| HostsFormat.FilterAppend | cmd/sethosts/main.go:51-58 | the kept entries of a concatenation are those of the first part followed by those of the second |
| HostsFormat.FilterAt | cmd/sethosts/main.go:51-54 | a kept entry at input position i is the output entry at position "number of kept entries before i", so the k-th written entry is the k-th well-formed input entry |
| HostsFormat.FilterKeepsOrder | cmd/sethosts/main.go:51-54 | two kept entries are written in their input order |
| HostsFormat.RenderAppend | cmd/sethosts/main.go:51-54 | the text of a concatenation is the text of the first part followed by that of the second |
| HostsFormat.RenderStep | cmd/sethosts/main.go:52-54 | one loop step adds the entry's `IP<TAB>HostName<LF>` line when both fields are non-empty, and nothing otherwise |
| HostsFormat.RejectionsStep | cmd/sethosts/main.go:55-56 | one loop step adds the entry's log line when a field is empty, and nothing otherwise |
| HostsFormat.RejectionsAppend | cmd/sethosts/main.go:55-56 | the log lines of a concatenation are those of the first part followed by those of the second |
| HostsFormat.RenderOnlyWellFormed | cmd/sethosts/main.go:52-56 | dropped entries contribute nothing: the text equals the text of the kept entries alone |
| HostsFormat.RejectionsDescribeMalformed | cmd/sethosts/main.go:55-56 | there is exactly one log line per dropped entry, and the i-th one names the i-th dropped entry's `IP` and `HostName` |
| HostsFormat.RenderLineCount | cmd/sethosts/main.go:51-54 | when the kept entries' fields hold no newline, the written text has exactly one newline per kept entry |
| HostsFormat.NewlineInNameSplitsLine | cmd/sethosts/main.go:53-54 | a kept entry whose name holds a newline is written as two lines, so the one-newline-per-entry count needs the newline-free condition |
| HostsFormat.LineRoundTrip | cmd/sethosts/main.go:53-54 | a line `IP<TAB>HostName<LF>` followed by more text reads back as that entry followed by what the rest reads as |
| HostsFormat.RenderRoundTrip | cmd/sethosts/main.go:51-58 | when no kept entry has a newline in a field or a tab in its address, the written text reads back as exactly the kept entries, in input order, one `IP<TAB>HostName` line each |
| SetHosts.Run | cmd/sethosts/main.go:26-60 | exit code 1 exactly for a wrong argument count or a decoding failure, else 0; a run that does not write leaves hosts, backup and stdout unchanged; a run that writes leaves the old hosts content in the backup and prints the new hosts content to stdout |
| SetHosts.HostsMachine.RootRun | cmd/sethosts/main.go:26-60 | the exit code and the new hosts, backup, stdout and log fields are those `Run` gives for the old fields |
| SetHosts.HostsMachine.WriteEntries | cmd/sethosts/main.go:50-58 | the buffered text is the rendering of the entries; stdout grows by that same text and the log by one line per dropped entry; hosts and backup are untouched |
| SetHosts.ArgCountChecked | cmd/sethosts/main.go:27-29 | with an argument count other than one, the outcome does not depend on the decoder; the exit code is 1 and only the log changes |
| SetHosts.ParseFailureAborts | cmd/sethosts/main.go:31-34 | a decoding failure exits with code 1 and logs two lines; no file or stdout changes |
| SetHosts.EmptyListNoChange | cmd/sethosts/main.go:35-37 | an empty decoded list exits with code 0 and changes nothing |
| SetHosts.AllMalformedEmptiesHosts | cmd/sethosts/main.go:41-58 | a non-empty list without a single well-formed entry exits with code 0, moves the old hosts content into the backup and leaves the hosts file empty |
| SetHosts.ReplaceSemantics | cmd/sethosts/main.go:41-54 | when the files are touched, the backup holds the previous hosts content; the new hosts content depends only on the entries (the text of the kept ones), not on the prior content |
| SetHosts.HostsReadBack | cmd/sethosts/main.go:47-59 | when the kept entries fit on one line each, the hosts file after a run reads back as the kept entries in input order, and its newline count is their number |
| SetHosts.OneLogLinePerMalformed | cmd/sethosts/main.go:55-56 | a writing run adds one log line per dropped entry, each describing that entry, in input order; earlier log lines are kept |
| SetHosts.SingleEntryScenario | cmd/sethosts/main.go:51-54 | a list holding only `127.0.0.1`/`test.local` gives the hosts file `127.0.0.1<TAB>test.local<LF>` and exit code 0 |
| SetHosts.EmptyAddressScenario | cmd/sethosts/main.go:55-56 | a list holding only an entry with an empty address writes an empty hosts file, logs one line and exits with code 0 |

## Left out

- JSON decoding (main.go:30-34) is `encoding/json`. It is the parameter `decode`, with an abstract failure outcome carrying the error text. Go's case-insensitive field matching is not modelled.
- The cobra command and `main` (main.go:19-24, 62-66) are left out. The model has one exit code per run: 1 for `log.Fatalln`, 0 for `os.Exit(0)` and for a normal return.
- The path of the hosts file, built from the `SystemRoot` environment variable (main.go:38-40), is left out. The two files are the `hosts` and `backup` fields.
- The file operations (main.go:41-50, 59) are left out as I/O: `os.Open`, `os.Remove`, `os.Create`, `io.Copy`, `Flush` and the deferred `Close` calls. The model assumes every one of them succeeds. Their errors are discarded in the source, so a failure changes what happens to the files without changing the exit code or stdout. For example, if `os.Create` of the hosts file fails, the lines are still printed and the run exits 0, but the hosts file keeps whatever state the failed step left it in; `Run` says it holds the rendered text. A missing hosts file is modelled as empty content, which is what the backup then holds.
- The standard logger's date and time prefix (a clock reading) is not part of the modelled log lines.
- Go strings are byte sequences; the model uses `string` (characters) throughout, which changes nothing in the line format.
- SetHosts.HostsMachine.RootRun: the loop of main.go:51-58 sits in the separate method `WriteEntries` rather than inline. Stdout and the buffer are whole strings, and the log is a sequence with one element per log call. The order in which stdout and log output interleave is not modelled.
- HostsFormat.RenderLineCount: stated only when no kept entry has a newline in a field. The source does not check this, and a kept name containing a newline is written as two lines (`NewlineInNameSplitsLine`).
- HostsFormat.RenderRoundTrip: stated only when no kept entry has a newline in a field or a tab in its address. A tab inside a kept address moves the split point, so the line reads back as a different entry.
- SetHosts.HostsReadBack: inherits the condition of `RenderRoundTrip` for the kept entries of the run.
