# Flex Plus flashing station — a verified model of its core

`bin/flash_gui.py` is a small local web server. Factory staff use it to flash
Flex Plus units. The operator enters a batch number, a production year and
month, and a serial number (plus an optional serial port). The server does the
following:

- It derives the unit's identifier `FPbb-yymmssss`, which is also the unit's
  Wi-Fi SSID.
- It finds the unit's Wi-Fi password in a CSV password table, falling back to
  a default password.
- It builds the platform's flashing command: a bash script on macOS, a
  PowerShell script on Windows.
- It runs that command in the background. Progress lives in one job record:
  status, busy flag, and a log of at most 600 lines with carriage returns and
  ANSI colour sequences removed.

This Dafny project models that core. The modules are:

| module | file | what it models |
|---|---|---|
| `Wrappers` | `wrappers.dfy` | `Option`, `Result` and `Outcome` (pass or fail with an error) |
| `Text` | `text.dfy` | Python's `{n:0Wd}` formatting, `str.strip`/`rstrip`, `"\n".join` |
| `Credentials` | `credentials.dfy` | field validation, `format_identifier`, `PasswordDatabase.lookup` |
| `PasswordTable` | `password_table.dfy` | the CSV row checks and the class `PasswordDatabase` with its `load` loop |
| `Dispatch` | `dispatch.dfy` | `find_powershell`, `build_flash_command`, the redacted command display |
| `Ansi` | `ansi.dfy` | the `ANSI_ESCAPE` pattern and the sanitiser of `_append_log` |
| `Orchestrator` | `orchestrator.dfy` | the class `FlashManager`: `start`, `_append_log`, `_run_flash`, `state` |
| `Ports` | `ports.dfy` | `list_serial_ports`, including the macOS de-duplication |

The model does not perform any host interaction. Instead, the host's answers
are inputs:

- `Dispatch.Host` holds the operating system, the production directory,
  whether each script exists, and what `shutil.which` returns for `pwsh` and
  `powershell`.
- `PasswordTable.CsvFile` is the parsed CSV file (header and rows), or `None`
  when the file does not exist.
- `Orchestrator.ProcessRun` is what the flashing process did: it failed to
  launch, or it printed some lines and exited with some code.
- `Ports.PortScan` holds what the globs and the PowerShell port query returned.

Some of the source's behaviour is modelled as follows:

- A Python exception becomes a `Failure`/`Fail` value, with one error
  constructor per way the source aborts.
- `SystemExit` from `load` becomes a `Fail(LoadError)` outcome. Each
  `LoadError` constructor carries the values its message interpolates; the
  message text itself is not rendered. `MissingPassword` stands for a row
  without a password cell, on which `load` fails with an `AttributeError`
  rather than a message of its own.
- `ValueError` from `lookup` becomes a `Failure(ValidationError)`, whose
  `Message()` is the source's exact text.
- `FileNotFoundError` and `RuntimeError` from `build_flash_command` become a
  `Failure(DispatchError)`, whose `Message()` is the source's text. The predicate `IsFileNotFound` tells which of the
  two `except` clauses of `_run_flash` catches it.

The identifier has a fixed format. For example, batch 1, year 24, month 6,
serial 1 gives `FP01-24060001`: the serial number is padded to four digits
(`{serial:04d}`), as `Credentials.LookupExample` shows.

## Model

| member | source | states |
|---|---|---|
| `Text.FormatIntFixedWidth` | bin/flash_gui.py:48 | a number below 10^width is rendered with exactly `width` characters, all digits (`{n:0Wd}`) |
| `Text.FormatIntValue` | bin/flash_gui.py:48 | the rendering of a non-negative number reads back as that number, leading zeros included |
| `Text.DecimalRoundTrip` | bin/flash_gui.py:48 | the decimal digits of n read back as n |
| `Text.DecimalLength` | bin/flash_gui.py:48 | a number below 10^k has at most k decimal digits |
| `Text.LStripSpec` | bin/flash_gui.py:76 | `lstrip` removes a maximal run of leading whitespace and nothing else |
| `Text.RStripSpec` | bin/flash_gui.py:630 | `rstrip` removes a maximal run of trailing whitespace and nothing else |
| `Text.StripSpec` | bin/flash_gui.py:76 | `strip` yields the input's inner slice with no whitespace at either end |
| `Text.SplitJoinLines` | bin/flash_gui.py:653 | lines free of newlines joined with "\n" split back into the same lines |
| `Text.JoinConcat` | bin/flash_gui.py:618 | joining two non-empty lists puts one separator between their joins |
| `Text.JoinAround` | bin/flash_gui.py:618 | an inner argument appears in the joined command line whole, with a space on each side |
| `Credentials.ValidateYear` | bin/flash_gui.py:37-39 | passes exactly for years 0..99, otherwise fails with the year error |
| `Credentials.ValidateMonth` | bin/flash_gui.py:42-44 | passes exactly for months 1..12, otherwise fails with the month error |
| `Credentials.IdentifierRoundTrip` | bin/flash_gui.py:47-48 | for in-range fields the identifier parses back into batch, year, month and serial |
| `Credentials.IdentifierInjective` | bin/flash_gui.py:47-48 | distinct in-range units never share an identifier (so never share an SSID) |
| `Credentials.Lookup` | bin/flash_gui.py:86-104 | checks batch, serial, year, month in that order; on success echoes the fields, the identifier is `format_identifier` of them, the SSID equals the identifier, and the password is the table entry for (batch, serial) or else the default |
| `Credentials.LookupIdentifiesUnit` | bin/flash_gui.py:86-104 | a successful lookup's identifier determines the unit's batch, year, month and serial |
| `Credentials.ExampleIdentifier` | bin/flash_gui.py:47-48 | batch 1, year 24, month 6, serial 1 formats as `FP01-24060001`, the serial padded to four digits |
| `Credentials.LookupExample` | bin/flash_gui.py:47-48 | batch 1, year 24, month 6, serial 1 gives `FP01-24060001` and its table password; a serial without an entry gets the default |
| `PasswordTable.CheckRow` | bin/flash_gui.py:70-84 | a row is accepted exactly when both numbers parse, a password is present, the serial is 1..100, the stripped password has 8..63 characters and the key is new, giving the key and stripped password; a failing row gets the error of the first check it fails, in the order invalid number, missing password, serial out of range, bad password length, duplicate key |
| `PasswordTable.BuildTableCharacterized` | bin/flash_gui.py:69-84 | the table loads exactly when every row is valid and no (batch, serial) repeats, and it then holds exactly each row's stripped password under its key |
| `PasswordTable.RejectionIsFinal` | bin/flash_gui.py:69-84 | the first bad row aborts the load whatever rows follow |
| `PasswordTable.LoadedEntriesWellFormed` | bin/flash_gui.py:77-84 | every loaded entry has a serial in 1..100 and a password of 8..63 characters |
| `PasswordTable.LookupUsesLoadedPassword` | bin/flash_gui.py:86-94 | a valid unit whose row was loaded gets that row's stripped password |
| `PasswordTable.LookupFallsBackToDefault` | bin/flash_gui.py:93 | a valid unit without a loaded row gets the default password |
| `PasswordTable.LookupPasswordLength` | bin/flash_gui.py:79-80 | when the default password has 8..63 characters, so does every password a valid lookup yields from a loaded table |
| `PasswordTable.PasswordDatabase.constructor` | bin/flash_gui.py:52-56 | a new database is empty and not loaded from disk |
| `PasswordTable.PasswordDatabase.Load` | bin/flash_gui.py:58-84 | a missing file gives an empty table; a header without the three columns aborts and keeps the old entries; otherwise the row loop succeeds exactly when the whole table is valid and the entries are then that table; on a bad row the entries are the table of the rows before it |
| `Dispatch.FindPowershell` | bin/flash_gui.py:526-531 | prefers a non-empty `pwsh` path, then `powershell`; fails exactly when neither is found |
| `Dispatch.BuildFlashCommand` | bin/flash_gui.py:492-523 | on macOS `/bin/bash script --serial s --password p [--port x]`; on Windows the shell with the eleven PowerShell arguments and `-Port x`; the workdir is the production directory; a missing script, a missing shell and other systems fail with their own errors |
| `Dispatch.CommandLayout` | bin/flash_gui.py:492-523 | the password sits at a fixed index, and it is the last argument exactly when no port is given |
| `Dispatch.RedactLastArgument` | bin/flash_gui.py:618 | as written: every argument but the last is shown unchanged and the last becomes `******` |
| `Dispatch.LastArgumentRedaction` | bin/flash_gui.py:618 | as written: with a port the password is displayed and only the port is hidden |
| `Dispatch.PortedCommandShowsPassword` | bin/flash_gui.py:618 | a concrete macOS command with a port whose display contains the password |
| `Dispatch.RedactPassword` | bin/flash_gui.py:618 | corrected: every argument equal to the password is shown as `******`, all others unchanged |
| `Dispatch.RedactPasswordAt` | bin/flash_gui.py:618 | corrected: the argument at a given index is hidden exactly when it equals the password |
| `Dispatch.RedactPasswordHidesPassword` | bin/flash_gui.py:618 | corrected: the displayed command never contains the password, with or without a port |
| `Dispatch.RedactionsAgreeWithoutPort` | bin/flash_gui.py:618 | without a port, and with no other argument equal to the password, the corrected display is the display as written |
| `Ansi.CsiMatchCharacterized` | bin/flash_gui.py:34 | what is matched at the front is a well-formed sequence (ESC, `[`, parameter bytes, intermediate bytes, one final byte); every well-formed sequence at the front is matched whole; so no match means no sequence starts there |
| `Ansi.CsiMatchesWhole` | bin/flash_gui.py:34 | every well-formed control sequence is matched in full |
| `Ansi.RemoveCsiKeepsCharacters` | bin/flash_gui.py:606 | removing sequences never adds characters |
| `Ansi.RemoveCarriageReturnsSpec` | bin/flash_gui.py:606 | no carriage return remains, and text without one is unchanged |
| `Ansi.RemoveCarriageReturnsSplices` | bin/flash_gui.py:606 | at any character of the text, a carriage return is dropped and any other character kept in place between the cleaned text before and after it |
| `Ansi.SanitizeDropsCarriageReturns` | bin/flash_gui.py:606 | a sanitised line contains no carriage return |
| `Ansi.SanitizeRemovesCsi` | bin/flash_gui.py:606 | a control sequence after plain text is removed and the text around it is kept |
| `Ansi.SanitizeKeepsStrayEscape` | bin/flash_gui.py:606 | an escape character that starts no control sequence is kept, with the text before it |
| `Ansi.SanitizePlainText` | bin/flash_gui.py:606 | text without ESC and carriage returns is left unchanged |
| `Ansi.SanitizeIsSinglePass` | bin/flash_gui.py:606 | one pass: a sequence formed only after removing another one stays |
| `Orchestrator.AppendLine` | bin/flash_gui.py:605-610 | the log after one append holds 1..600 lines and ends with the sanitised message |
| `Orchestrator.AppendLineDropsOldest` | bin/flash_gui.py:608-610 | below 600 lines the message is added; at 600 the oldest line makes room |
| `Orchestrator.AppendLinesKeepsLastWindow` | bin/flash_gui.py:605-610 | after any number of appends the log is the last 600 of the old lines followed by the sanitised messages |
| `Orchestrator.FloodKeepsLastLines` | bin/flash_gui.py:605-610 | appending 600 or more lines leaves exactly the last 600 of them |
| `Orchestrator.JobLogEndsWithOutcome` | bin/flash_gui.py:636-646 | whatever a job logged, the log ends with the success or failure line, after the window of earlier lines |
| `Orchestrator.LoggedCommandShowsPassword` | bin/flash_gui.py:617-619 | as written: with a port the logged command line contains the password as an argument of its own, between spaces |
| `Orchestrator.FlashManager.constructor` | bin/flash_gui.py:573-579 | a new manager is idle, `ready`, "Ready to flash Flex Plus", with an empty log |
| `Orchestrator.FlashManager.Start` | bin/flash_gui.py:581-603 | a lookup error or a running job is refused with its message and changes nothing; otherwise the job becomes busy and `flashing`, with the identifier in the message and the two seed log lines |
| `Orchestrator.FlashManager.AppendLog` | bin/flash_gui.py:605-610 | the log becomes `AppendLine` of the old log, within 600 lines |
| `Orchestrator.FlashManager.Finish` | bin/flash_gui.py:636-645 | the job is no longer busy; the status is success or failed with the identifier in the message |
| `Orchestrator.FlashManager.RunFlash` | bin/flash_gui.py:612-646 | ends not busy; succeeds exactly when the command built, the process launched and exited with 0; the log is the old log plus the command line with its last argument hidden, the error or the right-stripped output, and the outcome line |
| `Orchestrator.FlashManager.LogJob` | bin/flash_gui.py:612-635 | the job succeeds exactly when the command built, launched and exited with 0; the log gains the command line displayed with its last argument hidden, then the launch error or the output lines |
| `Orchestrator.FlashManager.LogOutput` | bin/flash_gui.py:629-630 | each output line, right-stripped, is appended in order |
| `Orchestrator.FlashManager.State` | bin/flash_gui.py:648-653 | reports the status code, message and busy flag of the record |
| `Orchestrator.SnapshotLogsSplitBack` | bin/flash_gui.py:653 | the joined log splits back into the log lines |
| `Orchestrator.StartTwice` | bin/flash_gui.py:590-592 | two starts with no job completion in between: at most one is accepted, the second refused as already in progress |
| `Orchestrator.StartAfterFinish` | bin/flash_gui.py:636-646 | after a job has run, a start for a valid unit is accepted |
| `Ports.KeepFirstSameElements` | bin/flash_gui.py:544-549 | de-duplication keeps every device and invents none |
| `Ports.KeepFirstDistinct` | bin/flash_gui.py:544-549 | no device is listed twice |
| `Ports.KeepFirstPrefix` | bin/flash_gui.py:545-549 | later patterns never reorder devices already listed |
| `Ports.KeepFirstOfDistinct` | bin/flash_gui.py:544-549 | a list without duplicates is kept as is |
| `Ports.NonBlankLinesClean` | bin/flash_gui.py:559-562 | every Windows port is non-empty and stripped, and there are no more ports than output lines |
| `Ports.DarwinPortsListed` | bin/flash_gui.py:537-549 | on macOS the ports are exactly the matched devices, each once |
| `Ports.WindowsFailureListsNothing` | bin/flash_gui.py:550-567 | on Windows a missing shell or a failed query yields an empty list |
| `Ports.CollectDarwinPorts` | bin/flash_gui.py:544-549 | the loop with its `seen` set lists each device at its first match |
| `Ports.CollectWindowsPorts` | bin/flash_gui.py:559-562 | the loop keeps the stripped non-blank output lines in order |
| `Ports.ListSerialPorts` | bin/flash_gui.py:534-569 | dispatches on the system: de-duplicated macOS globs, Windows query lines, or the Linux globs in pattern order |

## Left out

- The HTTP server, its request handlers, the embedded HTML page and the browser launch: they are I/O around the core.
- Loading the release manifest, detecting the flow revision with git, and updating the production repository: these are external processes and files.
- Process spawning and threads: `start` returns the job that the source hands to a new thread. `RunFlash` then runs that job as one sequential step. Interleavings of `state` or `start` with a running job are not modelled. Neither is the window between clearing `busy` and appending the outcome line: a `start` accepted there resets the log to the new job's two seed lines, and the old job's outcome line is then appended after them.
- Exceptions raised while the process output is being read, after a successful launch, are not modelled. A launch failure is modelled.
- `shlex.quote` in the command display: arguments are joined with single spaces unquoted.
- CSV tokenising and `int()` parsing: a row arrives already parsed. A number that does not parse is `None`, and so is a missing password cell.
- `Path` joins: script paths are host inputs, as is whether each file exists.
- Python's `str.splitlines` on the PowerShell output: the output arrives as lines.
- `Text.FormatInt`: Python's rendering of negative numbers is modelled for the sign and the padding. Negative values never reach it, because the callers validate them first.
- `Orchestrator.FlashManager.State`: the build metadata it returns (manifest, flow version, revision) is left out with the manifest loading.

## Findings

| source | as written | input that shows it | evidently intended | confidence | as-written member | corrected member |
|---|---|---|---|---|---|---|
| bin/flash_gui.py:618 | the display of the command replaces only the last argument with `******` | on macOS, serial `FP01-24060001`, password `secretpw1`, port `/dev/cu.usbserial-1`: the last argument is the port, and the logged line shows `--password secretpw1` | the password is never displayed, whether or not a port is given | high (not executed) | `Orchestrator.LoggedCommandShowsPassword` | `Dispatch.RedactPasswordHidesPassword` |

`FlashManager` logs the command line as written, through `Dispatch.RedactLastArgument`. The corrected display is `Dispatch.RedactPassword`; `Dispatch.RedactionsAgreeWithoutPort` shows the two agree when no port is given and no other argument equals the password.
