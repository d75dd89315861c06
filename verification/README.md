# UploadGPSData, modelled in Dafny

`UploadGPSData` is the command-line loader of the fleet-management system. It
reads its settings from `--flag=value` tokens plus one positional directory
path. It walks the regular files of that directory. Each file is either
bulk-copied into the taxi table (mode `taxis`) or read as a trajectory CSV
(mode `trajectories`). A trajectory file is read line by line; rows whose taxi
id is in the taxi table are kept, and the kept rows are inserted in batches of
1000 with a final batch for the remainder.

The project models three parts of that program, `command_line.dfy`,
`directory.dfy` and `trajectories.dfy`, on top of two supporting modules,
`java_text.dfy` and `wrappers.dfy`:

- `command_line.dfy` (module `CommandLine`): the argument loop of `main`.
  Each token is read as one action (assign one field, or throw), and the loop
  is a left fold of those actions into a `Config`. A flag token with no value
  and a port that is not a Java `int` throw.
- `directory.dfy` (module `Directory`): the directory walk. Regular files are
  numbered 1..k against the count of all entries and each is sent to the
  routine the mode names. The listing is a parameter.
- `trajectories.dfy` (module `Trajectories`): `insertTrajectoriesData`.
  Lines are classified one by one (dropped, kept, or throwing), and the kept
  rows are cut into batches. Executing a batch is modelled as emitting it.
- `java_text.dfy` (module `JavaText`): the two library calls the behaviour
  hinges on, `String.split` with a one-character separator and limit zero (a
  string without the separator comes back whole; otherwise empty pieces at
  the end are dropped), and `Integer.parseInt`.
- `wrappers.dfy` (module `Wrappers`): `Option` (a Java `null`) and `Result`
  (an exception that escapes).

Behaviour of `UploadGPSData.java` worth noting, which the model keeps:

- A trajectory line is never checked for a field count (lines 163-170).
  Fields after the fourth are ignored. A missing second, third or fourth
  field throws only when it is read, and only for a line whose taxi id is
  known. A line made only of commas has no first field and always throws at
  `data[0]` (line 164).
- A flag token with no value, such as `--type=`, throws at once: its
  `split("=")[1]` is out of bounds (line 37, and likewise lines 39-45).
- A timestamp or coordinate that does not parse raises an unchecked
  exception (lines 168-170). The `catch (SQLException | IOException)` at line
  184 does not wrap it, and it ends the run all the same.

## Model

| member | source | states |
|---|---|---|
| JavaText.JavaSplitJoin | src/main/java/com/fleetmanagement/cli/UploadGPSData.java:163 | Splitting the comma-join of fields that hold no comma gives the fields back, provided the last one is not empty (Java drops trailing empty pieces). |
| JavaText.SecondField | src/main/java/com/fleetmanagement/cli/UploadGPSData.java:37 | `s.split("=")[1]` exists exactly when some character other than `=` follows the first `=`, and it is then the text between the first `=` and the next one or the end. |
| JavaText.ParseInt | src/main/java/com/fleetmanagement/cli/UploadGPSData.java:164 | `Integer.parseInt` accepts only a text that starts with a digit or a sign, and only values inside the 32-bit `int` range. |
| JavaText.ParseIntCanonical | src/main/java/com/fleetmanagement/cli/UploadGPSData.java:164 | A text that is accepted is an optional sign followed by at least one decimal digit and nothing else (so `1a` is rejected), a negative value needs a leading `-`, and the text is the decimal text of its value once a `+` and leading zeros are dropped (and `-0` is read as `0`); it therefore parses to the same value as that decimal text. |
| JavaText.ParseIntAcceptsPadded | src/main/java/com/fleetmanagement/cli/UploadGPSData.java:164 | Every `int` written in decimal with any number of leading zeros, and with a `+` (not negative), a `-` (not positive) or no sign (not negative), is accepted with its value: `+007` is 7 and `-0` is 0. With `ParseIntCanonical` this says exactly which texts are accepted. |
| JavaText.ParseIntRoundTrip | src/main/java/com/fleetmanagement/cli/UploadGPSData.java:164 | Every `int` written in decimal parses back to itself. |
| CommandLine.FlagOf | src/main/java/com/fleetmanagement/cli/UploadGPSData.java:36-46 | The chosen branch's prefix starts the token; no branch is chosen only when none of the five prefixes does. |
| CommandLine.SplitValueOfFlag | src/main/java/com/fleetmanagement/cli/UploadGPSData.java:37-45 | For a flag token, `split("=")[1]` exists exactly when the token has a non-`=` character after its prefix, and it is the text after the prefix up to the next `=`. |
| CommandLine.Put | src/main/java/com/fleetmanagement/cli/UploadGPSData.java:37-47 | An assignment in the loop gives its field the new value and leaves the other five fields as they were. |
| CommandLine.ActionOf | src/main/java/com/fleetmanagement/cli/UploadGPSData.java:36-48 | A token throws exactly when it is rejected (a flag with no value, or a port that is not an `int`), and the error names it. A flag with no value gives the index error and a port that is not an `int` the number-format error. Otherwise it assigns the field it is aimed at: a non-flag token sets the directory to itself; a flag token sets its flag's field to the text between the first and second `=`, parsed for the port. |
| CommandLine.RunSucceeds | src/main/java/com/fleetmanagement/cli/UploadGPSData.java:35-49 | The loop over the tokens' actions completes exactly when no action throws. |
| CommandLine.RunReportsFirst | src/main/java/com/fleetmanagement/cli/UploadGPSData.java:35-49 | A loop that throws reports the first throwing action, and every action before it assigns. |
| CommandLine.RunLastWins | src/main/java/com/fleetmanagement/cli/UploadGPSData.java:27-49 | After a loop with no throw each field holds the value of the last action aimed at it, or its initial value when there is none. |
| CommandLine.ParseArgsSucceeds | src/main/java/com/fleetmanagement/cli/UploadGPSData.java:35-49 | The argument loop completes exactly when no token is rejected. |
| CommandLine.ParseArgsReportsFirst | src/main/java/com/fleetmanagement/cli/UploadGPSData.java:35-49 | A failed loop reports the first rejected token; every token before it is accepted. |
| CommandLine.ParseArgsLastWins | src/main/java/com/fleetmanagement/cli/UploadGPSData.java:27-49 | After the loop each field is set by the last token aimed at it: the last token of its flag, or for the directory the last token of no flag. With no such token the field keeps its initial value (`null`, or port 0). |
| CommandLine.NoFlagsKeepsDefaults | src/main/java/com/fleetmanagement/cli/UploadGPSData.java:27-49 | With no flag tokens the loop succeeds, the port stays 0 and the directory is the last token (or `null` with no tokens). |
| Directory.RoutineFor | src/main/java/com/fleetmanagement/cli/UploadGPSData.java:86-90 | The copy routine is chosen exactly for mode `taxis`, the insert routine exactly for `trajectories`. |
| Directory.FilesAppend | src/main/java/com/fleetmanagement/cli/UploadGPSData.java:81-82 | The regular files are taken in listing order: the files of two consecutive runs of entries are those of the first run followed by those of the second. |
| Directory.FilesComplete | src/main/java/com/fleetmanagement/cli/UploadGPSData.java:81-82 | Every regular entry of the listing is among the files, and the files are all the entries exactly when every entry is a regular file. |
| Directory.PlanFiles | src/main/java/com/fleetmanagement/cli/UploadGPSData.java:81-91 | One step per regular file, in listing order, numbered on from the files already seen, each with the same denominator and the mode's routine. A missing mode fails exactly when there is a regular file. Every routine is taken to return (see Left out). |
| Directory.UnknownModeDoesNothing | src/main/java/com/fleetmanagement/cli/UploadGPSData.java:86-90 | Any other mode walks every file without error and runs no routine. |
| Directory.DispatchAsWritten | src/main/java/com/fleetmanagement/cli/UploadGPSData.java:76-80 | As written, a directory whose listing is `null` throws on `files.length`. |
| Directory.Dispatch | src/main/java/com/fleetmanagement/cli/UploadGPSData.java:74-93 | A missing path throws. A path that is not a listable directory does nothing. Otherwise files are numbered 1..k, k being at most the entry count used as the denominator, and the call succeeds exactly when a mode is given or there is no regular file, every routine being taken to return. |
| Directory.UnlistableDirectory | src/main/java/com/fleetmanagement/cli/UploadGPSData.java:78-80 | On an unlistable directory the written walk throws and the corrected walk does nothing. |
| Directory.SameWalkElsewhere | src/main/java/com/fleetmanagement/cli/UploadGPSData.java:76-93 | On every other input the two walks agree. |
| Trajectories.ClassifyLine | src/main/java/com/fleetmanagement/cli/UploadGPSData.java:163-171 | A line whose id does not parse throws, even if it would be dropped. A line with an unknown id is dropped whatever its other fields hold. A line with a known id is never silently dropped. |
| Trajectories.ClassifyRaises | src/main/java/com/fleetmanagement/cli/UploadGPSData.java:163-170 | Which exception a line raises: the index error on `data[0]` exactly when the line has no first field (only commas), the number-format error on the id exactly when the first field does not parse, whatever the known ids. Any other error comes from a line with a known id: a missing second to fourth field, an unparseable timestamp in the second field, or an unparseable coordinate in the third or fourth. |
| Trajectories.ClassifyAccepts | src/main/java/com/fleetmanagement/cli/UploadGPSData.java:163-171 | A line becomes a given row exactly when its id is known and its second to fourth fields are the row's timestamp and coordinates, all parseable. |
| Trajectories.ClassifyRendered | src/main/java/com/fleetmanagement/cli/UploadGPSData.java:163-171 | A well-formed row written as a CSV line reads back as itself when its id is known, and is dropped otherwise. |
| Trajectories.ScanFailsAtFirst | src/main/java/com/fleetmanagement/cli/UploadGPSData.java:162-181 | Reading ends cleanly exactly when no line throws; otherwise it stops at the first line that throws, with the rows read before it. |
| Trajectories.ScanKeepsExactly | src/main/java/com/fleetmanagement/cli/UploadGPSData.java:162-171 | Every kept row has a known id. On a clean read the kept ids are the known ids of the lines, in file order, one per line. |
| Trajectories.EmptySetKeepsNothing | src/main/java/com/fleetmanagement/cli/UploadGPSData.java:166 | With no known ids no row is ever kept. |
| Trajectories.ScanRendered | src/main/java/com/fleetmanagement/cli/UploadGPSData.java:162-181 | A file of well-formed rows yields exactly the rows with a known id, in file order. |
| Trajectories.FullBatchesSnoc | src/main/java/com/fleetmanagement/cli/UploadGPSData.java:171-179 | Adding one row flushes a batch exactly when the row count reaches a multiple of 1000, and the flushed batch is the pending rows plus the new one. |
| Trajectories.BatchesPartition | src/main/java/com/fleetmanagement/cli/UploadGPSData.java:173-182 | The batches concatenate to the kept rows in order. There are `k / 1000 + 1` of them, all but the last of 1000 rows, and the last of `k % 1000` (possibly none). |
| Trajectories.ReadLines | src/main/java/com/fleetmanagement/cli/UploadGPSData.java:160-182 | The read loop for any line classification: it completes exactly when no line throws, and then its batches are `Batches` of the kept rows, concatenating to them, with `batchCount` the number of full batches. When a line throws, the error and line index are the first throwing line's and the full batches of the rows before it stay executed. |
| Trajectories.InsertTrajectoriesData | src/main/java/com/fleetmanagement/cli/UploadGPSData.java:152-187 | The loop completes exactly when no line throws. It then emits the batches of the kept rows, which concatenate to those rows, with `batchCount = k / 1000`. When a line throws, the batches flushed before it stay emitted and the error names that line. |
| Trajectories.KnownIdsScenario | src/main/java/com/fleetmanagement/cli/UploadGPSData.java:162-171 | With ids {1, 2} known, a file with rows for taxis 1, 3, 2, 3 keeps the rows for 1 and 2, in that order. |

## Left out

- The database: the JDBC connection, `loadAllTaxiIds` (taken as the input set `ids`), `PreparedStatement` and `executeBatch`. A flush is modelled as emitting the batch.
- `copyTaxiData`: a PostgreSQL `COPY` of the whole file with no logic of its own. The walk only records that the copy routine is chosen.
- Running the routines from the walk: the walk and the insert loop are modelled separately, not as one run over a file system.
- Directory.Dispatch: assumes every routine returns. In the program a routine that throws ends the walk at that file, and later files are neither numbered nor processed. `copyTaxiData` rethrows as `RuntimeException` (line 141). `insertTrajectoriesData` lets parse errors escape (lines 164-170) and wraps SQL and I/O errors (line 185). `main` catches only `SQLException` (line 98).
- Directory.PlanFiles: assumes every routine returns, as `Directory.Dispatch` does; a throwing routine would end the loop at its file.
- The password prompt, `System.out` printing, and building the JDBC URL.
- File and directory I/O: a file is its sequence of lines, a directory listing is a parameter.
- `Timestamp.valueOf` and `Double.parseDouble`: they are predicates passed in (`Parsers`), and the timestamp and coordinates are kept as text.
- JavaText.ParseInt: accepts ASCII digits only; `Integer.parseInt` also accepts other Unicode decimal digits.
- Trajectories.InsertTrajectoriesData: `rowCount` is an unbounded integer; the Java `int` would wrap after 2^31 kept rows in one file.
- Trajectories.ScanKeepsExactly: relates the kept ids to the lines only for a clean read; for a read that throws it states only that every kept row has a known id.

## Findings

| source | as written | input that shows it | evidently intended | confidence | as-written member | corrected member |
|---|---|---|---|---|---|---|
| src/main/java/com/fleetmanagement/cli/UploadGPSData.java:78-80 | `files.length` is read before the `files != null` test, so the test can never be reached with `null` | a directory whose `listFiles()` returns `null` (for example one the process may not read) | skip the directory, as the `null` test means to | not executed | Directory.DispatchAsWritten | Directory.Dispatch |
