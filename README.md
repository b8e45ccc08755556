# BMD decruncher driver, modelled in Dafny

This project models the conversion driver of the BMD-to-HPROF decruncher
(`BmdDecruncher.java`). BMD is a condensed heap-dump format. The driver turns a
BMD file back into an HPROF heap dump. It recovers hashed strings from string
source files (`.dex`, `.apk` or `.jar`). The driver has three phases:

1. **String-source dispatch and merge.** Each string source name is classified
   by a case-sensitive suffix test. `.dex` or `.apk` selects the APK reader.
   Otherwise `.jar` selects the JAR reader. Any other name throws
   `IllegalArgumentException`. The strings the readers return are merged into
   one set.
2. **Conversion.** Both streams are wrapped in buffers unless they are buffered
   already. The BMD reader is pulled while it has a next record. Then the
   processor writes the heap records once and the output is flushed. The output
   is closed in a `finally` that covers only this phase.
3. **Command line.** With two or more arguments, the first is the input, the
   second the output and the rest are string sources, in order. With fewer
   arguments (or none) the exit status is 1. Success exits with 0. An
   `IOException` exits with 2. An `IllegalArgumentException` is not caught.

The collaborators are not modelled internally. These are the string readers,
the BMD reader, the heap-record processor and the file streams. An
`Environment` value gives their behaviour for one run: what each reader returns
for each name, the items the BMD reader yields, and which calls throw. Every
operation returns a `Behaviour`: the log of collaborator calls in order
(`Event`s such as `ReadApk`, `Next`, `WriteHeap`, `Flush`, `Close`) and how the
call ended. The log stands in for the streams' state: `Close(s)` in the log is
stream `s` being closed.

Files:

- `collaborators.dfy` (module `Collaborators`): failures, readings, BMD items,
  streams, events and the environment.
- `string_sources.dfy` (module `StringSources`): suffix dispatch and the loop
  that merges the string sets.
- `decruncher.dfy` (module `BmdDecruncher`): stream buffering, the pull loop and
  the `try`/`finally`.
- `command_line.dfy` (module `CommandLine`): splitting the arguments and mapping
  outcomes to exit statuses.

The source's loops are Dafny methods with loops: `CollectStrings` (the `for`
loop over string sources) and `PullRecords` (the `hasNext`/`next` loop). The
steps around them are methods too: `RunConversion` (buffering and the
`try`/`finally`), `Decrunch` and `RunMain` (the argument list handling). Each
method is proved equal to a specification function: `Gather`, `Pull`,
`Convert`, `DecrunchBehaviour` and `MainBehaviour`. The lemmas then state the
driver's properties about those functions. `decrunch` is split into
`CollectStrings` and `RunConversion` only to keep each proof small. The split
falls after the dispatch loop (line 48), before the buffering of the streams.

Three consequences of the code's structure are worth stating, since a reader
might expect otherwise:

- The dispatch loop (lines 38-47) runs before the `try` (line 56). So a bad
  name or a failing reader leaves `out` unclosed (`DispatchFailureOpensNothing`).
- `main` catches only `IOException` (line 93). So the
  `IllegalArgumentException` raised for an unsupported name escapes `main`
  (`Termination.Uncaught`, `UncaughtIff`).
- `main` opens the input and then the output (line 90) before `decrunch`
  classifies any name. Sources listed before a bad name have already been read
  (`GatherReadsBeforeFailure`, `ArgumentsInOrderBeforeFailure`).

## Model

| member | source | states |
|---|---|---|
| `StringSources.EndsWithIffConcat` | decruncher/src/main/java/com/badoo/bmd/decruncher/BmdDecruncher.java:39-43 | the suffix test holds exactly when the name is some prefix followed by the suffix |
| `StringSources.ClassifyApkIff` | decruncher/src/main/java/com/badoo/bmd/decruncher/BmdDecruncher.java:39-40 | a name goes to the APK reader if and only if it ends in `.dex` or `.apk` |
| `StringSources.ClassifyJarIff` | decruncher/src/main/java/com/badoo/bmd/decruncher/BmdDecruncher.java:42-43 | a name goes to the JAR reader if and only if it ends in `.jar` and in neither `.dex` nor `.apk` |
| `StringSources.ClassifyBySuffix` | decruncher/src/main/java/com/badoo/bmd/decruncher/BmdDecruncher.java:39-47 | whatever the prefix, `.dex` and `.apk` select the APK reader and `.jar` the JAR reader; the upper-case `.DEX`, `.APK` and `.JAR` are rejected |
| `StringSources.ReaderCall` | decruncher/src/main/java/com/badoo/bmd/decruncher/BmdDecruncher.java:39-43 | an accepted name is handed to exactly one reader, with the name itself, and to the JAR reader only when it classifies as JAR |
| `StringSources.Classify` | decruncher/src/main/java/com/badoo/bmd/decruncher/BmdDecruncher.java:39-47 | a name is accepted exactly when it ends in `.dex`, `.apk` or `.jar`; a name ending in `.dex` or `.apk` never goes to the JAR reader |
| `StringSources.ReadSource` | decruncher/src/main/java/com/badoo/bmd/decruncher/BmdDecruncher.java:38-47 | one iteration calls no reader exactly when the name is rejected; a rejected name, and only a rejected name, gives an IllegalArgumentException whose message is "Invalid string input file: " followed by the name; an accepted name yields the strings of the reader its suffix selects, or an IOException with that reader's message |
| `StringSources.Gather` | decruncher/src/main/java/com/badoo/bmd/decruncher/BmdDecruncher.java:37-48 | the loop makes at most one reader call per name and nothing but reader calls; when it completes there is exactly one call per name |
| `StringSources.CollectStrings` | decruncher/src/main/java/com/badoo/bmd/decruncher/BmdDecruncher.java:37-48 | the `for` loop's reader calls, merged set and failure are those of the specification `Gather` |
| `StringSources.GatherOkIff` | decruncher/src/main/java/com/badoo/bmd/decruncher/BmdDecruncher.java:38-48 | the loop completes if and only if every name is accepted and read without an error |
| `StringSources.GatherUnion` | decruncher/src/main/java/com/badoo/bmd/decruncher/BmdDecruncher.java:37-43 | on success a string is in the merged set if and only if some file's reader returned it |
| `StringSources.GatherDependsOnlyOnNames` | decruncher/src/main/java/com/badoo/bmd/decruncher/BmdDecruncher.java:37-43 | two name lists with the same names (repeated or permuted) both succeed or both fail, and on success give the same set |
| `StringSources.GatherLogOk` | decruncher/src/main/java/com/badoo/bmd/decruncher/BmdDecruncher.java:38-44 | on success the i-th reader call is for the i-th name, one call per name, in list order |
| `StringSources.GatherStopsAtFirstFailure` | decruncher/src/main/java/com/badoo/bmd/decruncher/BmdDecruncher.java:38-47 | when name k is the first to fail, the loop fails with that name's failure and no name after it is read |
| `StringSources.GatherReadsBeforeFailure` | decruncher/src/main/java/com/badoo/bmd/decruncher/BmdDecruncher.java:38-44 | when every name before k is read without error, the first k reader calls are for those names, in order, each to the reader its suffix selects |
| `StringSources.GatherFirstFailure` | decruncher/src/main/java/com/badoo/bmd/decruncher/BmdDecruncher.java:38-47 | a failing loop has a first failing name, and the loop's failure is that name's failure |
| `StringSources.ReaderChoice` | decruncher/src/main/java/com/badoo/bmd/decruncher/BmdDecruncher.java:39-43 | every APK reader call is for a name ending in `.dex` or `.apk`; every JAR reader call is for a name ending in `.jar` and in neither of the others |
| `BmdDecruncher.EnsureBuffered` | decruncher/src/main/java/com/badoo/bmd/decruncher/BmdDecruncher.java:50-55 | the result is buffered and wraps the same underlying stream; an already buffered stream is returned as it is, and any other is wrapped exactly once |
| `BmdDecruncher.Pull` | decruncher/src/main/java/com/badoo/bmd/decruncher/BmdDecruncher.java:59-61 | the loop makes only `next()` calls, at most one per item, all of them when it ends normally, and throws only IOException |
| `BmdDecruncher.PullAllRecords` | decruncher/src/main/java/com/badoo/bmd/decruncher/BmdDecruncher.java:59-61 | when every item decodes, the loop makes one `next()` call per item, in order, and ends normally |
| `BmdDecruncher.PullStopsAtCorrupt` | decruncher/src/main/java/com/badoo/bmd/decruncher/BmdDecruncher.java:59-61 | when item k is the first that fails to decode, the loop makes k+1 `next()` calls and throws that item's IOException |
| `BmdDecruncher.PullCompletesIff` | decruncher/src/main/java/com/badoo/bmd/decruncher/BmdDecruncher.java:59-61 | the loop ends normally if and only if every item decodes; it throws only IOException and calls only `next()` |
| `BmdDecruncher.PullRecords` | decruncher/src/main/java/com/badoo/bmd/decruncher/BmdDecruncher.java:59-61 | the `hasNext`/`next` loop, left on the first exception, gives exactly the calls and outcome of `Pull` |
| `BmdDecruncher.TryBlock` | decruncher/src/main/java/com/badoo/bmd/decruncher/BmdDecruncher.java:56-65 | the `try` body first creates the processor on the output with the merged strings, then the reader on the input; it never closes, ends with the flush when it completes, and throws only IOException |
| `BmdDecruncher.Finally` | decruncher/src/main/java/com/badoo/bmd/decruncher/BmdDecruncher.java:66-68 | the close is appended after whatever the body did, exactly once; the result is normal exactly when the body's is and close succeeds; an exception from close replaces the body's |
| `BmdDecruncher.Convert` | decruncher/src/main/java/com/badoo/bmd/decruncher/BmdDecruncher.java:49-68 | the conversion starts by creating the processor on the buffered output, always ends by closing that buffered output, and throws only IOException |
| `BmdDecruncher.RunConversion` | decruncher/src/main/java/com/badoo/bmd/decruncher/BmdDecruncher.java:49-68 | buffering, the `try` body and the `finally` close give exactly the log and outcome of `Convert` |
| `BmdDecruncher.DecrunchBehaviour` | decruncher/src/main/java/com/badoo/bmd/decruncher/BmdDecruncher.java:36-69 | `decrunch` first makes the dispatch loop's reader calls; when the loop succeeds the last call is the close of the buffered output; an IllegalArgumentException comes with reader calls only |
| `BmdDecruncher.Decrunch` | decruncher/src/main/java/com/badoo/bmd/decruncher/BmdDecruncher.java:36-69 | the dispatch loop followed, when it succeeds, by the conversion gives exactly the log and outcome of `DecrunchBehaviour` |
| `BmdDecruncher.DispatchFailureOpensNothing` | decruncher/src/main/java/com/badoo/bmd/decruncher/BmdDecruncher.java:38-56 | a dispatch or reader failure is rethrown unchanged, and the log then holds only reader calls: no processor, no `next()`, no heap write, no flush, no close |
| `BmdDecruncher.CloseOnceAtEnd` | decruncher/src/main/java/com/badoo/bmd/decruncher/BmdDecruncher.java:56-68 | once the `try` is entered, the buffered output is closed exactly once, as the last call, on every path; it wraps the caller's stream |
| `BmdDecruncher.ConvertStart` | decruncher/src/main/java/com/badoo/bmd/decruncher/BmdDecruncher.java:57-58 | the `try` first creates the processor on the buffered output with the merged strings, then the BMD reader on the buffered input |
| `BmdDecruncher.ProcessorGetsMergedStrings` | decruncher/src/main/java/com/badoo/bmd/decruncher/BmdDecruncher.java:57-58 | right after the reader calls, the processor is created on the buffered output with exactly the union of all reader results, then the BMD reader on the buffered input |
| `BmdDecruncher.ConversionTrace` | decruncher/src/main/java/com/badoo/bmd/decruncher/BmdDecruncher.java:56-68 | when every record decodes, the conversion's log is processor and reader creation, one `Next` per record, `WriteHeap`, `Flush` (unless the heap write failed) and `Close`; an exception from close replaces any earlier one |
| `BmdDecruncher.CorruptRecordTrace` | decruncher/src/main/java/com/badoo/bmd/decruncher/BmdDecruncher.java:56-68 | when record k is the first that fails to decode, the conversion's log is processor and reader creation, the `Next` calls up to k and then `Close`, with no heap write or flush; the IOException thrown is close's if close fails, else record k's |
| `BmdDecruncher.DecrunchCompletesIff` | decruncher/src/main/java/com/badoo/bmd/decruncher/BmdDecruncher.java:36-69 | `decrunch` returns normally if and only if every name is accepted and read, every record decodes, and the heap write, flush and close all succeed |
| `CommandLine.ExitFor` | decruncher/src/main/java/com/badoo/bmd/decruncher/BmdDecruncher.java:90-97 | a normal return exits with 0 and an IOException with 2; an IllegalArgumentException escapes `main` unchanged |
| `CommandLine.MainBehaviour` | decruncher/src/main/java/com/badoo/bmd/decruncher/BmdDecruncher.java:71-98 | `main` exits with 0, 1 or 2, or lets an IllegalArgumentException escape; any file activity starts with opening `args[0]`, so it needs at least two arguments |
| `CommandLine.RunMain` | decruncher/src/main/java/com/badoo/bmd/decruncher/BmdDecruncher.java:71-98 | the two `remove(0)` calls and `addAll` split the arguments, and the run's termination and log are those of `MainBehaviour` |
| `CommandLine.UsageIff` | decruncher/src/main/java/com/badoo/bmd/decruncher/BmdDecruncher.java:76-89 | the exit status is 1 if and only if `args` is null or has fewer than two elements, and then no file is opened or read |
| `CommandLine.ArgumentsInOrder` | decruncher/src/main/java/com/badoo/bmd/decruncher/BmdDecruncher.java:76-90 | in a successful run, `args[0]` is opened as input, then `args[1]` as output, then `args[i]` (i >= 2) is read by its reader in argument order |
| `CommandLine.ArgumentsInOrderBeforeFailure` | decruncher/src/main/java/com/badoo/bmd/decruncher/BmdDecruncher.java:76-90 | in any run where both files open, `args[0]` and `args[1]` are opened first, and every source before the first failing one is read by its reader, in argument order |
| `CommandLine.SuccessIff` | decruncher/src/main/java/com/badoo/bmd/decruncher/BmdDecruncher.java:90-91 | the exit status is 0 if and only if there are at least two arguments, both files open, and `decrunch` returns normally |
| `CommandLine.IOFailureIff` | decruncher/src/main/java/com/badoo/bmd/decruncher/BmdDecruncher.java:90-96 | the exit status is 2 if and only if opening a file or the conversion throws an IOException |
| `CommandLine.UncaughtIff` | decruncher/src/main/java/com/badoo/bmd/decruncher/BmdDecruncher.java:90-97 | when both files open, an exception escapes `main` if and only if some source name is rejected and every name before it was read; the exception is the IllegalArgumentException naming that file |

## Left out

- File and stream I/O are parameters of the `Environment`. This covers `FileInputStream`, `FileOutputStream` and the buffered wrappers' byte handling. An opening fault stands for the `FileNotFoundException` the constructor throws.
- `System.out` and `System.err` printing and `printStackTrace` are not modelled. The same goes for `System.exit` as a process effect: the exit status is a returned `Termination`.
- The internals of `BmdReader`, `DecrunchProcessor`, `ApkStringReader` and `JarStringReader` are not part of this model. So the BMD record format, the string hash and hash resolution are left out, and so is heap-record ordering. Each reader is a function from name to strings or an I/O error. The BMD reader is a finite sequence of items, each a record or a decoding error raised by `next()`.
- Constructing `DecrunchProcessor` or `BmdReader`, and calling `hasNext()`, are taken never to throw. Only `next()`, `writeHeapRecords()`, `flush()` and `close()` can fail inside the `try`.
- Closing a `BufferedOutputStream` flushes it first. That flush inside `close()` is part of the `Close` event, not a separate `Flush`.
- `args` elements that are null, and Java's unchecked exceptions other than `IllegalArgumentException`, are not modelled.
- The JVM's exit status after an uncaught exception is the runtime's business. The model reports the escaping exception instead of a number.
- The viewer (`MainWindow`, `ViewGroup`) is not part of this model. It does not take part in conversion.
