# IfcExtract command-line driver, modelled in Dafny

IfcExtract converts IFC building-model files into XML files that hold 2D section
geometry (written by an SVG serializer) and the properties of the model's objects.
The hand-written logic of the tool is its `main` function. This project models that
driver:

- how the command line is classified in one strict left-to-right pass: usage error,
  help, version, extension error, or a list of accepted file names with a log level;
- the case-insensitive extension test, which is containment of `.ifc` and not a
  suffix test;
- the output file name, which is the input name with its last three characters
  replaced by `xml`;
- the verbosity policy: the Logger severity, the progress text, and the echo of the
  buffered log;
- the progress dots and count lines printed while the elements of a file are
  written;
- the per-file main loop. It ends the whole run at the first file that cannot be
  read or iterated.

Modules:

- `Text` (`text.dfy`): ASCII lower-casing, a model of `std::string::find` with
  `npos`, and the case-insensitive `.ifc` test.
- `Cli` (`cli.dfy`): argument kinds, the scan, `Classify`, the loop as a method
  (`ParseArguments`), reference definitions by position (`FileIndices`,
  `LastLevelFlag`), and `OutputName`.
- `CliExamples` (`cli_examples.dfy`): the argument rules and whole runs worked
  through on concrete command lines.
- `Verbosity` (`verbosity.dfy`): severity, progress and echo as functions of the
  log level, and what the last flag on the line decides.
- `Progress` (`progress.dfy`): the do-while loop over the elements of one file and
  its dot and count-line output.
- `Driver` (`driver.dfy`): the main loop over files and the whole of `main`
  (`Execute`). The IFC parser and the geometry iterator are parameters, given as
  an `Environment`.

`argv` is modelled with the program name at position 0, as in C++. `EXIT_SUCCESS`
is 0 and `EXIT_FAILURE` is 1. Lower-casing follows the classic locale: only
`A`–`Z` change.

Three behaviours of the code shape the model. The first two differ from what the
program's own messages suggest, and the model follows the code:

- The error message at src/IfcExtract.cpp:92 says the extension "must be .ifc".
  The test at line 91 accepts any argument whose lower-cased form *contains*
  `.ifc`, anywhere (`a.IFC.bak`, `model.ifcxml`).
- The usage texts at src/IfcExtract.cpp:54 and :68 show `<IFC_file>` as required.
  A line with only level flags (`IfcExtract -q`) is accepted all the same: the
  main loop has no files, and the run exits with `EXIT_SUCCESS` having printed and
  written nothing (`CliExamples.FlagsWithoutFiles`).
- `main` returns at the first file that cannot be read or iterated, so the files
  after it are never processed (`Driver.ProcessFilesWritten`).

Because the test is containment, an input such as `model.ifcxml` is accepted, and
its output name equals the input name (`Cli.OutputNameFixedPoint`).

## Model

| member | source | states |
|---|---|---|
| Text.Find | src/IfcExtract.cpp:91 | `find` returns the first position at or after the start where the pattern occurs, or npos exactly when it occurs nowhere from there on |
| Text.FindFromStart | src/IfcExtract.cpp:91 | searching from position 0 answers npos if and only if the pattern does not occur in the string at all |
| Text.LowerCharIs | src/IfcExtract.cpp:91 | in the classic locale a character lower-cases to a given lower-case letter exactly when it is that letter or its upper-case form: only `A`–`Z` change |
| Text.LowerOccursAt | src/IfcExtract.cpp:91 | the lower-cased argument has `.ifc` at position i if and only if the argument has `.`, `i`/`I`, `f`/`F`, `c`/`C` there |
| Text.LowerFindIff | src/IfcExtract.cpp:91 | the driver's test `to_lower_copy(argument).find(".ifc") != npos` holds exactly when `.ifc` occurs somewhere in the argument in any case, not only at the end |
| Cli.KindOf | src/IfcExtract.cpp:80-95 | the kind of one argument, tested in the loop's order: a level flag stores one of -1, 1, 2, and a file name has at least four characters |
| Cli.KindOfFollowsExtensionTest | src/IfcExtract.cpp:91-95 | for an argument that is none of the seven flags, the kind is a bad name exactly when `to_lower_copy(a).find(".ifc")` is npos, and a file name otherwise |
| Cli.Step | src/IfcExtract.cpp:79-95 | one pass of the loop body: if it does not return, it either appends this argument keeping the level or keeps the list; if it returns, the outcome is help, version, or an extension error naming this argument; once returned nothing resumes |
| Cli.Scan | src/IfcExtract.cpp:78-96 | the loop over the arguments: while it has not returned it holds at most one name per argument, every one a file name, and one of the levels 0, -1, 1, 2 |
| Cli.ParseStep | src/IfcExtract.cpp:79-95 | one pass at position idx: an argument that returns decides the whole outcome, a level flag replaces the level, a file name is appended |
| Cli.ExitCode | src/IfcExtract.cpp:48-92 | for an outcome that ends the process before the main loop, the status is `EXIT_SUCCESS` or `EXIT_FAILURE`, and `EXIT_SUCCESS` exactly for help (`help_message`) and version; a usage or extension error returns `error_message`'s `EXIT_FAILURE` |
| Cli.Classify | src/IfcExtract.cpp:67-72 | the outcome is a usage error exactly when there is no argument after the program name |
| Cli.NoArgumentsIsUsageError | src/IfcExtract.cpp:67-72 | with `argc < 2` the run is a usage error that returns `EXIT_FAILURE` |
| Cli.ParseArguments | src/IfcExtract.cpp:74-96 | the argument loop as written, with its early returns, `loglevel` overwrites and `push_back`, computes exactly the outcome of `Classify` |
| Cli.ScanStopsEarly | src/IfcExtract.cpp:80-92 | the loop only returns help, version or an extension error, never a usage error or an accepted list |
| Cli.FileIndices | src/IfcExtract.cpp:93-94 | the positions of the file-name arguments, strictly increasing, each holding a file name, and every file-name position included |
| Cli.LastLevelFlag | src/IfcExtract.cpp:85-90 | the position of the last `-q`/`-e`/`-w`, with no level flag after it, or none when the line has no level flag |
| Cli.ScanContinues | src/IfcExtract.cpp:78-96 | while no argument has ended the loop, the collected names are exactly the file names in order and the level is that of the last level flag, or 0 |
| Cli.ScanIgnoresRest | src/IfcExtract.cpp:80-92 | once the loop has returned, appending any further arguments does not change the state |
| Cli.ScanStopsAt | src/IfcExtract.cpp:78-92 | the loop returns at the first help, version or bad argument, with the outcome that argument selects |
| Cli.ScanFirstEnd | src/IfcExtract.cpp:78-92 | the first help, version or bad argument decides the final state of the whole scan |
| Cli.FirstEndingArgumentWins | src/IfcExtract.cpp:78-92 | the first `-h`/`--help`, `-v`/`--version` or bad argument decides the outcome; help and version exit with `EXIT_SUCCESS`, a bad argument with `EXIT_FAILURE` |
| Cli.LaterArgumentsIgnored | src/IfcExtract.cpp:80-92 | when the loop returns early, arguments after it are never inspected: appending anything keeps the outcome |
| Cli.AcceptedIff | src/IfcExtract.cpp:75-99 | the files are processed if and only if there is an argument and none is help, version or bad; the accepted names are then exactly the file-name arguments in command-line order, and the level is that of the last level flag |
| Cli.FirstEnd | src/IfcExtract.cpp:78-92 | the leftmost argument that ends the loop, when one exists |
| Cli.ExtensionErrorNamesBadArgument | src/IfcExtract.cpp:91-92 | an extension error names an argument of the line that is not one of the seven flags and has no `.ifc` in any case |
| Cli.FilesOfHaveIfcMark | src/IfcExtract.cpp:91-94 | every collected file name contains `.ifc` in some case and has at least four characters |
| Cli.AcceptedNamesHaveIfcMark | src/IfcExtract.cpp:91-94 | every accepted file name contains `.ifc` in some case and has at least four characters |
| Cli.AppendFileName | src/IfcExtract.cpp:93-94 | a file name appended to an accepted line is accepted as the last file, and the level is unchanged |
| Cli.AppendLevelFlag | src/IfcExtract.cpp:85-90 | a level flag appended to an accepted line sets the level to its own value and leaves the files unchanged: the last flag wins |
| Cli.StoppedPrefixDecides | src/IfcExtract.cpp:80-92 | a prefix of the line on which the loop has returned decides the outcome |
| Cli.OutputName | src/IfcExtract.cpp:100-101 | the output name has the input's length, keeps all but the last three characters, and ends in `xml`; `replace` needs at least three characters |
| Cli.AcceptedNamesHaveOutputName | src/IfcExtract.cpp:91-101 | every accepted name is long enough for the `replace` at `length() - 3` to be well-defined |
| Cli.OutputNameFixedPoint | src/IfcExtract.cpp:100-101 | the output name equals the input name exactly when the input already ends in `xml` |
| CliExamples.MarkInsideName | src/IfcExtract.cpp:91 | `a.IFC.bak` is accepted as a file name: the test is containment, in any case |
| CliExamples.MarkAtEnd | src/IfcExtract.cpp:91 | `model.ifc` is accepted as a file name |
| CliExamples.UnknownFlagRejected | src/IfcExtract.cpp:85-92 | the unknown flag `-z` falls through to the extension test and is a bad argument |
| CliExamples.OtherExtensionRejected | src/IfcExtract.cpp:91-92 | `model.xml` is a bad argument |
| CliExamples.OutputNameExamples | src/IfcExtract.cpp:100-101 | `model.ifc` gives `model.xml`; `model.ifcxml` gives itself |
| CliExamples.FlagsWithoutFiles | src/IfcExtract.cpp:75-170 | a line with only `-q` is accepted with no files and level -1, and the whole run, whatever the environment, exits with `EXIT_SUCCESS` with nothing on standard output and no output file |
| CliExamples.BadNameBeforeHelp | src/IfcExtract.cpp:78-92 | a bad name before `-h` gives an extension error; `-h` before a bad name gives help |
| Verbosity.AcceptedLevels | src/IfcExtract.cpp:76-90 | an accepted line carries one of the levels -1, 0, 1, 2 |
| Verbosity.SeverityFollowsLastFlag | src/IfcExtract.cpp:104-108 | the Logger severity is LOG_WARNING exactly when the last level flag is `-w`, and LOG_ERROR otherwise |
| Verbosity.ProgressFollowsLastFlag | src/IfcExtract.cpp:118-120 | progress text is printed unless the last level flag is `-q` |
| Verbosity.EchoFollowsLastFlag | src/IfcExtract.cpp:165-167 | the buffered log is echoed exactly when the last level flag is `-e` or `-w` |
| Progress.TickContents | src/IfcExtract.cpp:145-150 | after the counter reaches n, one dot is printed when 5 divides n and one count line showing n when 500 divides n |
| Progress.DotsAfter | src/IfcExtract.cpp:139-147 | after n elements exactly n / 5 dots have been printed |
| Progress.CountLinesAfter | src/IfcExtract.cpp:139-150 | after n elements the count lines shown are 500, 1000, …, n / 500 of them |
| Progress.ReportProgress | src/IfcExtract.cpp:139-152 | the do-while body runs once plus once per successful `next()`; with level ≥ 0 the counter equals that number, and the dots and count lines match it; with `-q` the counter stays 0 and nothing is printed |
| Driver.ProcessFiles | src/IfcExtract.cpp:99-170 | the main loop exits with `EXIT_FAILURE` exactly when it records a failure, and finishes at most one output per file, one fewer when a file fails |
| Driver.ProcessFilesWritten | src/IfcExtract.cpp:99-168 | the finished output files are the output names of the longest prefix of files that can be read and iterated; the first file that fails is named with the reason, and no later file is touched |
| Driver.ProcessFilesExit | src/IfcExtract.cpp:124-170 | the main loop exits with `EXIT_SUCCESS` exactly when every accepted file can be read and iterated |
| Driver.QuietPrintsNothing | src/IfcExtract.cpp:118-167 | with level -1 nothing at all is written to standard output by the main loop |
| Driver.FileOutput | src/IfcExtract.cpp:118-167 | standard output of one finished file: its progress marks, plus two lines ("Processing", "Creating XML") when the level is at least 0 and one echo when it is above 0 |
| Driver.FileOutputCreatesXml | src/IfcExtract.cpp:158-160 | a finished file prints "Creating XML" once when the level is at least 0, and not at all otherwise |
| Driver.CreatedXmlFiles | src/IfcExtract.cpp:99-168 | over the whole main loop, "Creating XML" is printed once per finished file when the level is at least 0, and never otherwise; a file that fails never reaches it |
| Driver.FileOutputAnnounced | src/IfcExtract.cpp:118-120 | a finished file is announced once when progress is printed, and not at all otherwise |
| Driver.FileOutputEchoes | src/IfcExtract.cpp:165-167 | a finished file's log is echoed once when the level is above 0, and not at all otherwise |
| Driver.AnnouncedOnFailure | src/IfcExtract.cpp:118-126 | a first file that fails is announced when progress is printed, and nothing is finished |
| Driver.AnnouncedFiles | src/IfcExtract.cpp:118-120 | when progress is printed, "Processing" names every file the loop reached, in order: the finished ones and the one that failed |
| Driver.EchoedFiles | src/IfcExtract.cpp:165-167 | the buffered log is echoed once per finished file exactly when the level is above 0 |
| Driver.Execute | src/IfcExtract.cpp:66-171 | `main` exits with `EXIT_SUCCESS` exactly for help, version, or an accepted line whose files all succeed; no output file is finished unless the whole line is accepted; a bad argument and a missing argument are reported as such |
| Driver.BadArgumentStopsEverything | src/IfcExtract.cpp:91-92 | a bad argument before any help or version flag ends the run with `EXIT_FAILURE` before any file is read: no output file and nothing on standard output |

## Left out

- Sectioning, SVG writing, XML property writing, IFC parsing and the geometry
  iterator are IfcOpenShell code that is not part of this model. `IfcFile::Init`,
  the iterator's `initialize()`, and the number of successful `next()` calls appear
  only as the `Environment` answers for each file.
- The section-plane height (half way up the shape, at most 1 metre above its lowest
  point) appears only in the help text, not in code, and is not modelled.
- `XmlSerializer` (src/XmlSerializer.h) reads the SVG output back with `read_xml`
  and adds the property values. The model records only that a file's output was
  finished. `read_xml` (src/XmlSerializer.h:38-39) throws when the output it has
  just written cannot be opened or parsed, for instance in a directory that cannot
  be written. `main` has no handler, so the process then ends abnormally and not
  with `EXIT_SUCCESS`. The model assumes every output can be written and read back.
  `Driver.Execute` and `Driver.ProcessFilesExit` say "`EXIT_SUCCESS` exactly when
  every file can be read and iterated" under that assumption.
- Driver.Execute: the `Environment` gives one fixed answer per file name. A run
  that reads a file it has itself overwritten earlier in the same run is not
  represented. An example is `model.ifcxml` given twice, since it is its own output
  name. The second read would see the first run's output.
- `error_message` and `die_after` start a thread, sleep 10 seconds, and wait for
  stdin. These are modelled only as the `EXIT_FAILURE` they return.
- Text written to standard error (usage, help, error messages) is not modelled.
  Standard output is modelled as a sequence of events, not as exact characters.
- The serializer settings (no triangulation, element GUIDs, deflection tolerance
  1e-3, default precision) and the unit `METER` with magnitude 1.0 are floating-point
  configuration passed to libraries. They are left out.
- `Logger::SetOutput` and the contents of the buffered error stream are not
  modelled. Only whether the stream is echoed is modelled.
- When the iterator does not initialise, the SVG serializer has already been
  constructed on the output name. What it leaves on disk is not shown, so the model
  records no finished output for that file.
- Progress.ReportProgress: the C++ `counter` is a 32-bit `int`. The model's counter
  is unbounded, so wrap-around after 2^31 - 1 elements is not modelled.
- Cli.OutputName: argv is modelled as a sequence of characters. `replace` at
  `length() - 3` works on bytes. The model's output name equals the program's only
  when the last three characters of the name are one byte each in the platform's
  encoding. With UTF-8, `plan.ifcä` becomes `plan.ifxml` in the program, because
  `ä` is two bytes, but `plan.ixml` in the model. Under UTF-8 the extension
  test is not affected: `.ifc` is ASCII, and no byte of a multibyte character is
  an ASCII byte. Double-byte code pages, whose trail bytes can be ASCII letters, are
  not modelled.
- Lower-casing follows the classic "C" locale. Other locales' case mappings are not
  modelled.
