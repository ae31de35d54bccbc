/**
 The main loop of IfcExtract: every accepted file is read, its shapes are written
 to the output document, the properties are merged in, and the first file that
 cannot be read or iterated ends the whole run. The IFC parser and the geometry
 iterator are not modelled; their answers for each file are given by an Environment.
 */
module Driver {
  import opened Cli
  import opened Verbosity
  import opened Progress

  /** The version text `-v` prints. */
  const VersionString := "1.1"

  /**
   What the collaborators answer for an input file: whether IfcFile::Init reads it,
   whether the geometry iterator initialises on it, and how many times `next()`
   then succeeds.
   */
  datatype Environment = Environment(
    readable: string -> bool,
    supported: string -> bool,
    advances: string -> nat)

  /** Text written to standard output. */
  datatype Output =
    | Processing(input: string)
    | ProgressMark(mark: Mark)
    | CreatingXml
    | EchoLog(input: string)
    | VersionText(text: string)

  /** Why the process ends with EXIT_FAILURE, if it does. */
  datatype Failure =
    | NoFailure
    | Usage
    | BadExtension(argument: string)
    | CannotRead(input: string)
    | UnsupportedData(input: string)

  /** The visible result of a run: exit status, standard output, finished output files. */
  datatype Report = Report(exit: int, stdout: seq<Output>, written: seq<string>, failure: Failure)

  /** The input file can be carried through every stage. */
  predicate Succeeds(f: string, env: Environment)
  {
    env.readable(f) && env.supported(f)
  }

  /** The progress marks as printed text. */
  function ShowMarks(marks: seq<Mark>): (out: seq<Output>)
    ensures |out| == |marks|
    ensures forall k :: 0 <= k < |marks| ==> out[k] == ProgressMark(marks[k])
  {
    seq(|marks|, k requires 0 <= k < |marks| => ProgressMark(marks[k]))
  }

  /** The progress marks printed while the shapes of `f` are written. */
  function FileMarks(f: string, loglevel: int, env: Environment): seq<Mark>
  {
    if PrintsProgress(loglevel) then ProgressMarks(env.advances(f) + 1) else []
  }

  /**
   Standard output of a file that was carried through every stage, with its progress
   marks: besides the marks, two lines when progress is printed ("Processing" and
   "Creating XML") and one more when the log is echoed.
   */
  function FileOutput(f: string, loglevel: int, marks: seq<Mark>): (out: seq<Output>)
    ensures |out| == |marks| + (if PrintsProgress(loglevel) then 2 else 0) + (if EchoesLog(loglevel) then 1 else 0)
  {
    (if PrintsProgress(loglevel) then [Processing(f)] else [])
    + ShowMarks(marks)
    + (if PrintsProgress(loglevel) then [CreatingXml] else [])
    + (if EchoesLog(loglevel) then [EchoLog(f)] else [])
  }

  /** Files announced on standard output, in order. */
  function Announced(out: seq<Output>): seq<string>
  {
    if |out| == 0 then []
    else Announced(out[..|out| - 1]) + (if out[|out| - 1].Processing? then [out[|out| - 1].input] else [])
  }

  function EchoCount(out: seq<Output>): nat
  {
    if |out| == 0 then 0 else EchoCount(out[..|out| - 1]) + (if out[|out| - 1].EchoLog? then 1 else 0)
  }

  /** How many times "Creating XML" is printed. */
  function XmlCount(out: seq<Output>): nat
  {
    if |out| == 0 then 0 else XmlCount(out[..|out| - 1]) + (if out[|out| - 1].CreatingXml? then 1 else 0)
  }

  /** The main loop over the accepted files; it returns at the first file that fails. */
  function ProcessFiles(files: seq<string>, loglevel: int, env: Environment): (r: Report)
    requires forall i :: 0 <= i < |files| ==> |files[i]| >= 3
    ensures r.exit == (if r.failure == NoFailure then ExitSuccess else ExitFailure)
    ensures |r.written| + (if r.failure == NoFailure then 0 else 1) <= |files|
    decreases |files|
  {
    if |files| == 0 then Report(ExitSuccess, [], [], NoFailure)
    else
      var f := files[0];
      var announce := if PrintsProgress(loglevel) then [Processing(f)] else [];
      if !env.readable(f) then Report(ExitFailure, announce, [], CannotRead(f))
      else if !env.supported(f) then Report(ExitFailure, announce, [], UnsupportedData(f))
      else
        var rest := ProcessFiles(files[1..], loglevel, env);
        var out := FileOutput(f, loglevel, FileMarks(f, loglevel, env));
        Report(rest.exit, out + rest.stdout, [OutputName(f)] + rest.written, rest.failure)
  }

  /**
   The output files finished are the output names of the longest prefix of files
   that succeed; the first file that fails ends the run and is named as the
   failure, and the files after it are never touched.
   */
  lemma {:induction false} ProcessFilesWritten(files: seq<string>, loglevel: int, env: Environment)
    requires forall i :: 0 <= i < |files| ==> |files[i]| >= 3
    ensures var r := ProcessFiles(files, loglevel, env);
      && |r.written| <= |files|
      && (forall i :: 0 <= i < |r.written| ==> r.written[i] == OutputName(files[i]) && Succeeds(files[i], env))
      && (|r.written| == |files| <==> r.failure == NoFailure)
      && (|r.written| < |files| ==> var f := files[|r.written|];
            if !env.readable(f) then r.failure == CannotRead(f)
            else !env.supported(f) && r.failure == UnsupportedData(f))
    decreases |files|
  {
    if |files| > 0 && Succeeds(files[0], env) {
      ProcessFilesWritten(files[1..], loglevel, env);
      ProcessFilesStep(files, loglevel, env);
    }
  }

  /** The run succeeds exactly when every accepted file can be read and iterated. */
  lemma ProcessFilesExit(files: seq<string>, loglevel: int, env: Environment)
    requires forall i :: 0 <= i < |files| ==> |files[i]| >= 3
    ensures ProcessFiles(files, loglevel, env).exit == ExitSuccess <==>
      forall i :: 0 <= i < |files| ==> Succeeds(files[i], env)
  {
    var r := ProcessFiles(files, loglevel, env);
    ProcessFilesWritten(files, loglevel, env);
    if |r.written| < |files| {
      assert !Succeeds(files[|r.written|], env);
    }
  }

  /** With `-q` last, nothing at all is written to standard output. */
  lemma {:induction false} QuietPrintsNothing(files: seq<string>, loglevel: int, env: Environment)
    requires forall i :: 0 <= i < |files| ==> |files[i]| >= 3
    requires loglevel < 0
    ensures ProcessFiles(files, loglevel, env).stdout == []
    decreases |files|
  {
    if |files| > 0 && Succeeds(files[0], env) {
      QuietPrintsNothing(files[1..], loglevel, env);
    }
  }

  lemma {:induction false} AnnouncedAppend(a: seq<Output>, b: seq<Output>)
    ensures Announced(a + b) == Announced(a) + Announced(b)
    decreases |b|
  {
    if |b| > 0 {
      var n := |b| - 1;
      assert (a + b)[..|a + b| - 1] == a + b[..n];
      AnnouncedAppend(a, b[..n]);
    } else {
      assert a + b == a;
    }
  }

  lemma {:induction false} EchoCountAppend(a: seq<Output>, b: seq<Output>)
    ensures EchoCount(a + b) == EchoCount(a) + EchoCount(b)
    decreases |b|
  {
    if |b| > 0 {
      var n := |b| - 1;
      assert (a + b)[..|a + b| - 1] == a + b[..n];
      EchoCountAppend(a, b[..n]);
    } else {
      assert a + b == a;
    }
  }

  lemma {:induction false} XmlCountAppend(a: seq<Output>, b: seq<Output>)
    ensures XmlCount(a + b) == XmlCount(a) + XmlCount(b)
    decreases |b|
  {
    if |b| > 0 {
      var n := |b| - 1;
      assert (a + b)[..|a + b| - 1] == a + b[..n];
      XmlCountAppend(a, b[..n]);
    } else {
      assert a + b == a;
    }
  }

  /** Announced files, echoes and "Creating XML" lines of a single output. */
  lemma SingletonCounts(o: Output)
    ensures Announced([o]) == (if o.Processing? then [o.input] else [])
    ensures EchoCount([o]) == (if o.EchoLog? then 1 else 0)
    ensures XmlCount([o]) == (if o.CreatingXml? then 1 else 0)
  {
    assert [o][..0] == [];
  }

  /** One finished file announces itself exactly when progress is printed. */
  lemma FileOutputAnnounced(f: string, loglevel: int, marks: seq<Mark>)
    ensures Announced(FileOutput(f, loglevel, marks)) == (if PrintsProgress(loglevel) then [f] else [])
  {
    var head: seq<Output> := if PrintsProgress(loglevel) then [Processing(f)] else [];
    var body := ShowMarks(marks);
    var xml: seq<Output> := if PrintsProgress(loglevel) then [CreatingXml] else [];
    var echo: seq<Output> := if EchoesLog(loglevel) then [EchoLog(f)] else [];
    AnnouncedAppend(head + body + xml, echo);
    AnnouncedAppend(head + body, xml);
    AnnouncedAppend(head, body);
    NoMarkIsAnnouncedOrEchoed(body);
    SingletonCounts(Processing(f));
    SingletonCounts(CreatingXml);
    SingletonCounts(EchoLog(f));
  }

  /** One finished file echoes its log once exactly when the level is above the default. */
  lemma FileOutputEchoes(f: string, loglevel: int, marks: seq<Mark>)
    ensures EchoCount(FileOutput(f, loglevel, marks)) == (if EchoesLog(loglevel) then 1 else 0)
  {
    var head: seq<Output> := if PrintsProgress(loglevel) then [Processing(f)] else [];
    var body := ShowMarks(marks);
    var xml: seq<Output> := if PrintsProgress(loglevel) then [CreatingXml] else [];
    var echo: seq<Output> := if EchoesLog(loglevel) then [EchoLog(f)] else [];
    EchoCountAppend(head + body + xml, echo);
    EchoCountAppend(head + body, xml);
    EchoCountAppend(head, body);
    NoMarkIsAnnouncedOrEchoed(body);
    SingletonCounts(Processing(f));
    SingletonCounts(CreatingXml);
    SingletonCounts(EchoLog(f));
  }

  lemma {:induction false} NoMarkIsAnnouncedOrEchoed(out: seq<Output>)
    requires forall k :: 0 <= k < |out| ==> out[k].ProgressMark?
    ensures Announced(out) == [] && EchoCount(out) == 0 && XmlCount(out) == 0
    decreases |out|
  {
    if |out| > 0 {
      NoMarkIsAnnouncedOrEchoed(out[..|out| - 1]);
    }
  }

  /** One finished file prints "Creating XML" once exactly when progress is printed. */
  lemma FileOutputCreatesXml(f: string, loglevel: int, marks: seq<Mark>)
    ensures XmlCount(FileOutput(f, loglevel, marks)) == (if PrintsProgress(loglevel) then 1 else 0)
  {
    var head: seq<Output> := if PrintsProgress(loglevel) then [Processing(f)] else [];
    var body := ShowMarks(marks);
    var xml: seq<Output> := if PrintsProgress(loglevel) then [CreatingXml] else [];
    var echo: seq<Output> := if EchoesLog(loglevel) then [EchoLog(f)] else [];
    XmlCountAppend(head + body + xml, echo);
    XmlCountAppend(head + body, xml);
    XmlCountAppend(head, body);
    NoMarkIsAnnouncedOrEchoed(body);
    SingletonCounts(Processing(f));
    SingletonCounts(CreatingXml);
    SingletonCounts(EchoLog(f));
  }

  /** A first file that succeeds contributes its output and output name, then the rest follows. */
  lemma ProcessFilesStep(files: seq<string>, loglevel: int, env: Environment)
    requires forall i :: 0 <= i < |files| ==> |files[i]| >= 3
    requires |files| > 0 && Succeeds(files[0], env)
    ensures var r := ProcessFiles(files, loglevel, env);
      var rest := ProcessFiles(files[1..], loglevel, env);
      && r.stdout == FileOutput(files[0], loglevel, FileMarks(files[0], loglevel, env)) + rest.stdout
      && r.written == [OutputName(files[0])] + rest.written
      && r.failure == rest.failure
  {
  }

  lemma PrefixCons<T>(s: seq<T>, k: nat)
    requires 0 < |s| && k < |s|
    ensures s[..k + 1] == [s[0]] + s[1..][..k]
  {
  }

  /** A first file that fails is announced, and nothing else is. */
  lemma AnnouncedOnFailure(files: seq<string>, loglevel: int, env: Environment)
    requires forall i :: 0 <= i < |files| ==> |files[i]| >= 3
    requires |files| > 0 && !Succeeds(files[0], env)
    ensures var r := ProcessFiles(files, loglevel, env);
      r.written == [] && r.failure != NoFailure &&
      Announced(r.stdout) == (if PrintsProgress(loglevel) then files[..1] else [])
  {
    var f := files[0];
    var announce: seq<Output> := if PrintsProgress(loglevel) then [Processing(f)] else [];
    assert ProcessFiles(files, loglevel, env).stdout == announce;
    if PrintsProgress(loglevel) {
      assert announce[..0] == [];
      assert files[..1] == [f];
    }
  }

  /**
   When progress is printed, "Processing" names every file the loop reached, in
   order: the finished ones and the one that failed, if any.
   */
  lemma {:induction false} AnnouncedFiles(files: seq<string>, loglevel: int, env: Environment)
    requires forall i :: 0 <= i < |files| ==> |files[i]| >= 3
    ensures var r := ProcessFiles(files, loglevel, env);
      var reached := |r.written| + (if r.failure == NoFailure then 0 else 1);
      Announced(r.stdout) == (if PrintsProgress(loglevel) then files[..reached] else [])
    decreases |files|
  {
    if |files| > 0 {
      var f := files[0];
      var r := ProcessFiles(files, loglevel, env);
      if !Succeeds(f, env) {
        AnnouncedOnFailure(files, loglevel, env);
      } else {
        var rest := ProcessFiles(files[1..], loglevel, env);
        var out := FileOutput(f, loglevel, FileMarks(f, loglevel, env));
        ProcessFilesStep(files, loglevel, env);
        AnnouncedFiles(files[1..], loglevel, env);
        FileOutputAnnounced(f, loglevel, FileMarks(f, loglevel, env));
        AnnouncedAppend(out, rest.stdout);
        var reached := |rest.written| + (if rest.failure == NoFailure then 0 else 1);
        assert |r.written| + (if r.failure == NoFailure then 0 else 1) == reached + 1;
        if PrintsProgress(loglevel) {
          PrefixCons(files, reached);
          assert Announced(r.stdout) == [f] + files[1..][..reached];
        } else {
          assert Announced(r.stdout) == [];
        }
      }
    }
  }

  /** The buffered log is echoed once per finished file exactly when the level is above the default. */
  lemma {:induction false} EchoedFiles(files: seq<string>, loglevel: int, env: Environment)
    requires forall i :: 0 <= i < |files| ==> |files[i]| >= 3
    ensures var r := ProcessFiles(files, loglevel, env);
      EchoCount(r.stdout) == (if EchoesLog(loglevel) then |r.written| else 0)
    decreases |files|
  {
    if |files| > 0 {
      var f := files[0];
      if !Succeeds(f, env) {
        var announce: seq<Output> := if PrintsProgress(loglevel) then [Processing(f)] else [];
        assert announce == [] || announce[..0] == [];
      } else {
        var rest := ProcessFiles(files[1..], loglevel, env);
        ProcessFilesStep(files, loglevel, env);
        EchoedFiles(files[1..], loglevel, env);
        FileOutputEchoes(f, loglevel, FileMarks(f, loglevel, env));
        EchoCountAppend(FileOutput(f, loglevel, FileMarks(f, loglevel, env)), rest.stdout);
      }
    }
  }

  /**
   "Creating XML" is printed once per finished file exactly when progress is printed;
   a file that fails never reaches it.
   */
  lemma {:induction false} CreatedXmlFiles(files: seq<string>, loglevel: int, env: Environment)
    requires forall i :: 0 <= i < |files| ==> |files[i]| >= 3
    ensures var r := ProcessFiles(files, loglevel, env);
      XmlCount(r.stdout) == (if PrintsProgress(loglevel) then |r.written| else 0)
    decreases |files|
  {
    if |files| > 0 {
      var f := files[0];
      if !Succeeds(f, env) {
        var announce: seq<Output> := if PrintsProgress(loglevel) then [Processing(f)] else [];
        assert announce == [] || announce[..0] == [];
      } else {
        var rest := ProcessFiles(files[1..], loglevel, env);
        ProcessFilesStep(files, loglevel, env);
        CreatedXmlFiles(files[1..], loglevel, env);
        FileOutputCreatesXml(f, loglevel, FileMarks(f, loglevel, env));
        XmlCountAppend(FileOutput(f, loglevel, FileMarks(f, loglevel, env)), rest.stdout);
      }
    }
  }

  /** The whole of `main`: argument handling, then the main loop over the accepted files. */
  function Execute(argv: seq<string>, env: Environment): (r: Report)
    ensures r.exit == (if r.failure == NoFailure then ExitSuccess else ExitFailure)
    ensures r.exit == ExitSuccess <==>
      || Classify(argv).Help? || Classify(argv).Version?
      || (Classify(argv).Accepted? && forall f :: f in Classify(argv).filenames ==> Succeeds(f, env))
    ensures !Classify(argv).Accepted? ==> r.written == []
    ensures Classify(argv).ExtensionError? ==> r.failure == BadExtension(Classify(argv).argument)
    ensures |argv| < 2 ==> r.failure == Usage
  {
    match Classify(argv)
    case UsageError => Report(ExitFailure, [], [], Usage)
    case Help => Report(ExitSuccess, [], [], NoFailure)
    case Version => Report(ExitSuccess, [VersionText(VersionString)], [], NoFailure)
    case ExtensionError(a) => Report(ExitFailure, [], [], BadExtension(a))
    case Accepted(files, loglevel) =>
      AcceptedNamesHaveOutputName(argv);
      ProcessFilesExit(files, loglevel, env);
      ProcessFiles(files, loglevel, env)
  }

  /**
   A bad argument that comes before any help or version flag ends the run with
   EXIT_FAILURE before any file is read: no output file, nothing on standard output.
   */
  lemma BadArgumentStopsEverything(argv: seq<string>, env: Environment, i: int)
    requires 1 <= i < |argv| && KindOf(argv[i]).BadName?
    requires forall j :: 1 <= j < i ==> !KindOf(argv[j]).Ends()
    ensures Execute(argv, env) == Report(ExitFailure, [], [], BadExtension(argv[i]))
  {
    FirstEndingArgumentWins(argv, i);
  }
}
