/**
 The command-line front end of IfcExtract: how `main` classifies its arguments
 (a strict left-to-right pass that may stop early) and how it derives the name of
 the output file from an accepted input name.
 */
module Cli {
  import opened Text

  /** The values of EXIT_SUCCESS and EXIT_FAILURE. */
  const ExitSuccess := 0
  const ExitFailure := 1

  /** The verbosity values that `-q`, `-e` and `-w` store in `loglevel`; 0 is the default. */
  const QuietLevel := -1
  const DefaultLevel := 0
  const ErrorLevel := 1
  const WarningLevel := 2

  /** What a single argument is, by the order of tests in the argument loop. */
  datatype ArgKind =
    | HelpFlag
    | VersionFlag
    | LevelFlag(level: int)
    | FileName
    | BadName
  {
    /** Kinds that end the argument loop with a `return`. */
    predicate Ends()
    {
      HelpFlag? || VersionFlag? || BadName?
    }
  }

  /** How an invocation ends before or after the argument loop. */
  datatype CliOutcome =
    | UsageError
    | Help
    | Version
    | ExtensionError(argument: string)
    | Accepted(filenames: seq<string>, loglevel: int)

  /**
   The kind of one argument, by the order of tests in the loop. A level flag stores
   one of the three non-default levels, and a file name is long enough to hold ".ifc".
   */
  function KindOf(a: string): (k: ArgKind)
    ensures k.LevelFlag? ==> k.level in {QuietLevel, ErrorLevel, WarningLevel}
    ensures k.FileName? ==> |a| >= 4
  {
    if a == "-h" || a == "--help" then HelpFlag
    else if a == "-v" || a == "--version" then VersionFlag
    else if a == "-q" then LevelFlag(QuietLevel)
    else if a == "-e" then LevelFlag(ErrorLevel)
    else if a == "-w" then LevelFlag(WarningLevel)
    else if !HasIfcMark(a) then BadName
    else FileName
  }

  /**
   For an argument that is none of the seven flags, the kind follows the test of the
   loop as written: a bad name exactly when `to_lower_copy(a).find(".ifc")` is npos.
   */
  lemma KindOfFollowsExtensionTest(a: string)
    requires a != "-h" && a != "--help" && a != "-v" && a != "--version"
    requires a != "-q" && a != "-e" && a != "-w"
    ensures KindOf(a) == (if Find(ToLower(a), ".ifc", 0) == NotFound then BadName else FileName)
  {
    LowerFindIff(a);
  }

  /**
   The exit status of an outcome that ends the process before the main loop (usage
   error, help, version, extension error). An accepted line is not decided here:
   its status comes from the main loop over the files (Driver.Execute). Every
   message that reports a mistake fails; help and version succeed.
   */
  function ExitCode(o: CliOutcome): (code: int)
    requires !o.Accepted?
    ensures code == ExitSuccess || code == ExitFailure
    ensures code == ExitSuccess <==> o.Help? || o.Version?
  {
    match o
    case UsageError => ExitFailure
    case ExtensionError(_) => ExitFailure
    case _ => ExitSuccess
  }

  /** The loop's state between two arguments: still going, or already returned. */
  datatype ScanState =
    | Continue(files: seq<string>, level: int)
    | Stopped(outcome: CliOutcome)

  /** The outcome an argument that ends the loop returns. */
  function StopOutcome(a: string): CliOutcome
    requires KindOf(a).Ends()
  {
    match KindOf(a)
    case HelpFlag => Help
    case VersionFlag => Version
    case BadName => ExtensionError(a)
  }

  /**
   One iteration of the argument loop. An iteration that does not return either
   appends this very argument to the list, keeping the level, or keeps the list; one
   that returns does so with help, version or an extension error naming the argument.
   */
  function Step(st: ScanState, a: string): (r: ScanState)
    ensures r.Continue? ==> st.Continue?
    ensures r.Continue? ==> (r.files == st.files + [a] && r.level == st.level) || r.files == st.files
    ensures st.Continue? && r.Stopped? ==> r.outcome in {Help, Version, ExtensionError(a)}
  {
    match st
    case Stopped(_) => st
    case Continue(files, level) =>
      match KindOf(a)
      case LevelFlag(l) => Continue(files, l)
      case FileName => Continue(files + [a], level)
      case _ => Stopped(StopOutcome(a))
  }

  /**
   The state after the loop has looked at `args` from left to right. While it has
   not returned, it holds at most one name per argument, every one a file name, and
   one of the four log levels.
   */
  function Scan(args: seq<string>): (r: ScanState)
    ensures r.Continue? ==> |r.files| <= |args|
    ensures r.Continue? ==> forall k :: 0 <= k < |r.files| ==> KindOf(r.files[k]).FileName?
    ensures r.Continue? ==> r.level in {DefaultLevel, QuietLevel, ErrorLevel, WarningLevel}
  {
    if |args| == 0 then Continue([], DefaultLevel)
    else Step(Scan(args[..|args| - 1]), args[|args| - 1])
  }

  function Finish(st: ScanState): CliOutcome
  {
    match st
    case Stopped(o) => o
    case Continue(files, level) => Accepted(files, level)
  }

  /** The outcome of the argument handling of `main`; `argv[0]` is the program name. */
  function Classify(argv: seq<string>): (o: CliOutcome)
    ensures o.UsageError? <==> |argv| < 2
  {
    if |argv| < 2 then UsageError
    else
      var st := Scan(argv[1..]);
      assert st.Stopped? ==> !st.outcome.UsageError? by { ScanStopsEarly(argv[1..]); }
      Finish(st)
  }

  /** The loop only ever returns help, version or an extension error. */
  lemma ScanStopsEarly(args: seq<string>)
    ensures Scan(args).Stopped? ==> !Scan(args).outcome.UsageError? && !Scan(args).outcome.Accepted?
  {
    if |args| > 0 {
      ScanStopsEarly(args[..|args| - 1]);
    }
  }

  // ---------------------------------------------------------------------------
  // Reference definitions: what the accepted file list and log level should be,
  // stated by position in the argument list rather than by the loop.
  // ---------------------------------------------------------------------------

  /** The positions of `args` that hold file names, in increasing order. */
  function FileIndices(args: seq<string>): (idx: seq<nat>)
    ensures forall k :: 0 <= k < |idx| ==> idx[k] < |args| && KindOf(args[idx[k]]).FileName?
    ensures forall k, m :: 0 <= k < m < |idx| ==> idx[k] < idx[m]
    ensures forall i :: 0 <= i < |args| && KindOf(args[i]).FileName? ==> i in idx
  {
    if |args| == 0 then []
    else
      var n := |args| - 1;
      var prev := FileIndices(args[..n]);
      assert forall i :: 0 <= i < n ==> args[..n][i] == args[i];
      if KindOf(args[n]).FileName? then
        var idx := prev + [n];
        assert forall k :: 0 <= k < |prev| ==> idx[k] == prev[k];
        idx
      else prev
  }

  /** The file names of `args`: those at FileIndices(args), in that order. */
  function FilesOf(args: seq<string>): (files: seq<string>)
    ensures |files| == |FileIndices(args)|
    ensures forall k :: 0 <= k < |files| ==> files[k] == args[FileIndices(args)[k]]
  {
    var idx := FileIndices(args);
    seq(|idx|, k requires 0 <= k < |idx| => args[idx[k]])
  }

  /** The position of the last `-q`, `-e` or `-w` in `args`, or NotFound. */
  function LastLevelFlag(args: seq<string>): (p: Position)
    ensures p.At? ==> p.index < |args| && KindOf(args[p.index]).LevelFlag?
    ensures p.At? ==> forall j :: p.index < j < |args| ==> !KindOf(args[j]).LevelFlag?
    ensures p.NotFound? ==> forall j :: 0 <= j < |args| ==> !KindOf(args[j]).LevelFlag?
  {
    if |args| == 0 then NotFound
    else if KindOf(args[|args| - 1]).LevelFlag? then At(|args| - 1)
    else
      var p := LastLevelFlag(args[..|args| - 1]);
      assert p.At? ==> args[..|args| - 1][p.index] == args[p.index];
      p
  }

  /** The level the last level flag of `args` sets, or the default when there is none. */
  function LevelOf(args: seq<string>): int
  {
    match LastLevelFlag(args)
    case NotFound => DefaultLevel
    case At(i) => KindOf(args[i]).level
  }

  // ---------------------------------------------------------------------------
  // The loop against the reference definitions.
  // ---------------------------------------------------------------------------

  lemma {:induction false} FilesOfSnoc(args: seq<string>)
    requires |args| > 0
    ensures var n := |args| - 1;
      FilesOf(args) == FilesOf(args[..n]) + (if KindOf(args[n]).FileName? then [args[n]] else [])
  {
    var n := |args| - 1;
    var front := args[..n];
    var prev := FileIndices(front);
    var idx := FileIndices(args);
    var tail: seq<string> := if KindOf(args[n]).FileName? then [args[n]] else [];
    assert idx == prev + (if KindOf(args[n]).FileName? then [n] else []);
    var lhs := FilesOf(args);
    var rhs := FilesOf(front) + tail;
    assert |lhs| == |rhs|;
    forall k | 0 <= k < |lhs|
      ensures lhs[k] == rhs[k]
    {
      if k < |prev| {
        assert idx[k] == prev[k] && front[prev[k]] == args[prev[k]];
      }
    }
  }

  /**
   While no argument has ended the loop, the loop has collected exactly the file
   names, in order, and holds the level of the last level flag.
   */
  lemma LevelOfSnoc(args: seq<string>)
    requires |args| > 0
    ensures var n := |args| - 1;
      LevelOf(args) == (if KindOf(args[n]).LevelFlag? then KindOf(args[n]).level else LevelOf(args[..n]))
  {
    var n := |args| - 1;
    if !KindOf(args[n]).LevelFlag? {
      var p := LastLevelFlag(args[..n]);
      assert p.At? ==> args[..n][p.index] == args[p.index];
    }
  }

  lemma {:induction false} ScanContinues(args: seq<string>)
    requires forall i :: 0 <= i < |args| ==> !KindOf(args[i]).Ends()
    ensures Scan(args) == Continue(FilesOf(args), LevelOf(args))
  {
    if |args| > 0 {
      var n := |args| - 1;
      var front := args[..n];
      assert forall i :: 0 <= i < |front| ==> front[i] == args[i];
      ScanContinues(front);
      FilesOfSnoc(args);
      LevelOfSnoc(args);
    }
  }

  /** Once the loop has returned, further arguments change nothing. */
  lemma {:induction false} ScanIgnoresRest(args: seq<string>, rest: seq<string>)
    requires Scan(args).Stopped?
    ensures Scan(args + rest) == Scan(args)
    decreases |rest|
  {
    if |rest| > 0 {
      var n := |rest| - 1;
      var whole := args + rest;
      assert whole[..|whole| - 1] == args + rest[..n];
      ScanIgnoresRest(args, rest[..n]);
      assert Scan(whole) == Step(Scan(args + rest[..n]), whole[|whole| - 1]);
    } else {
      assert args + rest == args;
    }
  }

  lemma SplitAt<T>(s: seq<T>, k: int)
    requires 0 <= k <= |s|
    ensures s[..k] + s[k..] == s
  {
  }

  /** The loop returns on the first argument that ends it. */
  lemma ScanStopsAt(args: seq<string>, i: int)
    requires 0 <= i < |args| && KindOf(args[i]).Ends()
    requires forall j :: 0 <= j < i ==> !KindOf(args[j]).Ends()
    ensures Scan(args[..i + 1]) == Stopped(StopOutcome(args[i]))
  {
    var front := args[..i];
    assert forall j :: 0 <= j < |front| ==> front[j] == args[j];
    ScanKeepsGoing(front);
    var upto := args[..i + 1];
    assert upto[..i] == front && upto[i] == args[i];
    StepOnEnd(Scan(front), args[i]);
    assert Scan(upto) == Step(Scan(front), args[i]);
  }

  /** Without a help, version or bad argument the loop runs to the end. */
  lemma {:induction false} ScanKeepsGoing(args: seq<string>)
    requires forall i :: 0 <= i < |args| ==> !KindOf(args[i]).Ends()
    ensures Scan(args).Continue?
  {
    if |args| > 0 {
      var front := args[..|args| - 1];
      assert forall i :: 0 <= i < |front| ==> front[i] == args[i];
      ScanKeepsGoing(front);
    }
  }

  lemma StepOnEnd(st: ScanState, a: string)
    requires st.Continue? && KindOf(a).Ends()
    ensures Step(st, a) == Stopped(StopOutcome(a))
  {
  }

  /** The first argument that ends the loop decides the outcome. */
  lemma ScanFirstEnd(args: seq<string>, i: int)
    requires 0 <= i < |args| && KindOf(args[i]).Ends()
    requires forall j :: 0 <= j < i ==> !KindOf(args[j]).Ends()
    ensures Scan(args) == Stopped(StopOutcome(args[i]))
  {
    ScanStopsAt(args, i);
    ScanIgnoresRest(args[..i + 1], args[i + 1..]);
    SplitAt(args, i + 1);
  }

  // ---------------------------------------------------------------------------
  // Properties of Classify.
  // ---------------------------------------------------------------------------

  /** With no arguments after the program name the run is a usage error and fails. */
  lemma NoArgumentsIsUsageError(argv: seq<string>)
    ensures |argv| < 2 ==> Classify(argv) == UsageError && ExitCode(Classify(argv)) == ExitFailure
  {
  }

  /**
   Arguments are looked at strictly from left to right: the first help, version or
   bad argument decides the outcome, whatever follows it.
   */
  lemma FirstEndingArgumentWins(argv: seq<string>, i: int)
    requires 1 <= i < |argv| && KindOf(argv[i]).Ends()
    requires forall j :: 1 <= j < i ==> !KindOf(argv[j]).Ends()
    ensures Classify(argv) == StopOutcome(argv[i])
    ensures KindOf(argv[i]).BadName? ==> ExitCode(Classify(argv)) == ExitFailure
    ensures !KindOf(argv[i]).BadName? ==> ExitCode(Classify(argv)) == ExitSuccess
  {
    var args := argv[1..];
    assert forall j :: 0 <= j < i - 1 ==> args[j] == argv[j + 1];
    ScanFirstEnd(args, i - 1);
  }

  /** A help, version or bad argument returns before anything after it is read. */
  lemma LaterArgumentsIgnored(argv: seq<string>, rest: seq<string>)
    requires |argv| >= 2 && !Classify(argv).Accepted?
    ensures Classify(argv + rest) == Classify(argv)
  {
    assert (argv + rest)[1..] == argv[1..] + rest;
    ScanIgnoresRest(argv[1..], rest);
  }

  /**
   The run goes on to the files exactly when there is an argument and none of them
   is help, version or bad; the accepted names are then exactly the file-name
   arguments in command-line order, and the level is that of the last level flag.
   */
  lemma AcceptedIff(argv: seq<string>)
    ensures Classify(argv).Accepted? <==>
      |argv| >= 2 && forall i :: 1 <= i < |argv| ==> !KindOf(argv[i]).Ends()
    ensures Classify(argv).Accepted? ==>
      Classify(argv).filenames == FilesOf(argv[1..]) && Classify(argv).loglevel == LevelOf(argv[1..])
  {
    if |argv| >= 2 {
      var args := argv[1..];
      assert forall j :: 0 <= j < |args| ==> args[j] == argv[j + 1];
      if forall i :: 1 <= i < |argv| ==> !KindOf(argv[i]).Ends() {
        ScanContinues(args);
      } else {
        var i :| 1 <= i < |argv| && KindOf(argv[i]).Ends();
        var first := FirstEnd(argv, 1, i);
        FirstEndingArgumentWins(argv, first);
      }
    }
  }

  /** The leftmost position from `from` on whose argument ends the loop; `i` is one such. */
  function FirstEnd(argv: seq<string>, from: int, i: int): (first: int)
    requires 1 <= from <= i < |argv| && KindOf(argv[i]).Ends()
    requires forall j :: 1 <= j < from ==> !KindOf(argv[j]).Ends()
    ensures from <= first <= i && KindOf(argv[first]).Ends()
    ensures forall j :: 1 <= j < first ==> !KindOf(argv[j]).Ends()
    decreases i - from
  {
    if KindOf(argv[from]).Ends() then from else FirstEnd(argv, from + 1, i)
  }

  /** An extension error names an argument that is not a flag and has no ".ifc" in it. */
  lemma ExtensionErrorNamesBadArgument(argv: seq<string>)
    requires Classify(argv).ExtensionError?
    ensures exists i :: 1 <= i < |argv| && argv[i] == Classify(argv).argument
    ensures KindOf(Classify(argv).argument) == BadName
    ensures !HasIfcMark(Classify(argv).argument)
  {
    AcceptedIff(argv);
    var i :| 1 <= i < |argv| && KindOf(argv[i]).Ends();
    var first := FirstEnd(argv, 1, i);
    FirstEndingArgumentWins(argv, first);
  }

  lemma FilesOfHaveIfcMark(args: seq<string>)
    ensures forall k :: 0 <= k < |FilesOf(args)| ==> HasIfcMark(FilesOf(args)[k]) && |FilesOf(args)[k]| >= 4
  {
    var files := FilesOf(args);
    forall k | 0 <= k < |files|
      ensures HasIfcMark(files[k]) && |files[k]| >= 4
    {
      var a := args[FileIndices(args)[k]];
      assert files[k] == a && KindOf(a).FileName?;
      HasIfcMarkLength(a);
    }
  }

  /** Every accepted name passes the extension test and so has at least four characters. */
  lemma AcceptedNamesHaveIfcMark(argv: seq<string>)
    requires Classify(argv).Accepted?
    ensures forall f :: f in Classify(argv).filenames ==> HasIfcMark(f) && |f| >= 4
  {
    AcceptedIff(argv);
    FilesOfHaveIfcMark(argv[1..]);
  }

  /** A file name appended to an accepted line is accepted last; the level stays. */
  lemma AppendFileName(argv: seq<string>, f: string)
    requires Classify(argv).Accepted? && KindOf(f).FileName?
    ensures Classify(argv + [f]) == Accepted(Classify(argv).filenames + [f], Classify(argv).loglevel)
  {
    var args := argv[1..];
    ScanStopsEarly(args);
    var longer := (argv + [f])[1..];
    assert longer == args + [f];
    assert longer[..|longer| - 1] == args;
    assert Scan(longer) == Step(Scan(args), f);
  }

  /** A level flag appended to a line whose other arguments are accepted sets the level; the files stay. */
  lemma AppendLevelFlag(argv: seq<string>, flag: string)
    requires |argv| >= 1 && KindOf(flag).LevelFlag?
    requires |argv| >= 2 ==> Classify(argv).Accepted?
    ensures Classify(argv + [flag]).Accepted?
    ensures Classify(argv + [flag]).loglevel == KindOf(flag).level
    ensures Classify(argv + [flag]).filenames == (if |argv| >= 2 then Classify(argv).filenames else [])
  {
    var args := argv[1..];
    ScanStopsEarly(args);
    var longer := (argv + [flag])[1..];
    assert longer == args + [flag];
    assert longer[..|longer| - 1] == args;
    assert Scan(longer) == Step(Scan(args), flag);
  }

  /** A prefix of the arguments on which the loop has returned decides the outcome. */
  lemma StoppedPrefixDecides(argv: seq<string>, idx: int)
    requires 1 <= idx < |argv| && Scan(argv[1..idx + 1]).Stopped?
    ensures Classify(argv) == Scan(argv[1..idx + 1]).outcome
  {
    ScanIgnoresRest(argv[1..idx + 1], argv[idx + 1..]);
    assert argv[1..idx + 1] + argv[idx + 1..] == argv[1..];
  }

  /**
   One pass of the argument loop at position `idx`: an argument that ends the loop
   decides the whole outcome, a level flag replaces the level, and a file name is
   appended to the list.
   */
  lemma ParseStep(argv: seq<string>, idx: int, filenames: seq<string>, loglevel: int)
    requires 1 <= idx < |argv| && Scan(argv[1..idx]) == Continue(filenames, loglevel)
    ensures KindOf(argv[idx]).Ends() ==> Classify(argv) == StopOutcome(argv[idx])
    ensures KindOf(argv[idx]).LevelFlag? ==>
      Scan(argv[1..idx + 1]) == Continue(filenames, KindOf(argv[idx]).level)
    ensures KindOf(argv[idx]).FileName? ==>
      Scan(argv[1..idx + 1]) == Continue(filenames + [argv[idx]], loglevel)
  {
    assert argv[1..idx + 1][..idx - 1] == argv[1..idx];
    assert Scan(argv[1..idx + 1]) == Step(Continue(filenames, loglevel), argv[idx]);
    if KindOf(argv[idx]).Ends() {
      StoppedPrefixDecides(argv, idx);
    }
  }

  /**
   The argument loop of `main` as written: an early `return` for help, version and
   a bad argument, otherwise the flags overwrite the level and names are appended.
   */
  method ParseArguments(argv: seq<string>) returns (o: CliOutcome)
    ensures o == Classify(argv)
  {
    if |argv| < 2 {
      return UsageError;
    }
    var filenames: seq<string> := [];
    var loglevel := DefaultLevel;
    var idx := 1;
    while idx < |argv|
      invariant 1 <= idx <= |argv|
      invariant Scan(argv[1..idx]) == Continue(filenames, loglevel)
    {
      var argument := argv[idx];
      ParseStep(argv, idx, filenames, loglevel);
      if argument == "-h" || argument == "--help" {
        assert KindOf(argument) == HelpFlag;
        return Help;
      } else if argument == "-v" || argument == "--version" {
        assert KindOf(argument) == VersionFlag;
        return Version;
      } else if argument == "-q" {
        assert KindOf(argument) == LevelFlag(QuietLevel);
        loglevel := QuietLevel;
      } else if argument == "-e" {
        assert KindOf(argument) == LevelFlag(ErrorLevel);
        loglevel := ErrorLevel;
      } else if argument == "-w" {
        assert KindOf(argument) == LevelFlag(WarningLevel);
        loglevel := WarningLevel;
      } else if Find(ToLower(argument), ".ifc", 0) == NotFound {
        KindOfFollowsExtensionTest(argument);
        return ExtensionError(argument);
      } else {
        KindOfFollowsExtensionTest(argument);
        filenames := filenames + [argument];
      }
      idx := idx + 1;
    }
    assert argv[1..idx] == argv[1..];
    o := Accepted(filenames, loglevel);
  }

  // ---------------------------------------------------------------------------
  // Output name.
  // ---------------------------------------------------------------------------

  /**
   The output name: the input name with its last three characters replaced by "xml",
   as std::string::replace(length() - 3, 3, "xml") does; the position must not be
   past the end, so the name needs at least three characters.
   */
  function OutputName(name: string): (out: string)
    requires |name| >= 3
    ensures |out| == |name|
    ensures forall i :: 0 <= i < |name| - 3 ==> out[i] == name[i]
    ensures out[|name| - 3..] == "xml"
  {
    name[..|name| - 3] + "xml"
  }

  /** Every accepted input name has a well-defined output name. */
  lemma AcceptedNamesHaveOutputName(argv: seq<string>)
    requires Classify(argv).Accepted?
    ensures forall f :: f in Classify(argv).filenames ==> |f| >= 3
  {
    AcceptedNamesHaveIfcMark(argv);
  }

  /**
   The output name is the input name itself exactly when the input already ends in
   "xml" (for instance "model.ifcxml", which passes the containment test).
   */
  lemma OutputNameFixedPoint(name: string)
    requires |name| >= 3
    ensures OutputName(name) == name <==> name[|name| - 3..] == "xml"
  {
    var out := OutputName(name);
    if name[|name| - 3..] == "xml" {
      assert name == name[..|name| - 3] + name[|name| - 3..];
    }
  }
}
