/**
 The verbosity policy of IfcExtract: what the log level chosen on the command line
 decides for each file (the Logger severity, the progress text, and whether the
 buffered diagnostics are echoed at the end).
 */
module Verbosity {
  import opened Cli

  /** The two Logger severities the driver selects between. */
  datatype Severity = LogWarning | LogError

  /** The severity handed to Logger::Verbosity before each file. */
  function SeverityFor(loglevel: int): Severity
  {
    if loglevel == WarningLevel then LogWarning else LogError
  }

  /** "Processing ...", the dots, the count lines and "Creating XML" are printed. */
  predicate PrintsProgress(loglevel: int)
  {
    loglevel >= 0
  }

  /** The buffered diagnostic stream of a file is echoed to standard output. */
  predicate EchoesLog(loglevel: int)
  {
    loglevel > 0
  }

  /** An accepted command line carries one of the four levels. */
  lemma AcceptedLevels(argv: seq<string>)
    requires Classify(argv).Accepted?
    ensures Classify(argv).loglevel in {QuietLevel, DefaultLevel, ErrorLevel, WarningLevel}
  {
    AcceptedIff(argv);
  }

  /** Warnings are logged exactly when the last level flag is `-w`. */
  lemma SeverityFollowsLastFlag(argv: seq<string>)
    requires Classify(argv).Accepted?
    ensures var args := argv[1..];
      var p := LastLevelFlag(args);
      SeverityFor(Classify(argv).loglevel) == LogWarning <==> p.At? && args[p.index] == "-w"
  {
    AcceptedIff(argv);
  }

  /** Progress text is printed unless the last level flag is `-q`. */
  lemma ProgressFollowsLastFlag(argv: seq<string>)
    requires Classify(argv).Accepted?
    ensures var args := argv[1..];
      var p := LastLevelFlag(args);
      PrintsProgress(Classify(argv).loglevel) <==> !(p.At? && args[p.index] == "-q")
  {
    AcceptedIff(argv);
  }

  /** The buffered log is echoed exactly when the last level flag is `-e` or `-w`. */
  lemma EchoFollowsLastFlag(argv: seq<string>)
    requires Classify(argv).Accepted?
    ensures var args := argv[1..];
      var p := LastLevelFlag(args);
      EchoesLog(Classify(argv).loglevel) <==> p.At? && (args[p.index] == "-e" || args[p.index] == "-w")
  {
    AcceptedIff(argv);
  }
}
