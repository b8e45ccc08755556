/**
  `BmdDecruncher.main`: the command-line contract. The first two arguments name
  the BMD input and the HPROF output, the rest are string source files. The
  process exit status is modelled as a returned value.
 */
module CommandLine {
  import opened Collaborators
  import opened StringSources
  import opened BmdDecruncher

  /** How the process ends: `System.exit(code)`, or an exception that escapes `main`. */
  datatype Termination = Exit(code: int) | Uncaught(failure: Failure)

  datatype Process = Process(termination: Termination, log: seq<Event>)

  /** Lines 90-96: an IOException leads to exit status 2; nothing else is caught. */
  function ExitFor(outcome: Outcome): (t: Termination)
    ensures t == Exit(0) <==> outcome == Completed
    ensures t == Exit(2) <==> outcome.Threw? && outcome.failure.IOException?
    ensures t.Uncaught? <==> outcome.Threw? && outcome.failure.IllegalArgumentException?
    ensures t.Uncaught? ==> t.failure == outcome.failure
  {
    match outcome
    case Completed => Exit(0)
    case Threw(IOException(_)) => Exit(2)
    case Threw(failure) => Uncaught(failure)
  }

  /** The whole of `main(args)`; a null `args` is `None`. */
  function MainBehaviour(args: Option<seq<string>>, env: Environment): (p: Process)
    ensures p.termination.Exit? ==> p.termination.code == 0 || p.termination.code == 1 || p.termination.code == 2
    ensures p.termination.Uncaught? ==> p.termination.failure.IllegalArgumentException?
    ensures p.log != [] ==> args.Some? && |args.value| >= 2 && p.log[0] == OpenInput(args.value[0])
  {
    if args.None? || |args.value| < 2 then Process(Exit(1), [])
    else
      var a := args.value;
      if env.inputFault(a[0]).Some? then Process(Exit(2), [OpenInput(a[0])])
      else if env.outputFault(a[1]).Some? then Process(Exit(2), [OpenInput(a[0]), OpenOutput(a[1])])
      else
        var d := DecrunchBehaviour(FileStream(a[0]), FileStream(a[1]), a[2..], env);
        Process(ExitFor(d.outcome), [OpenInput(a[0]), OpenOutput(a[1])] + d.log)
  }

  /** Lines 71-98. */
  method RunMain(args: Option<seq<string>>, env: Environment) returns (p: Process)
    ensures p == MainBehaviour(args, env)
  {
    var additionalFiles: seq<string> := [];
    if args.Some? && |args.value| >= 2 {
      var argList := args.value;
      var inFile := argList[0];
      argList := argList[1..];
      var outFile := argList[0];
      argList := argList[1..];
      additionalFiles := additionalFiles + argList;
      assert additionalFiles == args.value[2..];
      // new FileInputStream(inFile), then new FileOutputStream(outFile)
      var streams := [OpenInput(inFile)];
      if env.inputFault(inFile).Some? {
        return Process(Exit(2), streams);
      }
      streams := streams + [OpenOutput(outFile)];
      if env.outputFault(outFile).Some? {
        return Process(Exit(2), streams);
      }
      var b := Decrunch(FileStream(inFile), FileStream(outFile), additionalFiles, env);
      p := Process(ExitFor(b.outcome), streams + b.log);
    } else {
      p := Process(Exit(1), []);
    }
  }

  /** Exit status 1 is the usage error: too few arguments, and then no file is touched. */
  lemma UsageIff(args: Option<seq<string>>, env: Environment)
    ensures MainBehaviour(args, env).termination == Exit(1) <==> args.None? || |args.value| < 2
    ensures args.None? || |args.value| < 2 ==> MainBehaviour(args, env).log == []
  {
  }

  /** With two or more arguments: input, then output, then every string source in argument order. */
  lemma ArgumentsInOrder(a: seq<string>, env: Environment)
    requires |a| >= 2 && env.inputFault(a[0]).None? && env.outputFault(a[1]).None?
    requires MainBehaviour(Some(a), env).termination == Exit(0)
    ensures var log := MainBehaviour(Some(a), env).log;
      |log| > |a| && log[0] == OpenInput(a[0]) && log[1] == OpenOutput(a[1]) &&
      forall i :: 2 <= i < |a| ==> Classify(a[i]) != Unsupported && log[i] == ReaderCall(a[i])
  {
    var files := a[2..];
    DecrunchCompletesIff(FileStream(a[0]), FileStream(a[1]), files, env);
    GatherOkIff(files, env);
    GatherLogOk(files, env);
    assert forall i :: 2 <= i < |a| ==> a[i] == files[i - 2];
  }

  /**
    Whatever the run's end: when the sources before `a[k + 2]` are all read
    without error, input, then output, then those sources are the first calls, in order.
   */
  lemma ArgumentsInOrderBeforeFailure(a: seq<string>, k: nat, env: Environment)
    requires |a| >= 2 && env.inputFault(a[0]).None? && env.outputFault(a[1]).None?
    requires k < |a| - 2
    requires forall i :: 2 <= i < k + 2 ==> ReadSource(a[i], env).strings.Ok?
    ensures var log := MainBehaviour(Some(a), env).log;
      |log| >= k + 2 && log[0] == OpenInput(a[0]) && log[1] == OpenOutput(a[1]) &&
      forall i :: 2 <= i < k + 2 ==> Classify(a[i]) != Unsupported && log[i] == ReaderCall(a[i])
  {
    var files := a[2..];
    assert forall i :: 2 <= i < |a| ==> a[i] == files[i - 2];
    GatherReadsBeforeFailure(files, k, env);
    var g := Gather(files, env).log;
    var d := DecrunchBehaviour(FileStream(a[0]), FileStream(a[1]), files, env).log;
    var log := MainBehaviour(Some(a), env).log;
    assert log == [OpenInput(a[0]), OpenOutput(a[1])] + d;
    assert d[..|g|] == g;
    forall i | 2 <= i < k + 2
      ensures Classify(a[i]) != Unsupported && log[i] == ReaderCall(a[i])
    {
      assert log[i] == d[i - 2] == g[i - 2];
    }
  }

  /** Exit status 0 exactly when the two files open and `decrunch` returns normally. */
  lemma SuccessIff(args: Option<seq<string>>, env: Environment)
    ensures MainBehaviour(args, env).termination == Exit(0) <==>
      args.Some? && |args.value| >= 2 &&
      env.inputFault(args.value[0]).None? && env.outputFault(args.value[1]).None? &&
      DecrunchBehaviour(FileStream(args.value[0]), FileStream(args.value[1]), args.value[2..], env).outcome == Completed
  {
  }

  /** Exit status 2 exactly when opening a file or the conversion throws an IOException. */
  lemma IOFailureIff(args: Option<seq<string>>, env: Environment)
    ensures MainBehaviour(args, env).termination == Exit(2) <==>
      args.Some? && |args.value| >= 2 &&
      (env.inputFault(args.value[0]).Some? || env.outputFault(args.value[1]).Some? ||
       var d := DecrunchBehaviour(FileStream(args.value[0]), FileStream(args.value[1]), args.value[2..], env);
       d.outcome.Threw? && d.outcome.failure.IOException?)
  {
  }

  /**
    An IllegalArgumentException escapes `main` exactly when some string source name
    has none of the three suffixes and every source before it was read; it names that file.
   */
  lemma UncaughtIff(a: seq<string>, env: Environment)
    requires |a| >= 2 && env.inputFault(a[0]).None? && env.outputFault(a[1]).None?
    ensures var files := a[2..];
      MainBehaviour(Some(a), env).termination.Uncaught? <==>
        exists k :: 0 <= k < |files| && Classify(files[k]) == Unsupported &&
          forall i :: 0 <= i < k ==> ReadSource(files[i], env).strings.Ok?
    ensures var files := a[2..];
      forall k :: (0 <= k < |files| && Classify(files[k]) == Unsupported &&
        (forall i :: 0 <= i < k ==> ReadSource(files[i], env).strings.Ok?)) ==>
        MainBehaviour(Some(a), env).termination == Uncaught(IllegalArgumentException(InvalidFileMessage(files[k])))
  {
    var files := a[2..];
    var input, output := FileStream(a[0]), FileStream(a[1]);
    forall k | 0 <= k < |files| && Classify(files[k]) == Unsupported &&
        (forall i :: 0 <= i < k ==> ReadSource(files[i], env).strings.Ok?)
      ensures MainBehaviour(Some(a), env).termination == Uncaught(IllegalArgumentException(InvalidFileMessage(files[k])))
    {
      GatherStopsAtFirstFailure(files, k, env);
    }
    if MainBehaviour(Some(a), env).termination.Uncaught? {
      var g := Gather(files, env);
      if g.strings.Ok? {
        assert false;
      }
      GatherFirstFailure(files, env);
    }
  }
}
