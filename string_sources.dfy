/**
  The first phase of `BmdDecruncher.decrunch`: every auxiliary file name is
  classified by its suffix, handed to the matching string reader, and the strings
  read are merged into one set. The loop stops at the first file that cannot be
  classified or read.
 */
module StringSources {
  import opened Collaborators

  /** Java's `String.endsWith`: an exact, case-sensitive suffix test. */
  predicate EndsWith(s: string, suffix: string)
  {
    |suffix| <= |s| && s[|s| - |suffix|..] == suffix
  }

  /** `EndsWith` agrees with the reference definition "s is some prefix followed by suffix". */
  lemma EndsWithIffConcat(s: string, suffix: string)
    ensures EndsWith(s, suffix) <==> exists p :: s == p + suffix
  {
    if EndsWith(s, suffix) {
      var p := s[..|s| - |suffix|];
      assert s == p + suffix;
    }
    if exists p :: s == p + suffix {
      var p :| s == p + suffix;
      assert s[|s| - |suffix|..] == suffix;
    }
  }

  /** Which reader a file name selects. */
  datatype SourceKind = Apk | Jar | Unsupported

  /** The suffix test of the dispatch loop; `.dex` and `.apk` are checked before `.jar`. */
  function Classify(file: string): (k: SourceKind)
    ensures k != Unsupported <==> EndsWith(file, ".dex") || EndsWith(file, ".apk") || EndsWith(file, ".jar")
    ensures k == Jar ==> !EndsWith(file, ".dex") && !EndsWith(file, ".apk")
  {
    if EndsWith(file, ".dex") || EndsWith(file, ".apk") then Apk
    else if EndsWith(file, ".jar") then Jar
    else Unsupported
  }

  /** A name selects the APK reader exactly when it is some prefix followed by `.dex` or `.apk`. */
  lemma ClassifyApkIff(file: string)
    ensures Classify(file) == Apk <==> (exists p :: file == p + ".dex") || (exists p :: file == p + ".apk")
  {
    EndsWithIffConcat(file, ".dex");
    EndsWithIffConcat(file, ".apk");
  }

  /** A name selects the JAR reader exactly when it ends in `.jar` and in neither `.dex` nor `.apk`. */
  lemma ClassifyJarIff(file: string)
    ensures Classify(file) == Jar <==>
      (exists p :: file == p + ".jar") && !(exists p :: file == p + ".dex") && !(exists p :: file == p + ".apk")
  {
    EndsWithIffConcat(file, ".dex");
    EndsWithIffConcat(file, ".apk");
    EndsWithIffConcat(file, ".jar");
  }

  /** Every name selects a reader or is rejected, for each of the three suffixes whatever comes before it. */
  lemma ClassifyBySuffix(p: string)
    ensures Classify(p + ".dex") == Apk && Classify(p + ".apk") == Apk && Classify(p + ".jar") == Jar
    ensures Classify(p + ".DEX") == Unsupported && Classify(p + ".APK") == Unsupported
    ensures Classify(p + ".JAR") == Unsupported
  {
  }

  /** The message of the IllegalArgumentException raised for an unsupported name. */
  function InvalidFileMessage(file: string): string
  {
    "Invalid string input file: " + file
  }

  /** The reader call made for a name that `Classify` accepts. */
  function ReaderCall(file: string): (e: Event)
    requires Classify(file) != Unsupported
    ensures e.ReadApk? || e.ReadJar?
    ensures e.file == file
    ensures e.ReadJar? <==> Classify(file) == Jar
  {
    if Classify(file) == Apk then ReadApk(file) else ReadJar(file)
  }

  /** The strings read so far and the reader calls made, or the failure that stopped the loop. */
  datatype Gathered = Gathered(log: seq<Event>, strings: Result<set<string>>)

  /** A reader's result as the loop sees it: its strings, or the IOException it throws. */
  function FromReading(rd: Reading): Result<set<string>>
  {
    match rd
    case Strings(values) => Ok(values)
    case ReadFailed(message) => Err(IOException(message))
  }

  /** One iteration of the dispatch loop. */
  function ReadSource(file: string, env: Environment): (g: Gathered)
    ensures Classify(file) == Unsupported <==> g.log == []
    ensures Classify(file) != Unsupported ==> g.log == [ReaderCall(file)]
    ensures Classify(file) == Unsupported <==> g.strings.Err? && g.strings.error.IllegalArgumentException?
    ensures Classify(file) == Unsupported ==> g.strings.error.message == InvalidFileMessage(file)
    ensures Classify(file) == Apk ==> g.strings == FromReading(env.apkStrings(file))
    ensures Classify(file) == Jar ==> g.strings == FromReading(env.jarStrings(file))
  {
    match Classify(file)
    case Apk => Gathered([ReadApk(file)], FromReading(env.apkStrings(file)))
    case Jar => Gathered([ReadJar(file)], FromReading(env.jarStrings(file)))
    case Unsupported => Gathered([], Err(IllegalArgumentException(InvalidFileMessage(file))))
  }

  /** The strings a file contributes when it is read successfully. */
  function Harvest(file: string, env: Environment): set<string>
  {
    var g := ReadSource(file, env);
    if g.strings.Ok? then g.strings.value else {}
  }

  /** `g`, preceded by reader calls `log` that already produced the strings `s`. */
  function After(log: seq<Event>, s: set<string>, g: Gathered): Gathered
  {
    Gathered(log + g.log, if g.strings.Ok? then Ok(s + g.strings.value) else g.strings)
  }

  lemma AfterNothing(g: Gathered)
    ensures After([], {}, g) == g
  {
    assert [] + g.log == g.log;
    if g.strings.Ok? {
      assert {} + g.strings.value == g.strings.value;
    }
  }

  lemma AfterAfter(log: seq<Event>, s: set<string>, log': seq<Event>, s': set<string>, g: Gathered)
    ensures After(log, s, After(log', s', g)) == After(log + log', s + s', g)
  {
    assert log + (log' + g.log) == (log + log') + g.log;
    if g.strings.Ok? {
      assert s + (s' + g.strings.value) == (s + s') + g.strings.value;
    }
  }

  /** The whole dispatch loop over `files`, in order. */
  function Gather(files: seq<string>, env: Environment): (g: Gathered)
    ensures |g.log| <= |files|
    ensures g.strings.Ok? ==> |g.log| == |files|
    ensures forall e :: e in g.log ==> e.ReadApk? || e.ReadJar?
    decreases |files|
  {
    if files == [] then Gathered([], Ok({}))
    else
      var head := ReadSource(files[0], env);
      if head.strings.Err? then head
      else After(head.log, head.strings.value, Gather(files[1..], env))
  }

  /** Lines 37-48: the `for` loop that fills the `HashSet strings`. */
  method CollectStrings(files: seq<string>, env: Environment) returns (g: Gathered)
    ensures g == Gather(files, env)
  {
    var strings: set<string> := {};
    var log: seq<Event> := [];
    var i := 0;
    assert files[0..] == files;
    AfterNothing(Gather(files, env));
    while i < |files|
      invariant 0 <= i <= |files|
      invariant Gather(files, env) == After(log, strings, Gather(files[i..], env))
    {
      var file := files[i];
      assert files[i..][1..] == files[i + 1..];
      match Classify(file) {
      case Apk =>
        log := log + [ReadApk(file)];
        var rd := env.apkStrings(file);
        if rd.ReadFailed? {
          return Gathered(log, Err(IOException(rd.message)));
        }
        AfterAfter(log[..|log| - 1], strings, [ReadApk(file)], rd.values, Gather(files[i + 1..], env));
        strings := strings + rd.values;
      case Jar =>
        log := log + [ReadJar(file)];
        var rd := env.jarStrings(file);
        if rd.ReadFailed? {
          return Gathered(log, Err(IOException(rd.message)));
        }
        AfterAfter(log[..|log| - 1], strings, [ReadJar(file)], rd.values, Gather(files[i + 1..], env));
        strings := strings + rd.values;
      case Unsupported =>
        return Gathered(log, Err(IllegalArgumentException(InvalidFileMessage(file))));
      }
      i := i + 1;
    }
    g := Gathered(log, Ok(strings));
  }

  /** The loop completes exactly when every file is classified and read successfully. */
  lemma {:induction false} GatherOkIff(files: seq<string>, env: Environment)
    ensures Gather(files, env).strings.Ok? <==>
      forall i :: 0 <= i < |files| ==> ReadSource(files[i], env).strings.Ok?
  {
    if files != [] {
      GatherOkIff(files[1..], env);
      assert forall i :: 1 <= i < |files| ==> files[i] == files[1..][i - 1];
    }
  }

  /** On success the set is the union of what the readers returned for every file. */
  lemma {:induction false} GatherUnion(files: seq<string>, env: Environment)
    requires Gather(files, env).strings.Ok?
    ensures forall x :: x in Gather(files, env).strings.value <==>
      exists i :: 0 <= i < |files| && x in Harvest(files[i], env)
  {
    if files != [] {
      GatherUnion(files[1..], env);
      assert forall i :: 1 <= i < |files| ==> files[i] == files[1..][i - 1];
      forall x | exists i :: 0 <= i < |files| && x in Harvest(files[i], env)
        ensures x in Gather(files, env).strings.value
      {
        var i :| 0 <= i < |files| && x in Harvest(files[i], env);
        if i > 0 {
          assert x in Harvest(files[1..][i - 1], env);
        }
      }
    }
  }

  /**
    The merged set depends only on which files are named: repeating a name or
    permuting the list changes nothing.
   */
  lemma GatherDependsOnlyOnNames(files: seq<string>, others: seq<string>, env: Environment)
    requires forall f :: f in files <==> f in others
    ensures Gather(files, env).strings.Ok? <==> Gather(others, env).strings.Ok?
    ensures Gather(files, env).strings.Ok? ==>
      Gather(files, env).strings.value == Gather(others, env).strings.value
  {
    GatherOkIff(files, env);
    GatherOkIff(others, env);
    assert (forall f :: f in files ==> ReadSource(f, env).strings.Ok?) <==>
      (forall f :: f in others ==> ReadSource(f, env).strings.Ok?);
    if Gather(files, env).strings.Ok? {
      GatherUnion(files, env);
      GatherUnion(others, env);
      forall x ensures x in Gather(files, env).strings.value <==> x in Gather(others, env).strings.value {
        if x in Gather(files, env).strings.value {
          var i :| 0 <= i < |files| && x in Harvest(files[i], env);
          assert files[i] in others;
          var j :| 0 <= j < |others| && others[j] == files[i];
          assert x in Harvest(others[j], env);
        }
        if x in Gather(others, env).strings.value {
          var i :| 0 <= i < |others| && x in Harvest(others[i], env);
          assert others[i] in files;
          var j :| 0 <= j < |files| && files[j] == others[i];
          assert x in Harvest(files[j], env);
        }
      }
    }
  }

  /** On success every file, in list order, was handed to its reader exactly once. */
  lemma {:induction false} GatherLogOk(files: seq<string>, env: Environment)
    requires Gather(files, env).strings.Ok?
    ensures |Gather(files, env).log| == |files|
    ensures forall i :: 0 <= i < |files| ==>
      Classify(files[i]) != Unsupported && Gather(files, env).log[i] == ReaderCall(files[i])
  {
    if files != [] {
      GatherLogOk(files[1..], env);
      assert forall i :: 1 <= i < |files| ==> files[i] == files[1..][i - 1];
    }
  }

  /**
    The loop stops at the first file `k` that cannot be classified or read: it
    fails with that file's failure, and the files after it are never read.
   */
  lemma {:induction false} GatherStopsAtFirstFailure(files: seq<string>, k: nat, env: Environment)
    requires k < |files|
    requires forall i :: 0 <= i < k ==> ReadSource(files[i], env).strings.Ok?
    requires ReadSource(files[k], env).strings.Err?
    ensures Gather(files, env).strings == ReadSource(files[k], env).strings
    ensures |Gather(files, env).log| == k + |ReadSource(files[k], env).log|
    ensures Gather(files, env).log[k..] == ReadSource(files[k], env).log
  {
    if k > 0 {
      var tail := files[1..];
      assert forall i :: 0 <= i < k - 1 ==> tail[i] == files[i + 1];
      assert tail[k - 1] == files[k];
      GatherStopsAtFirstFailure(tail, k - 1, env);
      var log := Gather(files, env).log;
      assert log == ReadSource(files[0], env).log + Gather(tail, env).log;
      assert log[k..] == Gather(tail, env).log[k - 1..];
    }
  }

  /** Before the loop stops at file `k`, every earlier file was handed to its reader, in order. */
  lemma {:induction false} GatherReadsBeforeFailure(files: seq<string>, k: nat, env: Environment)
    requires k < |files|
    requires forall i :: 0 <= i < k ==> ReadSource(files[i], env).strings.Ok?
    ensures |Gather(files, env).log| >= k
    ensures forall i :: 0 <= i < k ==>
      Classify(files[i]) != Unsupported && Gather(files, env).log[i] == ReaderCall(files[i])
  {
    if k > 0 {
      var tail := files[1..];
      assert forall i :: 0 <= i < k - 1 ==> tail[i] == files[i + 1];
      GatherReadsBeforeFailure(tail, k - 1, env);
      var log := Gather(files, env).log;
      assert log == ReadSource(files[0], env).log + Gather(tail, env).log;
      forall i | 1 <= i < k
        ensures Classify(files[i]) != Unsupported && log[i] == ReaderCall(files[i])
      {
        assert files[i] == tail[i - 1] && log[i] == Gather(tail, env).log[i - 1];
      }
    }
  }

  /** A loop that fails has a first file at which it fails, and the failure is that file's. */
  lemma {:induction false} GatherFirstFailure(files: seq<string>, env: Environment)
    requires Gather(files, env).strings.Err?
    ensures exists k :: (0 <= k < |files| && ReadSource(files[k], env).strings.Err? &&
      (forall i :: 0 <= i < k ==> ReadSource(files[i], env).strings.Ok?) &&
      Gather(files, env).strings == ReadSource(files[k], env).strings)
  {
    if ReadSource(files[0], env).strings.Ok? {
      GatherFirstFailure(files[1..], env);
      var k :| 0 <= k < |files[1..]| && ReadSource(files[1..][k], env).strings.Err? &&
        (forall i :: 0 <= i < k ==> ReadSource(files[1..][i], env).strings.Ok?) &&
        Gather(files[1..], env).strings == ReadSource(files[1..][k], env).strings;
      assert forall i :: 1 <= i < k + 1 ==> files[i] == files[1..][i - 1];
      assert files[k + 1] == files[1..][k];
    } else {
      assert Gather(files, env).strings == ReadSource(files[0], env).strings;
    }
  }

  /**
    Every reader call the loop makes goes to the reader the suffix selects: a
    name ending in `.dex` or `.apk` never reaches the JAR reader.
   */
  lemma {:induction false} ReaderChoice(files: seq<string>, env: Environment)
    ensures forall e :: e in Gather(files, env).log ==>
      (e.ReadApk? && (EndsWith(e.file, ".dex") || EndsWith(e.file, ".apk"))) ||
      (e.ReadJar? && EndsWith(e.file, ".jar") && !EndsWith(e.file, ".dex") && !EndsWith(e.file, ".apk"))
  {
    if files != [] {
      ReaderChoice(files[1..], env);
    }
  }
}
