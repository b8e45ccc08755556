/**
  `BmdDecruncher.decrunch`: after the string sources are merged, both streams are
  buffered, the BMD reader is pulled until it has no next record, the processor
  writes the heap records, the output is flushed, and the output is closed in a
  `finally` that covers only this second phase.
 */
module BmdDecruncher {
  import opened Collaborators
  import opened StringSources

  /** Lines 50-55: wrap a stream in a buffer unless it is one already. */
  function EnsureBuffered(s: Stream): (r: Stream)
    ensures r.BufferedStream?
    ensures Underlying(r) == Underlying(s)
    ensures s.BufferedStream? ==> r == s
    ensures !s.BufferedStream? ==> r == BufferedStream(s)
  {
    if s.BufferedStream? then s else BufferedStream(s)
  }

  /** One `Next` event per item, in order. */
  function Nexts(items: seq<Item>): seq<Event>
  {
    seq(|items|, i requires 0 <= i < |items| => Next(items[i]))
  }

  /** `b`, preceded by the events `log`. */
  function Prefixed(log: seq<Event>, b: Behaviour): Behaviour
  {
    Behaviour(log + b.log, b.outcome)
  }

  /** The `while (reader.hasNext()) reader.next();` loop over the items the reader yields. */
  function Pull(items: seq<Item>): (b: Behaviour)
    ensures |b.log| <= |items|
    ensures forall e :: e in b.log ==> e.Next?
    ensures b.outcome == Completed ==> |b.log| == |items|
    ensures b.outcome.Threw? ==> b.outcome.failure.IOException?
    decreases |items|
  {
    if items == [] then Behaviour([], Completed)
    else if items[0].Corrupt? then Behaviour([Next(items[0])], Threw(IOException(items[0].message)))
    else Prefixed([Next(items[0])], Pull(items[1..]))
  }

  /** When every item decodes, the loop makes one `next()` call per record and ends normally. */
  lemma {:induction false} PullAllRecords(items: seq<Item>)
    requires forall i :: 0 <= i < |items| ==> items[i].Record?
    ensures Pull(items) == Behaviour(Nexts(items), Completed)
  {
    if items != [] {
      assert forall i :: 0 <= i < |items| - 1 ==> items[1..][i] == items[i + 1];
      PullAllRecords(items[1..]);
      assert Nexts(items) == [Next(items[0])] + Nexts(items[1..]);
    }
  }

  /** The loop stops at the first item `k` that fails to decode, and throws its IOException. */
  lemma {:induction false} PullStopsAtCorrupt(items: seq<Item>, k: nat)
    requires k < |items| && items[k].Corrupt?
    requires forall i :: 0 <= i < k ==> items[i].Record?
    ensures Pull(items) == Behaviour(Nexts(items[..k + 1]), Threw(IOException(items[k].message)))
  {
    if k > 0 {
      assert forall i :: 0 <= i < k - 1 ==> items[1..][i] == items[i + 1];
      PullStopsAtCorrupt(items[1..], k - 1);
      assert items[1..][..k] == items[..k + 1][1..];
      assert Nexts(items[..k + 1]) == [Next(items[0])] + Nexts(items[1..][..k]);
    }
  }

  /** The loop ends normally exactly when every item decodes, and it only ever calls `next()`. */
  lemma {:induction false} PullCompletesIff(items: seq<Item>)
    ensures Pull(items).outcome == Completed <==> forall i :: 0 <= i < |items| ==> items[i].Record?
    ensures Pull(items).outcome.Threw? ==> Pull(items).outcome.failure.IOException?
    ensures forall e :: e in Pull(items).log ==> e.Next?
  {
    if items != [] && items[0].Record? {
      PullCompletesIff(items[1..]);
      assert forall i :: 1 <= i < |items| ==> items[i] == items[1..][i - 1];
    }
  }

  /** Lines 56-65: the body of the `try`. */
  function TryBlock(strings: set<string>, source: Stream, sink: Stream, env: Environment): (b: Behaviour)
    ensures |b.log| >= 2 && b.log[0] == OpenProcessor(sink, strings) && b.log[1] == OpenReader(source)
    ensures forall e :: e in b.log ==> !e.Close?
    ensures b.outcome == Completed ==> b.log[|b.log| - 1] == Flush(sink)
    ensures b.outcome.Threw? ==> b.outcome.failure.IOException?
  {
    var pulled := Prefixed([OpenProcessor(sink, strings), OpenReader(source)], Pull(env.records));
    if pulled.outcome.Threw? then pulled
    else if env.writeHeapFault.Some? then
      Behaviour(pulled.log + [WriteHeap], Threw(IOException(env.writeHeapFault.value)))
    else if env.flushFault.Some? then
      Behaviour(pulled.log + [WriteHeap, Flush(sink)], Threw(IOException(env.flushFault.value)))
    else
      Behaviour(pulled.log + [WriteHeap, Flush(sink)], Completed)
  }

  /**
    Lines 66-68: `finally { out.close(); }`. The close always happens; an exception
    thrown by close replaces whatever the body threw.
   */
  function Finally(body: Behaviour, sink: Stream, env: Environment): (b: Behaviour)
    ensures |b.log| == |body.log| + 1 && b.log[..|body.log|] == body.log && b.log[|body.log|] == Close(sink)
    ensures b.outcome == Completed <==> body.outcome == Completed && env.closeFault.None?
    ensures env.closeFault.Some? ==> b.outcome == Threw(IOException(env.closeFault.value))
  {
    Behaviour(body.log + [Close(sink)],
      if env.closeFault.Some? then Threw(IOException(env.closeFault.value)) else body.outcome)
  }

  /** Lines 49-68: buffering both streams, then the `try`/`finally`. */
  function Convert(strings: set<string>, input: Stream, output: Stream, env: Environment): (b: Behaviour)
    ensures |b.log| >= 3 && b.log[0] == OpenProcessor(EnsureBuffered(output), strings)
    ensures b.log[|b.log| - 1] == Close(EnsureBuffered(output))
    ensures b.outcome.Threw? ==> b.outcome.failure.IOException?
  {
    var sink := EnsureBuffered(output);
    Finally(TryBlock(strings, EnsureBuffered(input), sink, env), sink, env)
  }

  /** The whole of `decrunch(in, out, additionalFiles)`. */
  function DecrunchBehaviour(input: Stream, output: Stream, files: seq<string>, env: Environment): (b: Behaviour)
    ensures |b.log| >= |Gather(files, env).log| && b.log[..|Gather(files, env).log|] == Gather(files, env).log
    ensures Gather(files, env).strings.Ok? ==> |b.log| >= 3 && b.log[|b.log| - 1] == Close(EnsureBuffered(output))
    ensures b.outcome.Threw? && b.outcome.failure.IllegalArgumentException? ==>
      forall e :: e in b.log ==> e.ReadApk? || e.ReadJar?
  {
    var g := Gather(files, env);
    if g.strings.Err? then Behaviour(g.log, Threw(g.strings.error))
    else Prefixed(g.log, Convert(g.strings.value, input, output, env))
  }

  /** Lines 59-61: `while (reader.hasNext()) reader.next();`, leaving the loop on the first exception. */
  method PullRecords(records: seq<Item>) returns (b: Behaviour)
    ensures b == Pull(records)
  {
    var pulled: seq<Event> := [];
    var pos := 0;
    assert records[0..] == records;
    while pos < |records|
      invariant 0 <= pos <= |records|
      invariant Pull(records) == Prefixed(pulled, Pull(records[pos..]))
    {
      var item := records[pos];
      assert records[pos..][1..] == records[pos + 1..];
      assert pulled + ([Next(item)] + Pull(records[pos + 1..]).log)
          == (pulled + [Next(item)]) + Pull(records[pos + 1..]).log;
      pulled := pulled + [Next(item)];
      if item.Corrupt? {
        return Behaviour(pulled, Threw(IOException(item.message)));
      }
      pos := pos + 1;
    }
    assert pulled + [] == pulled;
    b := Behaviour(pulled, Completed);
  }

  /** Lines 49-68: the second half of `decrunch`, once the string set is built. */
  method RunConversion(strings: set<string>, input: Stream, output: Stream, env: Environment) returns (b: Behaviour)
    ensures b == Convert(strings, input, output, env)
  {
    var sink := output;
    if !sink.BufferedStream? {
      sink := BufferedStream(sink);
    }
    var source := input;
    if !source.BufferedStream? {
      source := BufferedStream(source);
    }
    assert sink == EnsureBuffered(output) && source == EnsureBuffered(input);
    // try
    var log := [OpenProcessor(sink, strings), OpenReader(source)];
    var pulled := PullRecords(env.records);
    log := log + pulled.log;
    var outcome := pulled.outcome;
    assert Behaviour(log, outcome) == Prefixed([OpenProcessor(sink, strings), OpenReader(source)], Pull(env.records));
    if outcome.Completed? {
      log := log + [WriteHeap];
      if env.writeHeapFault.Some? {
        outcome := Threw(IOException(env.writeHeapFault.value));
      } else {
        log := log + [Flush(sink)];
        if env.flushFault.Some? {
          outcome := Threw(IOException(env.flushFault.value));
        }
      }
    }
    assert Behaviour(log, outcome) == TryBlock(strings, source, sink, env);
    // finally
    log := log + [Close(sink)];
    if env.closeFault.Some? {
      outcome := Threw(IOException(env.closeFault.value));
    }
    b := Behaviour(log, outcome);
  }

  /** Lines 36-69: the dispatch loop, then the conversion; a dispatch failure skips the conversion. */
  method Decrunch(input: Stream, output: Stream, additionalFiles: seq<string>, env: Environment) returns (b: Behaviour)
    ensures b == DecrunchBehaviour(input, output, additionalFiles, env)
  {
    var gathered := CollectStrings(additionalFiles, env);
    if gathered.strings.Err? {
      return Behaviour(gathered.log, Threw(gathered.strings.error));
    }
    var converted := RunConversion(gathered.strings.value, input, output, env);
    b := Prefixed(gathered.log, converted);
  }

  /**
    A name that cannot be dispatched, or a reader that fails, stops `decrunch`
    before the `try`: the processor and the reader are never created, and nothing
    is pulled, written, flushed or closed.
   */
  lemma DispatchFailureOpensNothing(input: Stream, output: Stream, files: seq<string>, env: Environment)
    requires Gather(files, env).strings.Err?
    ensures DecrunchBehaviour(input, output, files, env).outcome == Threw(Gather(files, env).strings.error)
    ensures forall e :: e in DecrunchBehaviour(input, output, files, env).log ==> e.ReadApk? || e.ReadJar?
  {
  }

  /**
    Once the `try` is entered the output is closed exactly once, as the very last
    call, on every path; the stream closed is the buffered one, over the caller's stream.
   */
  lemma CloseOnceAtEnd(strings: set<string>, input: Stream, output: Stream, env: Environment)
    ensures var log := Convert(strings, input, output, env).log;
      |log| > 0 && log[|log| - 1] == Close(EnsureBuffered(output)) &&
      forall i :: 0 <= i < |log| - 1 ==> !log[i].Close?
    ensures Underlying(EnsureBuffered(output)) == Underlying(output)
  {
    PullCompletesIff(env.records);
    var sink := EnsureBuffered(output);
    var body := TryBlock(strings, EnsureBuffered(input), sink, env);
    assert forall e :: e in body.log ==> !e.Close?;
    var log := Convert(strings, input, output, env).log;
    assert log[..|log| - 1] == body.log;
  }

  /** The `try` starts by creating the processor on the buffered output, then the BMD reader on the buffered input. */
  lemma ConvertStart(strings: set<string>, input: Stream, output: Stream, env: Environment)
    ensures var log := Convert(strings, input, output, env).log;
      |log| > 2 && log[0] == OpenProcessor(EnsureBuffered(output), strings) &&
      log[1] == OpenReader(EnsureBuffered(input))
  {
  }

  /**
    Right after the last reader call, the processor is created on the buffered
    output with exactly the union of the strings every reader returned.
   */
  lemma ProcessorGetsMergedStrings(input: Stream, output: Stream, files: seq<string>, env: Environment)
    requires Gather(files, env).strings.Ok?
    ensures var log := DecrunchBehaviour(input, output, files, env).log;
      |log| > |files| + 1 &&
      log[|files|].OpenProcessor? && log[|files|].sink == EnsureBuffered(output) &&
      (forall x :: x in log[|files|].strings <==> exists i :: 0 <= i < |files| && x in Harvest(files[i], env)) &&
      log[|files| + 1] == OpenReader(EnsureBuffered(input))
  {
    var g := Gather(files, env);
    GatherLogOk(files, env);
    GatherUnion(files, env);
    var conv := Convert(g.strings.value, input, output, env);
    ConvertStart(g.strings.value, input, output, env);
    var log := DecrunchBehaviour(input, output, files, env).log;
    assert log == g.log + conv.log;
    assert log[|files|] == conv.log[0] && log[|files| + 1] == conv.log[1];
  }

  /**
    When every record decodes: one `next()` per record, then `writeHeapRecords()`,
    then `flush()` unless the heap write failed, then `close()`; the first exception
    wins, except that one from `close()` replaces it.
   */
  lemma ConversionTrace(strings: set<string>, input: Stream, output: Stream, env: Environment)
    requires forall i :: 0 <= i < |env.records| ==> env.records[i].Record?
    ensures var sink := EnsureBuffered(output);
      Convert(strings, input, output, env).log ==
        [OpenProcessor(sink, strings), OpenReader(EnsureBuffered(input))]
        + Nexts(env.records)
        + [WriteHeap] + (if env.writeHeapFault.None? then [Flush(sink)] else [])
        + [Close(sink)]
    ensures Convert(strings, input, output, env).outcome ==
      if env.closeFault.Some? then Threw(IOException(env.closeFault.value))
      else if env.writeHeapFault.Some? then Threw(IOException(env.writeHeapFault.value))
      else if env.flushFault.Some? then Threw(IOException(env.flushFault.value))
      else Completed
  {
    PullAllRecords(env.records);
  }

  /**
    When record `k` is the first that fails to decode: the records up to and
    including it are pulled, the heap records are neither written nor flushed, and
    the output is still closed.
   */
  lemma CorruptRecordTrace(strings: set<string>, input: Stream, output: Stream, env: Environment, k: nat)
    requires k < |env.records| && env.records[k].Corrupt?
    requires forall i :: 0 <= i < k ==> env.records[i].Record?
    ensures var sink := EnsureBuffered(output);
      Convert(strings, input, output, env).log ==
        [OpenProcessor(sink, strings), OpenReader(EnsureBuffered(input))]
        + Nexts(env.records[..k + 1])
        + [Close(sink)]
    ensures Convert(strings, input, output, env).outcome ==
      Threw(IOException(if env.closeFault.Some? then env.closeFault.value else env.records[k].message))
  {
    PullStopsAtCorrupt(env.records, k);
  }

  /** `decrunch` returns normally exactly when no collaborator fails and every name is dispatched. */
  lemma DecrunchCompletesIff(input: Stream, output: Stream, files: seq<string>, env: Environment)
    ensures DecrunchBehaviour(input, output, files, env).outcome == Completed <==>
      (forall i :: 0 <= i < |files| ==> Classify(files[i]) != Unsupported && ReadSource(files[i], env).strings.Ok?) &&
      (forall i :: 0 <= i < |env.records| ==> env.records[i].Record?) &&
      env.writeHeapFault.None? && env.flushFault.None? && env.closeFault.None?
  {
    GatherOkIff(files, env);
    PullCompletesIff(env.records);
  }
}
