/**
  The collaborators of the BMD-to-HPROF conversion driver, given abstractly.

  The string readers, the BMD record reader, the heap-record processor and the
  file streams are not modelled internally. Their observable behaviour for one
  run is bundled in an `Environment` value, and the driver's effects on them are
  recorded as a log of `Event`s, in the order the calls are made.
 */
module Collaborators {

  datatype Option<T> = None | Some(value: T)

  /** The two kinds of exception the driver can raise or let through. */
  datatype Failure =
    | IOException(message: string)
    | IllegalArgumentException(message: string)

  datatype Result<T> = Ok(value: T) | Err(error: Failure)

  /** How a call ended: normally, or by throwing. */
  datatype Outcome = Completed | Threw(failure: Failure)

  /** What one of the two string readers returns for a file: its strings, or an I/O error. */
  datatype Reading = Strings(values: set<string>) | ReadFailed(message: string)

  /** A record of the condensed input; its tag-framed format is not modelled. */
  datatype BmdRecord = BmdRecord(tag: int, payload: seq<int>)

  /** One pull from the BMD reader: a decoded record, or a record that fails to decode. */
  datatype Item = Record(record: BmdRecord) | Corrupt(message: string)

  /** A byte stream: one opened on a file, or a buffering wrapper around another stream. */
  datatype Stream = FileStream(path: string) | BufferedStream(inner: Stream)

  /** The stream at the bottom of a chain of buffering wrappers. */
  function Underlying(s: Stream): Stream
  {
    match s
    case FileStream(_) => s
    case BufferedStream(inner) => Underlying(inner)
  }

  /** A call the driver makes on a collaborator. */
  datatype Event =
    | OpenInput(path: string)                           // new FileInputStream(path)
    | OpenOutput(path: string)                          // new FileOutputStream(path)
    | ReadApk(file: string)                             // ApkStringReader.readStrings(file)
    | ReadJar(file: string)                             // JarStringReader.readStrings(file)
    | OpenProcessor(sink: Stream, strings: set<string>) // new DecrunchProcessor(out, strings)
    | OpenReader(source: Stream)                        // new BmdReader(in, processor)
    | Next(item: Item)                                  // reader.next()
    | WriteHeap                                         // processor.writeHeapRecords()
    | Flush(target: Stream)                             // out.flush()
    | Close(target: Stream)                             // out.close()

  /**
    The behaviour of every collaborator during one run. A `Some(message)` fault
    means that call throws an IOException with that message.
   */
  datatype Environment = Environment(
    inputFault: string -> Option<string>,   // opening an input file
    outputFault: string -> Option<string>,  // opening an output file
    apkStrings: string -> Reading,          // ApkStringReader.readStrings
    jarStrings: string -> Reading,          // JarStringReader.readStrings
    records: seq<Item>,                     // what successive reader.next() calls yield
    writeHeapFault: Option<string>,
    flushFault: Option<string>,
    closeFault: Option<string>)

  /** What a sequence of calls did, and how it ended. */
  datatype Behaviour = Behaviour(log: seq<Event>, outcome: Outcome)
}
