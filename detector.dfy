/**
 The `/detectfile` request handler: the size gate, then an ffprobe run whose
 output lines are scanned for a consistent frame geometry, then the result
 record. The subprocess is a stub that hands out a fixed output line by line
 and logs every call the handler makes on it.
 */
module Detector {
  import opened Wrappers
  import opened SizeGate
  import opened FrameScan

  datatype Dimensions = Dimensions(width: Option<string>, height: Option<string>)

  /** The record the handler returns. */
  datatype FileInfo = FileInfo(safe: bool, scannedCount: nat, dimensions: Dimensions, format: string)

  /** How a request ends: the record, a raised HTTP error, or the
      `ValueError` of an ffprobe line that is not four fields (the scan count
      at the moment it was raised, and the number of fields). */
  datatype Outcome =
    | Answer(info: FileInfo)
    | HttpError(status: nat, detail: string)
    | MalformedLine(scanned: nat, fields: nat)

  /** Python's `str()` of an optional string. */
  function PyStr(s: Option<string>): string {
    match s
    case None => "None"
    case Some(v) => v
  }

  /** The handler as a function of the `Content-Length` header and of the
      lines the ffprobe run would write. */
  function Detect(header: Option<string>, lines: seq<string>): Outcome {
    match CheckContentLength(header)
    case Rejected(status, detail) => HttpError(status, detail)
    case Accepted(_) =>
      match Scan(lines)
      case Malformed(scanned, fields) => MalformedLine(scanned, fields)
      case Finished(safe, scanned, width, height, format) =>
        Answer(FileInfo(safe, scanned, Dimensions(width, height), PyStr(format)))
  }

  /** The calls the handler makes on its subprocess other than reading a
      line, in order; `terminate()` and `wait()` carry how many lines had been
      read when they were made. */
  datatype Event = Spawned | EndOfOutput | Terminated(linesRead: nat) | Waited(linesRead: nat)

  /** The calls of the scan loop: exhausting the output costs one read past
      its end, a mismatch costs a `terminate()` right after the offending
      line. */
  function ScanLog(lines: seq<string>): seq<Event> {
    var r := Scan(lines);
    if r.Malformed? then []
    else if r.safe then [EndOfOutput]
    else [Terminated(r.scanned)]
  }

  /** After the loop comes `wait()`, except that a malformed line raises
      straight out of the loop, with neither `terminate()` nor `wait()`. */
  function ScanEvents(lines: seq<string>): seq<Event> {
    var r := Scan(lines);
    if r.Malformed? then ScanLog(lines) else ScanLog(lines) + [Waited(r.scanned)]
  }

  /** No subprocess is started when the size gate rejects the request. */
  function DetectEvents(header: Option<string>, lines: seq<string>): seq<Event> {
    if CheckContentLength(header).Rejected? then [] else [Spawned] + ScanEvents(lines)
  }

  /** How many lines of output the handler reads: none when the gate
      rejects, otherwise the ones the scan counts. */
  function LinesRead(header: Option<string>, lines: seq<string>): nat {
    if CheckContentLength(header).Rejected? then 0 else Scan(lines).scanned
  }

  /** A stand-in for the ffprobe subprocess: the lines its standard output
      will carry, how many have been handed out, and the log of calls. */
  class Process {
    const output: seq<string>
    var position: nat
    var events: seq<Event>

    constructor (output: seq<string>)
      ensures this.output == output && position == 0 && events == []
    {
      this.output := output;
      position := 0;
      events := [];
    }

    method Spawn()
      modifies this
      ensures position == old(position) && events == old(events) + [Spawned]
    {
      events := events + [Spawned];
    }

    /** The next line of standard output, or `None` at its end; the lines
        read so far are `output[..position]`. */
    method ReadLine() returns (line: Option<string>)
      requires position <= |output|
      modifies this
      ensures position <= |output|
      ensures old(position) < |output| ==>
        line == Some(output[old(position)]) && position == old(position) + 1 && events == old(events)
      ensures old(position) == |output| ==>
        line == None && position == old(position) && events == old(events) + [EndOfOutput]
    {
      if position < |output| {
        line := Some(output[position]);
        position := position + 1;
      } else {
        line := None;
        events := events + [EndOfOutput];
      }
    }

    method Terminate()
      modifies this
      ensures position == old(position) && events == old(events) + [Terminated(position)]
    {
      events := events + [Terminated(position)];
    }

    method Wait()
      modifies this
      ensures position == old(position) && events == old(events) + [Waited(position)]
    {
      events := events + [Waited(position)];
    }
  }


  /** The `async for` loop over ffprobe's output: count each line, split it
      into four fields, take the first line's geometry as the reference, and
      at the first line that differs mark the verdict unsafe, terminate the
      process and stop reading. */
  method ScanOutput(proc: Process) returns (r: ScanResult)
    requires proc.position == 0
    modifies proc
    ensures r == Scan(proc.output)
    ensures proc.position == r.scanned
    ensures proc.events == old(proc.events) + ScanLog(proc.output)
  {
    ghost var lines := proc.output;
    ghost var start := proc.events;
    var width: Option<string>, height: Option<string>, format: Option<string> := None, None, None;
    var scanned: nat := 0;
    var safe := true;
    var line := proc.ReadLine();
    while line.Some?
      invariant proc.position <= |lines|
      invariant line.Some? ==> scanned < |lines| && line.value == lines[scanned] && proc.position == scanned + 1
      invariant line.None? ==> scanned == |lines| == proc.position
      invariant proc.events == if line.Some? then start else start + [EndOfOutput]
      invariant ScanFrom(lines[scanned..], width, height, format, scanned) == Scan(lines)
      invariant scanned == 0 ==> width.None? && height.None? && format.None?
      invariant scanned > 0 ==> ParseLine(lines[0]).Some? && (width, height, format) == Held(Reference(lines))
      invariant safe
      decreases |lines| - scanned
    {
      ghost var rest := lines[scanned..];
      assert rest[0] == line.value && rest[1..] == lines[scanned + 1..];
      ScanFromStep(rest, width, height, format, scanned);
      scanned := scanned + 1;
      var fields := Text.Split(Text.Strip(line.value), ',');
      if |fields| != 4 {
        return Malformed(scanned, |fields|);
      }
      var frameWidth, frameHeight, frameFormat := fields[1], fields[2], fields[3];
      if width.None? {
        width := Some(frameWidth);
      }
      if height.None? {
        height := Some(frameHeight);
      }
      if format.None? {
        format := Some(frameFormat);
      }
      if width != Some(frameWidth) || height != Some(frameHeight) || format != Some(frameFormat) {
        safe := false;
        proc.Terminate();
        break;
      }
      line := proc.ReadLine();
    }
    r := Finished(safe, scanned, width, height, format);
  }

  /** The handler: gate the declared length, start ffprobe, run the scan
      loop, wait for the process unless the loop raised, and build the
      record. */
  method DetectFile(header: Option<string>, proc: Process) returns (result: Outcome)
    requires proc.position == 0
    modifies proc
    ensures result == Detect(header, proc.output)
    ensures proc.position == LinesRead(header, proc.output)
    ensures proc.events == old(proc.events) + DetectEvents(header, proc.output)
  {
    var gate := CheckContentLength(header);
    if gate.Rejected? {
      return HttpError(gate.status, gate.detail);
    }
    proc.Spawn();
    assert old(proc.events) + ([Spawned] + ScanEvents(proc.output))
        == old(proc.events) + [Spawned] + ScanEvents(proc.output);
    var scan := ScanOutput(proc);
    if scan.Malformed? {
      return MalformedLine(scan.scanned, scan.fields);
    }
    proc.Wait();
    assert old(proc.events) + [Spawned] + (ScanLog(proc.output) + [Waited(scan.scanned)])
        == old(proc.events) + [Spawned] + ScanLog(proc.output) + [Waited(scan.scanned)];
    result := Answer(FileInfo(scan.safe, scan.scanned, Dimensions(scan.width, scan.height), PyStr(scan.format)));
  }

  /** A missing header is a 400 with its message, and ffprobe is never
      started. */
  lemma DetectMissingHeader(lines: seq<string>)
    ensures Detect(None, lines) == HttpError(400, NO_CONTENT_HEADER)
    ensures DetectEvents(None, lines) == [] && LinesRead(None, lines) == 0
  {
  }

  /** A header that does not parse is a 400 with its own message, and
      ffprobe is never started. */
  lemma DetectNonIntegerHeader(text: string, lines: seq<string>)
    requires ParseInt(text).None?
    ensures Detect(Some(text), lines) == HttpError(400, NON_INT_CONTENT_HEADER)
    ensures DetectEvents(Some(text), lines) == [] && LinesRead(Some(text), lines) == 0
  {
  }

  /** A declared length over the ceiling is a 413, and ffprobe is never
      started; at or under the ceiling, negative lengths included, the
      scan runs. */
  lemma DetectLengthCeiling(n: int, lines: seq<string>)
    ensures n > MAX_LENGTH ==>
      && Detect(Some(Show(n)), lines) == HttpError(413, CONTENT_TOO_BIG)
      && DetectEvents(Some(Show(n)), lines) == []
    ensures n <= MAX_LENGTH ==>
      && DetectEvents(Some(Show(n)), lines) == [Spawned] + ScanEvents(lines)
      && Detect(Some(Show(n)), lines) == Detect(Some("0"), lines)
  {
    CheckRenderedLength(n);
    CheckRenderedLength(0);
    assert Show(0) == "0";
  }

  /** Whenever a record is returned, its count is the number of lines read
      from ffprobe, and the process was waited for last. */
  lemma DetectAnswerCountsReads(header: Option<string>, lines: seq<string>)
    requires Detect(header, lines).Answer?
    ensures Detect(header, lines).info.scannedCount == LinesRead(header, lines) <= |lines|
    ensures var events := DetectEvents(header, lines);
      |events| == 3 && events[0] == Spawned && events[2] == Waited(LinesRead(header, lines))
  {
  }

  /** Output whose lines all agree with the first: a safe record with every
      line counted, the first line's dimensions and format, and ffprobe read
      to its end and waited for without being terminated. */
  lemma DetectUniform(header: Option<string>, lines: seq<string>)
    requires CheckContentLength(header).Accepted? && |lines| > 0 && Uniform(lines)
    ensures var g := Reference(lines);
      Detect(header, lines) == Answer(FileInfo(true, |lines|, Dimensions(Some(g.width), Some(g.height)), g.pixFmt))
    ensures DetectEvents(header, lines) == [Spawned, EndOfOutput, Waited(|lines|)]
    ensures LinesRead(header, lines) == |lines|
  {
    ScanUniform(lines);
  }

  /** Line `k` is the first to differ from the first line: an unsafe record
      counting `k + 1` lines, the first line's dimensions and format, no line
      after it read, and one `terminate()` just before `wait()`. */
  lemma DetectFirstMismatch(header: Option<string>, lines: seq<string>, k: nat)
    requires CheckContentLength(header).Accepted?
    requires 1 <= k < |lines| && AgreeUpTo(lines, k)
    requires ParseLine(lines[k]).Some? && GeometryOf(ParseLine(lines[k]).value) != Reference(lines)
    ensures var g := Reference(lines);
      Detect(header, lines) == Answer(FileInfo(false, k + 1, Dimensions(Some(g.width), Some(g.height)), g.pixFmt))
    ensures DetectEvents(header, lines) == [Spawned, Terminated(k + 1), Waited(k + 1)]
    ensures LinesRead(header, lines) == k + 1
  {
    ScanFirstMismatch(lines, k);
  }

  /** Whatever ffprobe would write after the first mismatching line makes no
      difference to the response or to the calls on the process. */
  lemma DetectIgnoresAfterMismatch(header: Option<string>, lines: seq<string>, k: nat, extra: seq<string>)
    requires CheckContentLength(header).Accepted?
    requires 1 <= k < |lines| && AgreeUpTo(lines, k)
    requires ParseLine(lines[k]).Some? && GeometryOf(ParseLine(lines[k]).value) != Reference(lines)
    ensures Detect(header, lines[..k + 1] + extra) == Detect(header, lines)
    ensures DetectEvents(header, lines[..k + 1] + extra) == DetectEvents(header, lines)
  {
    var prefix := lines[..k + 1];
    assert prefix[k] == lines[k];
    forall i | 0 <= i < k
      ensures Agrees(prefix, i)
    {
      assert prefix[i] == lines[i] && prefix[0] == lines[0];
      assert Agrees(lines, i);
    }
    ScanFirstMismatch(prefix, k);
    ScanFirstMismatch(lines, k);
    ScanIgnoresAfterStop(prefix, extra);
  }

  /** An empty output: a safe record with nothing counted, no dimensions,
      and the format `"None"`. */
  lemma DetectEmptyOutput(header: Option<string>)
    requires CheckContentLength(header).Accepted?
    ensures Detect(header, []) == Answer(FileInfo(true, 0, Dimensions(None, None), "None"))
    ensures DetectEvents(header, []) == [Spawned, EndOfOutput, Waited(0)]
  {
    ScanEmpty();
  }

  /** Line `k` is the first that is not four fields: the `ValueError` is
      raised with that line already counted, and the process is neither
      terminated nor waited for. */
  lemma DetectFirstMalformed(header: Option<string>, lines: seq<string>, k: nat)
    requires CheckContentLength(header).Accepted?
    requires k < |lines| && AgreeUpTo(lines, k) && ParseLine(lines[k]).None?
    ensures Detect(header, lines) == MalformedLine(k + 1, |FrameFields(lines[k])|)
    ensures DetectEvents(header, lines) == [Spawned]
    ensures LinesRead(header, lines) == k + 1
  {
    ScanFirstMalformed(lines, k);
  }

  /** The record says safe exactly when the gate lets the request through
      and every line agrees with the first. */
  lemma DetectSafeIff(header: Option<string>, lines: seq<string>)
    ensures (Detect(header, lines).Answer? && Detect(header, lines).info.safe)
        <==> CheckContentLength(header).Accepted? && Uniform(lines)
  {
    ScanSafeIffUniform(lines);
  }

  /** On a non-empty output any record carries the first line's width,
      height and pixel format, whatever the verdict. */
  lemma DetectReportsFirstLine(header: Option<string>, lines: seq<string>)
    requires |lines| > 0 && Detect(header, lines).Answer?
    ensures ParseLine(lines[0]).Some?
    ensures var g := Reference(lines);
      && Detect(header, lines).info.dimensions == Dimensions(Some(g.width), Some(g.height))
      && Detect(header, lines).info.format == g.pixFmt
  {
    ScanReportsFirstLine(lines);
  }
}
