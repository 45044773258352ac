/**
 The frame-consistency scan of the `/detectfile` handler, as pure functions:
 ffprobe's CSV output, one `pkt_pts_time,width,height,pix_fmt` record per
 line, is consumed in order; the first line fixes the reference geometry and
 the scan stops at the first line whose geometry differs from it.
 */
module FrameScan {
  import opened Wrappers
  import opened Text

  /** The four fields of one ffprobe record, as strings. */
  datatype Frame = Frame(pktTime: string, width: string, height: string, pixFmt: string)

  /** The part of a record the scan compares: the timestamp is not in it. */
  datatype Geometry = Geometry(width: string, height: string, pixFmt: string)

  function GeometryOf(f: Frame): Geometry {
    Geometry(f.width, f.height, f.pixFmt)
  }

  /** `line.strip().split(",")`. */
  function FrameFields(line: string): seq<string> {
    Split(Strip(line), ',')
  }

  /** Unpacking the fields into four names, `None` for the `ValueError`. */
  function ParseLine(line: string): Option<Frame> {
    var fields := FrameFields(line);
    if |fields| == 4 then Some(Frame(fields[0], fields[1], fields[2], fields[3])) else None
  }

  /** Unpacking succeeds exactly when the stripped line holds three commas,
      empty fields included, and the four fields are the comma-free pieces
      that rejoin to the stripped line. */
  lemma ParseLineFields(line: string)
    ensures ParseLine(line).Some? <==> Occurrences(Strip(line), ',') == 3
    ensures ParseLine(line).Some? ==>
      var f := ParseLine(line).value;
      && Join([f.pktTime, f.width, f.height, f.pixFmt], ',') == Strip(line)
      && ',' !in f.pktTime && ',' !in f.width && ',' !in f.height && ',' !in f.pixFmt
  {
    SplitParts(Strip(line), ',');
    var fields := FrameFields(line);
    if |fields| == 4 {
      assert fields == [fields[0], fields[1], fields[2], fields[3]];
    }
  }

  /** An ffprobe record: the four fields joined by commas. */
  function Record(f: Frame): string {
    Join([f.pktTime, f.width, f.height, f.pixFmt], ',')
  }

  /** A record whose fields hold no comma, and which does not start or end
      with whitespace, reads back as the frame it was written from. */
  lemma ParseRecord(f: Frame)
    requires ',' !in f.pktTime && ',' !in f.width && ',' !in f.height && ',' !in f.pixFmt
    requires var line := Record(f); line != [] ==> !IsSpace(line[0]) && !IsSpace(line[|line| - 1])
    ensures ParseLine(Record(f)) == Some(f)
  {
    StripUnpadded(Record(f), IsSpace);
    SplitJoin([f.pktTime, f.width, f.height, f.pixFmt], ',');
  }

  /** How the scan ends: a verdict with the count of lines consumed and the
      reference `w`, `h` and `fmt` (each `None` until the first line sets
      it), or the `ValueError` of a line that is not four fields, with the
      count already including that line and the number of fields it had. */
  datatype ScanResult =
    | Finished(safe: bool, scanned: nat, width: Option<string>, height: Option<string>, format: Option<string>)
    | Malformed(scanned: nat, fields: nat)

  /** One step of the loop per line of `rest`, from the reference held so far
      and the count of lines already consumed. */
  function ScanFrom(rest: seq<string>, width: Option<string>, height: Option<string>,
                    format: Option<string>, scanned: nat): (r: ScanResult)
    ensures r.scanned <= scanned + |rest|
    ensures r.Finished? && r.safe ==> r.scanned == scanned + |rest|
    ensures !(r.Finished? && r.safe) ==> scanned < r.scanned
    ensures r.Malformed? ==> r.fields != 4
    decreases |rest|
  {
    if rest == [] then
      Finished(true, scanned, width, height, format)
    else
      var count := scanned + 1;
      match ParseLine(rest[0])
      case None => Malformed(count, |FrameFields(rest[0])|)
      case Some(f) =>
        var w := if width.None? then Some(f.width) else width;
        var h := if height.None? then Some(f.height) else height;
        var fmt := if format.None? then Some(f.pixFmt) else format;
        if w != Some(f.width) || h != Some(f.height) || fmt != Some(f.pixFmt) then
          Finished(false, count, w, h, fmt)
        else
          ScanFrom(rest[1..], w, h, fmt, count)
  }

  /** One step of the loop, unfolded: the line's fields, the reference after
      the first-line assignments, and where the scan goes from there. */
  lemma ScanFromStep(rest: seq<string>, width: Option<string>, height: Option<string>,
                     format: Option<string>, scanned: nat)
    requires rest != []
    ensures var fields := Split(Strip(rest[0]), ',');
      ScanFrom(rest, width, height, format, scanned) ==
        if |fields| != 4 then Malformed(scanned + 1, |fields|)
        else
          var w := if width.None? then Some(fields[1]) else width;
          var h := if height.None? then Some(fields[2]) else height;
          var fmt := if format.None? then Some(fields[3]) else format;
          if w != Some(fields[1]) || h != Some(fields[2]) || fmt != Some(fields[3])
          then Finished(false, scanned + 1, w, h, fmt)
          else ScanFrom(rest[1..], w, h, fmt, scanned + 1)
  {
  }

  /** The whole scan: nothing seen, no reference, count zero. */
  function Scan(lines: seq<string>): (r: ScanResult)
    ensures r.scanned <= |lines|
    ensures r.Finished? && r.safe ==> r.scanned == |lines|
    ensures !(r.Finished? && r.safe) ==> 0 < r.scanned
  {
    ScanFrom(lines, None, None, None, 0)
  }

  /** The reference as the three optional fields the scan keeps. */
  function Held(g: Geometry): (Option<string>, Option<string>, Option<string>) {
    (Some(g.width), Some(g.height), Some(g.pixFmt))
  }

  /** Line `i` parses and has the same width, height and pixel format as
      the first line. */
  predicate Agrees(lines: seq<string>, i: nat)
    requires i < |lines|
  {
    && ParseLine(lines[0]).Some?
    && ParseLine(lines[i]).Some?
    && GeometryOf(ParseLine(lines[i]).value) == GeometryOf(ParseLine(lines[0]).value)
  }

  /** The first `k` lines all agree with the first one. */
  predicate AgreeUpTo(lines: seq<string>, k: nat)
    requires k <= |lines|
  {
    && (k > 0 ==> ParseLine(lines[0]).Some?)
    && forall i :: 0 <= i < k ==> Agrees(lines, i)
  }

  /** Every line parses and has the first line's geometry. */
  predicate Uniform(lines: seq<string>) {
    AgreeUpTo(lines, |lines|)
  }

  /** The geometry of the first line, which must parse. */
  function Reference(lines: seq<string>): Geometry
    requires |lines| > 0 && ParseLine(lines[0]).Some?
  {
    GeometryOf(ParseLine(lines[0]).value)
  }

  /** The line parses and has geometry `g`. */
  predicate HasGeometry(line: string, g: Geometry) {
    ParseLine(line).Some? && GeometryOf(ParseLine(line).value) == g
  }

  /** Lines that all have the held geometry are consumed one by one without
      changing the reference. */
  lemma ScanFromSkipsAgreeing(rest: seq<string>, g: Geometry, scanned: nat, k: nat)
    requires k <= |rest|
    requires forall i :: 0 <= i < k ==> HasGeometry(rest[i], g)
    ensures ScanFrom(rest, Some(g.width), Some(g.height), Some(g.pixFmt), scanned)
         == ScanFrom(rest[k..], Some(g.width), Some(g.height), Some(g.pixFmt), scanned + k)
  {
    HaveGeometryBetween(rest, g, 0, k);
    ScanFromSkipsBetween(rest, g, scanned, 0, k);
    assert rest[0..] == rest;
  }

  /** Lines `j` up to `k` of `rest` all have geometry `g`, one after the other. */
  predicate HaveGeometry(rest: seq<string>, g: Geometry, j: nat, k: nat)
    requires j <= k <= |rest|
    decreases k - j
  {
    j == k || (HasGeometry(rest[j], g) && HaveGeometry(rest, g, j + 1, k))
  }

  lemma {:induction false} HaveGeometryBetween(rest: seq<string>, g: Geometry, j: nat, k: nat)
    requires j <= k <= |rest|
    requires forall i :: j <= i < k ==> HasGeometry(rest[i], g)
    ensures HaveGeometry(rest, g, j, k)
    decreases k - j
  {
    if j < k {
      HaveGeometryBetween(rest, g, j + 1, k);
    }
  }

  /** The agreeing lines from `j` up to `k` are passed over. */
  lemma {:induction false} ScanFromSkipsBetween(rest: seq<string>, g: Geometry, scanned: nat, j: nat, k: nat)
    requires j <= k <= |rest| && HaveGeometry(rest, g, j, k)
    ensures ScanFrom(rest[j..], Some(g.width), Some(g.height), Some(g.pixFmt), scanned + j)
         == ScanFrom(rest[k..], Some(g.width), Some(g.height), Some(g.pixFmt), scanned + k)
    decreases k - j
  {
    if j < k {
      var suffix := rest[j..];
      assert suffix[0] == rest[j];
      ScanFromAgreeingStep(suffix, g, scanned + j);
      assert suffix[1..] == rest[j + 1..];
      ScanFromSkipsBetween(rest, g, scanned, j + 1, k);
    }
  }

  /** A line with the held geometry is counted and passed over. */
  lemma ScanFromAgreeingStep(rest: seq<string>, g: Geometry, scanned: nat)
    requires rest != [] && HasGeometry(rest[0], g)
    ensures ScanFrom(rest, Some(g.width), Some(g.height), Some(g.pixFmt), scanned)
         == ScanFrom(rest[1..], Some(g.width), Some(g.height), Some(g.pixFmt), scanned + 1)
  {
    ScanFromHeldStep(rest, g, scanned);
  }

  /** One step with a reference held: a malformed line raises, a line with
      another geometry stops the scan unsafe, and an agreeing line is counted
      and passed over. */
  lemma ScanFromHeldStep(rest: seq<string>, g: Geometry, scanned: nat)
    requires rest != []
    ensures ScanFrom(rest, Some(g.width), Some(g.height), Some(g.pixFmt), scanned) ==
      match ParseLine(rest[0])
      case None => Malformed(scanned + 1, |FrameFields(rest[0])|)
      case Some(f) =>
        if GeometryOf(f) != g then Finished(false, scanned + 1, Some(g.width), Some(g.height), Some(g.pixFmt))
        else ScanFrom(rest[1..], Some(g.width), Some(g.height), Some(g.pixFmt), scanned + 1)
  {
  }

  /** The first line always becomes the reference and never mismatches
      itself; the scan goes on with it held and a count of one. */
  lemma ScanFirstLine(lines: seq<string>)
    requires |lines| > 0 && ParseLine(lines[0]).Some?
    ensures var g := Reference(lines);
      Scan(lines) == ScanFrom(lines[1..], Some(g.width), Some(g.height), Some(g.pixFmt), 1)
  {
  }

  /** An empty output: safe, nothing scanned, no reference. */
  lemma ScanEmpty()
    ensures Scan([]) == Finished(true, 0, None, None, None)
  {
  }

  /** When every line agrees with the first, the verdict is safe, every line
      is counted, and the reference is the first line's geometry. */
  lemma ScanUniform(lines: seq<string>)
    requires |lines| > 0 && Uniform(lines)
    ensures var g := Reference(lines);
      Scan(lines) == Finished(true, |lines|, Some(g.width), Some(g.height), Some(g.pixFmt))
  {
    var g := Reference(lines);
    ScanFirstLine(lines);
    assert forall i :: 0 <= i < |lines| - 1 ==> lines[1..][i] == lines[i + 1] && Agrees(lines, i + 1);
    ScanFromSkipsAgreeing(lines[1..], g, 1, |lines| - 1);
  }

  /** When line `k` (counting from zero, `k >= 1`) is the first to differ
      from the first line, the verdict is unsafe, `k + 1` lines are counted,
      the offending one included, and the reference is still the first line's. */
  lemma ScanFirstMismatch(lines: seq<string>, k: nat)
    requires 1 <= k < |lines| && AgreeUpTo(lines, k)
    requires ParseLine(lines[k]).Some? && GeometryOf(ParseLine(lines[k]).value) != Reference(lines)
    ensures var g := Reference(lines);
      Scan(lines) == Finished(false, k + 1, Some(g.width), Some(g.height), Some(g.pixFmt))
  {
    var g := Reference(lines);
    ScanFirstLine(lines);
    SkipAgreeingPrefix(lines, k);
    ScanFromHeldStep(lines[k..], g, k);
    assert lines[k..][0] == lines[k];
  }

  /** When line `k` is the first that does not split into four fields (all
      before it agreeing with the first line), the scan raises with `k + 1`
      lines counted. */
  lemma ScanFirstMalformed(lines: seq<string>, k: nat)
    requires k < |lines| && AgreeUpTo(lines, k)
    requires ParseLine(lines[k]).None?
    ensures Scan(lines) == Malformed(k + 1, |FrameFields(lines[k])|)
  {
    if k > 0 {
      var g := Reference(lines);
      ScanFirstLine(lines);
      SkipAgreeingPrefix(lines, k);
      ScanFromHeldStep(lines[k..], g, k);
      assert lines[k..][0] == lines[k];
    }
  }

  /** After the first line, the agreeing lines `1 .. k - 1` are passed over. */
  lemma SkipAgreeingPrefix(lines: seq<string>, k: nat)
    requires 1 <= k <= |lines| && AgreeUpTo(lines, k)
    ensures var g := Reference(lines);
      ScanFrom(lines[1..], Some(g.width), Some(g.height), Some(g.pixFmt), 1)
        == ScanFrom(lines[k..], Some(g.width), Some(g.height), Some(g.pixFmt), k)
  {
    var g := Reference(lines);
    var rest := lines[1..];
    forall i | 0 <= i < k - 1
      ensures HasGeometry(rest[i], g)
    {
      assert rest[i] == lines[i + 1];
      assert Agrees(lines, i + 1);
    }
    ScanFromSkipsAgreeing(rest, g, 1, k - 1);
    assert lines[1..][k - 1..] == lines[k..];
  }

  /** A safe verdict from a held reference means every remaining line agrees
      with it. */
  lemma {:induction false} ScanFromSafeAgrees(rest: seq<string>, g: Geometry, scanned: nat)
    requires var r := ScanFrom(rest, Some(g.width), Some(g.height), Some(g.pixFmt), scanned); r.Finished? && r.safe
    ensures forall i :: 0 <= i < |rest| ==> HasGeometry(rest[i], g)
    decreases |rest|
  {
    if rest != [] {
      ScanFromSafeAgrees(rest[1..], g, scanned + 1);
      assert forall i :: 1 <= i < |rest| ==> rest[i] == rest[1..][i - 1];
    }
  }

  /** A safe verdict means every line agrees with the first. */
  lemma ScanSafeUniform(lines: seq<string>)
    requires Scan(lines).Finished? && Scan(lines).safe
    ensures Uniform(lines)
  {
    if lines != [] {
      assert ParseLine(lines[0]).Some?;
      var g := Reference(lines);
      ScanFirstLine(lines);
      ScanFromSafeAgrees(lines[1..], g, 1);
      assert forall i :: 1 <= i < |lines| ==> lines[i] == lines[1..][i - 1];
    }
  }

  /** The verdict is safe exactly when every line agrees with the first. */
  lemma ScanSafeIffUniform(lines: seq<string>)
    ensures (Scan(lines).Finished? && Scan(lines).safe) <==> Uniform(lines)
  {
    if Uniform(lines) {
      if lines != [] {
        ScanUniform(lines);
      }
    } else if Scan(lines).Finished? && Scan(lines).safe {
      ScanSafeUniform(lines);
    }
  }

  /** A finished scan reports the reference it took from the held one, or
      from the first line when none was held: it never changes afterwards. */
  lemma {:induction false} ScanFromKeepsReference(rest: seq<string>, g: Geometry, scanned: nat)
    ensures var r := ScanFrom(rest, Some(g.width), Some(g.height), Some(g.pixFmt), scanned);
      r.Finished? ==> (r.width, r.height, r.format) == Held(g)
    decreases |rest|
  {
    if rest != [] {
      ScanFromKeepsReference(rest[1..], g, scanned + 1);
    }
  }

  /** The dimensions and format of any verdict on a non-empty output are the
      first line's, on an unsafe verdict too; on an unsafe verdict at least
      two lines were consumed, since the first line cannot differ from itself. */
  lemma ScanReportsFirstLine(lines: seq<string>)
    requires |lines| > 0 && Scan(lines).Finished?
    ensures ParseLine(lines[0]).Some?
    ensures (Scan(lines).width, Scan(lines).height, Scan(lines).format) == Held(Reference(lines))
    ensures !Scan(lines).safe ==> Scan(lines).scanned >= 2
  {
    var g := Reference(lines);
    ScanFirstLine(lines);
    ScanFromKeepsReference(lines[1..], g, 1);
  }

  /** Once the scan stops early (a mismatch or a malformed line), whatever
      output follows is never looked at. */
  lemma {:induction false} ScanFromIgnoresAfterStop(rest: seq<string>, extra: seq<string>,
      width: Option<string>, height: Option<string>, format: Option<string>, scanned: nat)
    requires var r := ScanFrom(rest, width, height, format, scanned); !(r.Finished? && r.safe)
    ensures ScanFrom(rest + extra, width, height, format, scanned) == ScanFrom(rest, width, height, format, scanned)
    decreases |rest|
  {
    assert rest != [];
    assert (rest + extra)[0] == rest[0];
    assert (rest + extra)[1..] == rest[1..] + extra;
    match ParseLine(rest[0])
    case None =>
    case Some(f) =>
      var w := if width.None? then Some(f.width) else width;
      var h := if height.None? then Some(f.height) else height;
      var fmt := if format.None? then Some(f.pixFmt) else format;
      if w == Some(f.width) && h == Some(f.height) && fmt == Some(f.pixFmt) {
        ScanFromIgnoresAfterStop(rest[1..], extra, w, h, fmt, scanned + 1);
      }
  }

  lemma ScanIgnoresAfterStop(lines: seq<string>, extra: seq<string>)
    requires !(Scan(lines).Finished? && Scan(lines).safe)
    ensures Scan(lines + extra) == Scan(lines)
  {
    ScanFromIgnoresAfterStop(lines, extra, None, None, None, 0);
  }

  /** What the scan sees of a line: its geometry, or how many fields it had. */
  datatype LineShape = WellFormed(geometry: Geometry) | IllFormed(fields: nat)

  function ShapeOf(line: string): LineShape {
    match ParseLine(line)
    case Some(f) => WellFormed(GeometryOf(f))
    case None => IllFormed(|FrameFields(line)|)
  }

  /** Timestamps are ignored and fields are compared as exact strings: two
      outputs whose lines have the same shapes get the same result. */
  lemma {:induction false} ScanFromSameShapes(a: seq<string>, b: seq<string>,
      width: Option<string>, height: Option<string>, format: Option<string>, scanned: nat)
    requires |a| == |b|
    requires forall i :: 0 <= i < |a| ==> ShapeOf(a[i]) == ShapeOf(b[i])
    ensures ScanFrom(a, width, height, format, scanned) == ScanFrom(b, width, height, format, scanned)
    decreases |a|
  {
    if a != [] {
      var a', b' := a[1..], b[1..];
      forall i | 0 <= i < |a'|
        ensures ShapeOf(a'[i]) == ShapeOf(b'[i])
      {
        assert a'[i] == a[i + 1] && b'[i] == b[i + 1];
      }
      assert ShapeOf(a[0]) == ShapeOf(b[0]);
      ScanFromByShape(a, width, height, format, scanned);
      ScanFromByShape(b, width, height, format, scanned);
      match ShapeOf(a[0])
      case IllFormed(_) =>
      case WellFormed(g) =>
        var w := if width.None? then Some(g.width) else width;
        var h := if height.None? then Some(g.height) else height;
        var fmt := if format.None? then Some(g.pixFmt) else format;
        ScanFromSameShapes(a', b', w, h, fmt, scanned + 1);
    }
  }

  /** One step of the scan in terms of what it sees of the line. */
  lemma ScanFromByShape(rest: seq<string>, width: Option<string>, height: Option<string>,
                        format: Option<string>, scanned: nat)
    requires rest != []
    ensures ScanFrom(rest, width, height, format, scanned) ==
      match ShapeOf(rest[0])
      case IllFormed(n) => Malformed(scanned + 1, n)
      case WellFormed(g) =>
        var w := if width.None? then Some(g.width) else width;
        var h := if height.None? then Some(g.height) else height;
        var fmt := if format.None? then Some(g.pixFmt) else format;
        if w != Some(g.width) || h != Some(g.height) || fmt != Some(g.pixFmt)
        then Finished(false, scanned + 1, w, h, fmt)
        else ScanFrom(rest[1..], w, h, fmt, scanned + 1)
  {
  }

  lemma ScanSameShapes(a: seq<string>, b: seq<string>)
    requires |a| == |b|
    requires forall i :: 0 <= i < |a| ==> ShapeOf(a[i]) == ShapeOf(b[i])
    ensures Scan(a) == Scan(b)
  {
    ScanFromSameShapes(a, b, None, None, None, 0);
  }

  /** A line with exactly three commas once stripped always parses, even
      with empty fields. */
  lemma ThreeCommasParse(line: string)
    requires Occurrences(Strip(line), ',') == 3
    ensures ParseLine(line).Some?
  {
    ParseLineFields(line);
  }
}
