# crashfile-detector: the `/detectfile` handler in Dafny

The service answers whether a remote video would crash a Discord client. Its one handler,
`detect_file`, does two things:

- **Size gate.** It reads the remote `Content-Length` header and answers 400 when the header is
  missing or is not an integer, and 413 when it is over `MAX_LENGTH` (10 MiB). The test is a
  strict `>`, so a negative length gets through.
- **Frame scan.** It then starts ffprobe and reads its CSV output, one
  `pkt_pts_time,width,height,pix_fmt` record per line. Each line is counted, stripped and split
  on `,` into exactly four fields. The first line's width, height and pixel format become the
  reference. At the first line that differs, the verdict becomes unsafe, the process is
  terminated and reading stops. The handler then waits for the process and returns
  `safe`, `scanned_count`, the reference dimensions and `str()` of the reference format.

The model is in five modules:

- `Wrappers` holds `Option`.
- `Text` models Python's `str.isspace`, `str.strip()` and `str.split(sep)`.
- `SizeGate` models the subset of `int()` the gate relies on and the gate itself.
- `FrameScan` is the scan loop as a pure recursive function, `ScanFrom`, with lemmas about it.
- `Detector` holds the imperative model:
  - `Process` is a stub for the ffprobe subprocess. It hands out a fixed output line by line and
    logs `terminate()` and `wait()`, each stamped with how many lines had been read.
  - `ScanOutput` is the `async for` loop as a `while` loop over that stub, with the loop's own
    variables and its `break`.
  - `DetectFile` is the whole handler.

Both methods are proved equal to the specification functions `Scan`, `Detect`,
`DetectEvents` and `LinesRead`. The lemmas then state what the handler promises in terms of
those functions.

Line 96 `await proc.wait()` sits after the loop but outside any `try`. So a line that does not
unpack into four fields raises `ValueError` (the response is a server error). Nothing on that
path terminates or waits for the process. `DetectFirstMalformed` proves that the only call logged
in that case is the spawn.

`int()` and `str.strip()` do not agree on whitespace. `int()` skips the ASCII spaces `\t`, `\n`,
`\v`, `\f`, `\r` and ` `, and the non-ASCII characters `str.isspace` accepts. `str.strip()` also
removes the four information separators U+001C to U+001F. So the model states stripping once, for
any whitespace predicate, and the gate and the scan each use their own predicate.

## Model

| member | source | states |
|---|---|---|
| Text.TrimLeftSuffix | app/main.py:78 | for any whitespace predicate, stripping the front keeps a suffix, drops only whitespace and leaves no leading whitespace |
| Text.TrimRightPrefix | app/main.py:78 | for any whitespace predicate, stripping the end keeps a prefix, drops only whitespace and leaves no trailing whitespace |
| Text.StripSlice | app/main.py:78 | `strip()` is a slice of the line with only whitespace on either side of it, and it neither starts nor ends with whitespace |
| Text.StripUnpadded | app/main.py:78 | a string without whitespace at its ends is its own `strip()` |
| Text.TrimLeftSkips | app/main.py:78 | leading whitespace makes no difference to what stripping the front keeps |
| Text.TrimRightSkips | app/main.py:78 | trailing whitespace makes no difference to what stripping the end keeps |
| Text.StripPadded | app/main.py:78 | whitespace put around a string with none at its ends is exactly what stripping removes |
| Text.SplitFromParts | app/main.py:80 | splitting with a part in progress gives one part more than there are separators, no part holds the separator, and the parts rejoin to the input |
| Text.SplitParts | app/main.py:80 | `split(sep)` gives one part more than there are separators, no part holds `sep`, and `sep.join` of the parts gives the input back |
| Text.SplitFromWithoutSeparator | app/main.py:80 | with no separator ahead, the rest of the string joins the part in progress as the last part |
| Text.SplitFromAfterHead | app/main.py:80 | a separator after a separator-free head closes that part, and the split goes on from scratch |
| Text.SplitJoin | app/main.py:80 | `split` undoes `join` when no part holds the separator |
| SizeGate.Underscoreless | app/main.py:54 | removing the underscores leaves none; a run of digits and underscores becomes plain digits; a string without underscores is unchanged (with `UnderscorelessLength` and `UnderscorelessAppend`, this fixes the result character by character) |
| SizeGate.DecimalValueShowNat | app/main.py:54 | reading the decimal rendering of a natural number gives the number back |
| SizeGate.ParseIntShow | app/main.py:54 | `int(str(n)) == n` for every integer, negative ones included |
| SizeGate.ParseSignedShow | app/main.py:54 | an integer's rendering is read back as that integer once stripped |
| SizeGate.ParseSignedUnsigned | app/main.py:54 | a non-empty string of digits reads as its decimal value |
| SizeGate.ParseSignedNegative | app/main.py:54 | `-` followed by digits reads as minus their decimal value |
| SizeGate.ParseUnsignedDigits | app/main.py:54 | a non-empty string of digits is a well-formed digit run without underscores |
| SizeGate.ShowUnpadded | app/main.py:54 | an integer's rendering has no surrounding whitespace |
| SizeGate.ParseIntPadded | app/main.py:54 | `int()` ignores the whitespace it skips around `str(n)`: the padded header reads as `n` |
| SizeGate.ParseIntRejectsForeign | app/main.py:54-58 | a header holding any character other than `int()`'s whitespace, an ASCII digit, `_`, `+` or `-` is not an integer, so it takes the `ValueError` path |
| SizeGate.ParseIntRejectsSeparators | app/main.py:54-58 | a header holding any of U+001C to U+001F, as padding or anywhere else, is not an integer |
| SizeGate.UnderscorelessLength | app/main.py:54 | exactly the underscores are removed: the length drops by their number |
| SizeGate.UnderscorelessAppend | app/main.py:54 | removing underscores from two pieces one after the other is removing them from the joined string |
| SizeGate.SeparatedDigitRun | app/main.py:54 | two digit strings with one `_` between them form a well-formed digit run |
| SizeGate.SeparatedDigits | app/main.py:54 | removing the `_` between two digit strings leaves exactly the two strings joined, all digits |
| SizeGate.ParseIntSeparated | app/main.py:54 | a single `_` between two digit strings is only a separator: `int("1_000") == 1000` |
| SizeGate.CheckContentLength | app/main.py:52-60 | an accepted length is the header's integer value and is at most `MAX_LENGTH`; every rejection is a 400 or a 413 |
| SizeGate.CheckContentLengthCases | app/main.py:52-60 | exact conditions for each outcome: missing header, 400 `NO_CONTENT_HEADER`; not an integer, 400 `NON_INT_CONTENT_HEADER`; over the ceiling, 413 `CONTENT_TOO_BIG`; otherwise accepted |
| SizeGate.CheckPaddedHeaders | app/main.py:52-60 | `"\x1c5"` is answered 400 `NON_INT_CONTENT_HEADER`, while `"\t5\n"` and `"\xa05"` are accepted with length 5 |
| SizeGate.CheckRenderedLength | app/main.py:59-60 | for the header `str(n)`: 413 exactly when `n > 10*1024*1024`, otherwise accepted with length `n`, so the ceiling itself and every negative length pass |
| FrameScan.ParseLineFields | app/main.py:80 | the four-name unpacking succeeds exactly when the stripped line holds three commas; the fields are comma-free and rejoin to the stripped line |
| FrameScan.ParseRecord | app/main.py:80 | a record written from four comma-free fields, empty ones included, with no whitespace at its ends, is read back as the same frame |
| FrameScan.ThreeCommasParse | app/main.py:80 | a line with exactly three commas once stripped always unpacks, even with empty fields |
| FrameScan.ScanFrom | app/main.py:76-94 | the count never passes the lines available; a safe verdict consumed every line; a stop counts at least the line that caused it; a `ValueError` comes from a line without four fields |
| FrameScan.Scan | app/main.py:72-94 | the same bounds for the whole output, starting with no reference and a count of zero |
| FrameScan.ScanFromHeldStep | app/main.py:80-94 | with a reference held: a malformed line raises, a differing line stops unsafe, an agreeing line is counted and passed over |
| FrameScan.ScanFromSkipsAgreeing | app/main.py:82-94 | a run of lines with the held geometry is consumed without changing the reference, each one counted |
| FrameScan.ScanFromAgreeingStep | app/main.py:91-94 | a line with the held geometry is counted and passed over, the reference unchanged |
| FrameScan.ScanFromSkipsBetween | app/main.py:82-94 | the agreeing lines between two positions are passed over, the count rising by their number |
| FrameScan.ScanFirstLine | app/main.py:82-91 | the first line becomes the reference and never mismatches itself |
| FrameScan.SkipAgreeingPrefix | app/main.py:82-94 | the lines after the first that agree with it are passed over with the count at their number |
| FrameScan.ScanEmpty | app/main.py:72-75 | an empty output is safe, counts nothing and holds no reference |
| FrameScan.ScanUniform | app/main.py:76-94 | when every line agrees with the first, the verdict is safe, every line is counted and the reference is the first line's |
| FrameScan.ScanFirstMismatch | app/main.py:91-94 | when line `k` (from zero, `k >= 1`) is the first to differ, the verdict is unsafe, `k + 1` lines are counted and the reference is still the first line's |
| FrameScan.ScanFirstMalformed | app/main.py:77-80 | when line `k` is the first without four fields, the scan raises with `k + 1` lines counted and that line's number of fields |
| FrameScan.ScanFromSafeAgrees | app/main.py:91-94 | a safe verdict from a held reference means every remaining line has that geometry |
| FrameScan.ScanSafeUniform | app/main.py:76-94 | a safe verdict means every line agrees with the first |
| FrameScan.ScanSafeIffUniform | app/main.py:76-94 | the verdict is safe if and only if every line agrees with the first |
| FrameScan.ScanFromKeepsReference | app/main.py:82-89 | once held, the reference is never replaced |
| FrameScan.ScanReportsFirstLine | app/main.py:82-91 | a finished scan of a non-empty output reports the first line's geometry even when unsafe, and an unsafe one consumed at least two lines |
| FrameScan.ScanFromIgnoresAfterStop | app/main.py:91-94 | after an early stop, lines appended to the output do not change the result |
| FrameScan.ScanIgnoresAfterStop | app/main.py:91-94 | the lines after a mismatch or a malformed line are never looked at |
| FrameScan.ScanFromSameShapes | app/main.py:80-91 | two outputs whose lines have equal geometries, or equal field counts when malformed, scan alike; timestamps are ignored |
| FrameScan.ScanSameShapes | app/main.py:80-91 | the same for whole outputs |
| Detector.Process.constructor | app/main.py:62-70 | a fresh process has read nothing and logged nothing |
| Detector.Process.Spawn | app/main.py:62-70 | logs the start of the process and reads nothing |
| Detector.Process.ReadLine | app/main.py:76 | hands out the next line of output and advances by one, or at the end hands out nothing and logs end of output |
| Detector.Process.Terminate | app/main.py:93 | logs `terminate()` with the lines read so far |
| Detector.Process.Wait | app/main.py:96 | logs `wait()` with the lines read so far |
| Detector.ScanOutput | app/main.py:72-94 | the loop returns `Scan` of the whole output, has read exactly the lines it counted, and logged end of output on a safe run, one `terminate()` on an unsafe one, nothing on a malformed line |
| Detector.DetectFile | app/main.py:50-106 | the handler returns `Detect` of the header and output, has read `LinesRead` lines, and has made exactly the calls `DetectEvents` lists |
| Detector.DetectMissingHeader | app/main.py:53-56 | no header: 400 with `NO_CONTENT_HEADER`, no process started, nothing read |
| Detector.DetectNonIntegerHeader | app/main.py:57-58 | a header `int()` rejects: 400 with `NON_INT_CONTENT_HEADER`, no process started, nothing read |
| Detector.DetectLengthCeiling | app/main.py:59-60 | over the ceiling: 413 with `CONTENT_TOO_BIG` and no process; at or under it, negative lengths included, the process is started and the response does not depend on the length |
| Detector.DetectAnswerCountsReads | app/main.py:96-106 | whenever a record is returned, `scanned_count` is the number of lines read, and the calls end with `wait()` |
| Detector.DetectUniform | app/main.py:76-106 | all lines agree: safe, every line counted, the first line's dimensions and format, output read to its end, waited for and never terminated |
| Detector.DetectFirstMismatch | app/main.py:76-106 | line `k` first differs: unsafe, `k + 1` counted, the first line's dimensions and format, only `k + 1` lines read, one `terminate()` just before `wait()` |
| Detector.DetectIgnoresAfterMismatch | app/main.py:91-96 | whatever follows the first differing line changes neither the response nor the calls on the process |
| Detector.DetectEmptyOutput | app/main.py:72-75 | empty output: safe, zero counted, no dimensions, format `"None"` |
| Detector.DetectFirstMalformed | app/main.py:76-80 | line `k` first without four fields: `ValueError` with `k + 1` counted, neither `terminate()` nor `wait()` called |
| Detector.DetectSafeIff | app/main.py:52-106 | the record says safe if and only if the gate accepts and every line agrees with the first |
| Detector.DetectReportsFirstLine | app/main.py:98-106 | any record about a non-empty output carries the first line's width, height and pixel format, whatever the verdict |

## Left out

- The aiohttp session and its lifecycle (`startup`, `shutdown`), the GET request and `raise_for_status`. These are network I/O. The model takes the `Content-Length` header value, or its absence, as input.
- FastAPI routing, the docs page and `ping`. These are web plumbing.
- The URL validator on the request model. It wraps `urllib.parse.urlparse`, which is not part of this model.
- Pydantic response validation. The declared types demand `int` width and height. The library coerces the strings and rejects `None`, which is what happens on an empty output. The model returns the record the handler builds, before validation.
- Spawning ffprobe and its argument vector. The output lines are an input of the `Process` stub.
- The asynchronous line iteration and `bytes.decode()`. Lines are strings, so a `UnicodeDecodeError` cannot happen in the model.
- What `terminate()` and `wait()` do to the process. The stub only logs the calls and how many lines had been read by then.
- Concurrency between requests. The handler shares no state worth modelling.
- SizeGate.ParseInt: models Python's `int()` only for ASCII decimal digits, because the other Unicode decimal digits it also accepts are not needed for the gate's properties. The optional sign, `_` separators and the skipping of `int()`'s own whitespace are modelled. The default limit of 4300 digits is not. So a header longer than that is accepted here, where Python raises `ValueError`.
- CheckContentLength: inherits the `SizeGate.ParseInt` subset. A header written with non-ASCII decimal digits takes the 400 `NON_INT_CONTENT_HEADER` path here, which Python would accept, and a header of more than 4300 digits is judged by its value.
- CheckContentLengthCases: its "not an integer" case is `SizeGate.ParseInt`'s, with the same subset: ASCII digits only, no 4300-digit limit.
- DetectNonIntegerHeader: covers the headers `SizeGate.ParseInt` rejects, with the same subset: ASCII digits only, no 4300-digit limit.
- Text.IsSpace: covers the 29 code points Python's `str.isspace` accepts. The Unicode database it is taken from is not part of this model.
