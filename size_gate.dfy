/**
 The size gate of the `/detectfile` handler: the remote `Content-Length`
 header, read from the response metadata only, turned into an accepted
 declared length or an HTTP error carrying one of the service's error
 messages.
 */
module SizeGate {
  import opened Wrappers
  import opened Text

  /** The ceiling on the declared length: 10 MiB. */
  const MAX_LENGTH: int := 10 * 1024 * 1024

  const NO_CONTENT_HEADER: string := "Remote server didn't return a Content-Length header."
  const NON_INT_CONTENT_HEADER: string := "Remote server returned a non-integer Content-Length header."
  const CONTENT_TOO_BIG: string := "The remote file was too big to download."

  predicate IsDigit(c: char) {
    '0' <= c <= '9'
  }

  function DigitValue(c: char): (d: nat)
    requires IsDigit(c)
    ensures d < 10
  {
    (c as int) - ('0' as int)
  }

  predicate AllDigits(s: string) {
    forall i :: 0 <= i < |s| ==> IsDigit(s[i])
  }

  /** The digit part of a base-10 literal as Python's `int` reads it: one or
      more ASCII digits, with a single underscore allowed between two digits. */
  predicate IsDigitRun(s: string) {
    && |s| > 0
    && IsDigit(s[0])
    && IsDigit(s[|s| - 1])
    && (forall i :: 0 <= i < |s| ==> IsDigit(s[i]) || s[i] == '_')
    && (forall i :: 0 <= i < |s| - 1 && s[i] == '_' ==> IsDigit(s[i + 1]))
  }

  /** `s` with its underscores removed. */
  function Underscoreless(s: string): (d: string)
    ensures forall i :: 0 <= i < |d| ==> d[i] != '_'
    ensures (forall i :: 0 <= i < |s| ==> IsDigit(s[i]) || s[i] == '_') ==> AllDigits(d)
    ensures (forall i :: 0 <= i < |s| ==> s[i] != '_') ==> d == s
  {
    if s == [] then []
    else if s[0] == '_' then Underscoreless(s[1..])
    else [s[0]] + Underscoreless(s[1..])
  }

  /** The value of a string of decimal digits, most significant first. */
  function DecimalValue(ds: string): nat
    requires AllDigits(ds)
  {
    if ds == [] then 0 else 10 * DecimalValue(ds[..|ds| - 1]) + DigitValue(ds[|ds| - 1])
  }

  /** A stripped literal: an optional `+` or `-`, then a digit run. */
  function ParseSigned(t: string): Option<int> {
    var negative := |t| > 0 && t[0] == '-';
    var body := if |t| > 0 && (t[0] == '+' || t[0] == '-') then t[1..] else t;
    if IsDigitRun(body) then
      var magnitude: int := DecimalValue(Underscoreless(body));
      var value: int := if negative then -magnitude else magnitude;
      Some(value)
    else
      None
  }

  /** The whitespace `int()` skips around a literal: `str.isspace` less the
      four ASCII information separators U+001C to U+001F. Characters below
      U+007F count as whitespace for it only when they are C's ASCII spaces,
      and other characters when `str.isspace` holds of them. */
  predicate IsIntSpace(c: char) {
    IsSpace(c) && !('\U{1C}' <= c <= '\U{1F}')
  }

  /** Python's `int(text)` on a `str`, restricted to ASCII digits: surrounding
      whitespace is ignored, then an optional `+` or `-`, then a digit run.
      `None` is the `ValueError` case. */
  function ParseInt(text: string): Option<int> {
    ParseSigned(StripWith(text, IsIntSpace))
  }

  /** The shortest decimal rendering of `n`, as Python's `str(n)` gives it. */
  function ShowNat(n: nat): (s: string)
    ensures |s| > 0 && AllDigits(s)
  {
    if n < 10 then ['0' + n as char] else ShowNat(n / 10) + ['0' + (n % 10) as char]
  }

  function Show(n: int): string {
    if n < 0 then "-" + ShowNat(-n) else ShowNat(n)
  }

  lemma {:induction false} DecimalValueShowNat(n: nat)
    ensures DecimalValue(ShowNat(n)) == n
  {
    if n >= 10 {
      DecimalValueShowNat(n / 10);
      var s := ShowNat(n);
      assert s[..|s| - 1] == ShowNat(n / 10);
    }
  }

  /** `int(str(n)) == n`: every integer's rendering is accepted and read
      back as that integer. */
  lemma ParseIntShow(n: int)
    ensures ParseInt(Show(n)) == Some(n)
  {
    DecimalValueShowNat(if n < 0 then -n else n);
    ShowUnpadded(n);
    ParseSignedShow(n);
  }

  lemma ParseSignedShow(n: int)
    ensures ParseSigned(Show(n)) == Some(n)
  {
    var m: nat := if n < 0 then -n else n;
    var digits := ShowNat(m);
    DecimalValueShowNat(m);
    if n < 0 {
      ParseSignedNegative(digits);
      assert Show(n) == "-" + digits;
    } else {
      ParseSignedUnsigned(digits);
      assert Show(n) == digits;
    }
  }

  lemma ParseSignedUnsigned(d: string)
    requires |d| > 0 && AllDigits(d)
    ensures ParseSigned(d) == Some(DecimalValue(d) as int)
  {
    ParseUnsignedDigits(d);
    assert IsDigit(d[0]);
  }

  lemma ParseSignedNegative(d: string)
    requires |d| > 0 && AllDigits(d)
    ensures ParseSigned("-" + d) == Some(-(DecimalValue(d) as int))
  {
    ParseUnsignedDigits(d);
    var t := "-" + d;
    assert t[0] == '-' && t[1..] == d;
  }

  /** A non-empty string of plain digits is a digit run worth its decimal value. */
  lemma ParseUnsignedDigits(d: string)
    requires |d| > 0 && AllDigits(d)
    ensures IsDigitRun(d) && Underscoreless(d) == d
  {
  }

  /** `str(n)` neither starts nor ends with whitespace. */
  lemma ShowUnpadded(n: int)
    ensures var s := Show(n); s != [] && !IsIntSpace(s[0]) && !IsIntSpace(s[|s| - 1])
    ensures StripWith(Show(n), IsIntSpace) == Show(n)
  {
    StripUnpadded(Show(n), IsIntSpace);
  }

  /** `int()` ignores whitespace around a literal: a rendering padded on
      either side with any of the characters it skips reads as the same
      integer. */
  lemma ParseIntPadded(pre: string, n: int, post: string)
    requires forall i :: 0 <= i < |pre| ==> IsIntSpace(pre[i])
    requires forall i :: 0 <= i < |post| ==> IsIntSpace(post[i])
    ensures ParseInt(pre + Show(n) + post) == Some(n)
  {
    ShowUnpadded(n);
    StripPadded(pre, Show(n), post, IsIntSpace);
    ParseSignedShow(n);
  }

  /** A header holding anything but whitespace as `int()` knows it, signs,
      ASCII digits and underscores is never an integer. */
  lemma ParseIntRejectsForeign(text: string, i: nat)
    requires i < |text|
    requires !IsIntSpace(text[i]) && !IsDigit(text[i]) && text[i] !in "_+-"
    ensures ParseInt(text) == None
  {
    StripSlice(text, IsIntSpace);
    var t := StripWith(text, IsIntSpace);
    var a := |text| - |TrimLeft(text, IsIntSpace)|;
    assert a <= i < a + |t|;
    assert t[i - a] == text[i];
    var body := if |t| > 0 && (t[0] == '+' || t[0] == '-') then t[1..] else t;
    var j := if body == t then i - a else i - a - 1;
    assert 0 <= j < |body| && body[j] == text[i];
  }

  /** The information separators U+001C to U+001F are whitespace to
      `str.strip()` but not to `int()`: anywhere in a header they make it a
      non-integer, padding included. */
  lemma ParseIntRejectsSeparators(text: string, i: nat)
    requires i < |text| && '\U{1C}' <= text[i] <= '\U{1F}'
    ensures ParseInt(text) == None
  {
    ParseIntRejectsForeign(text, i);
  }

  /** Exactly the underscores are removed: the length drops by their number. */
  lemma {:induction false} UnderscorelessLength(s: string)
    ensures |Underscoreless(s)| == |s| - Occurrences(s, '_')
    decreases |s|
  {
    if s != [] {
      UnderscorelessLength(s[1..]);
    }
  }

  /** Removing underscores works piece by piece. */
  lemma {:induction false} UnderscorelessAppend(a: string, b: string)
    ensures Underscoreless(a + b) == Underscoreless(a) + Underscoreless(b)
    decreases |a|
  {
    if a == [] {
      assert a + b == b;
    } else {
      assert (a + b)[0] == a[0];
      assert (a + b)[1..] == a[1..] + b;
      UnderscorelessAppend(a[1..], b);
    }
  }

  /** A `_` between two digit strings is a separator only: `int("1_000")`
      is `1000`. */
  lemma ParseIntSeparated(x: string, y: string)
    requires |x| > 0 && AllDigits(x) && |y| > 0 && AllDigits(y)
    ensures ParseInt(x + "_" + y) == Some(DecimalValue(x + y) as int)
  {
    var t := x + "_" + y;
    assert t[0] == x[0] && t[|t| - 1] == y[|y| - 1];
    StripUnpadded(t, IsIntSpace);
    SeparatedDigitRun(x, y);
    SeparatedDigits(x, y);
  }

  lemma SeparatedDigitRun(x: string, y: string)
    requires |x| > 0 && AllDigits(x) && |y| > 0 && AllDigits(y)
    ensures IsDigitRun(x + "_" + y)
  {
  }

  lemma SeparatedDigits(x: string, y: string)
    requires AllDigits(x) && AllDigits(y)
    ensures Underscoreless(x + "_" + y) == x + y && AllDigits(x + y)
  {
    assert forall i :: 0 <= i < |x| ==> x[i] != '_';
    assert forall i :: 0 <= i < |y| ==> y[i] != '_';
    assert Underscoreless(x) == x && Underscoreless(y) == y;
    assert Underscoreless("_") == [];
    UnderscorelessAppend(x, "_");
    assert Underscoreless(x + "_") == x;
    UnderscorelessAppend(x + "_", y);
    forall i | 0 <= i < |x + y|
      ensures IsDigit((x + y)[i])
    {
      if i < |x| { assert (x + y)[i] == x[i]; } else { assert (x + y)[i] == y[i - |x|]; }
    }
  }

  /** The outcome of the size gate. */
  datatype Gate = Accepted(length: int) | Rejected(status: nat, detail: string)

  /** Reads the `Content-Length` header (`None` when the response has none)
      and applies the ceiling with a strict `>`. */
  function CheckContentLength(header: Option<string>): (g: Gate)
    ensures g.Accepted? ==> header.Some? && ParseInt(header.value) == Some(g.length) && g.length <= MAX_LENGTH
    ensures g.Rejected? ==> g.status in {400, 413}
  {
    match header
    case None => Rejected(400, NO_CONTENT_HEADER)
    case Some(text) =>
      match ParseInt(text)
      case None => Rejected(400, NON_INT_CONTENT_HEADER)
      case Some(length) =>
        if length > MAX_LENGTH then Rejected(413, CONTENT_TOO_BIG) else Accepted(length)
  }

  /** The gate's four outcomes, each with its status and message. */
  lemma CheckContentLengthCases(header: Option<string>)
    ensures header.None? <==> CheckContentLength(header) == Rejected(400, NO_CONTENT_HEADER)
    ensures header.Some? && ParseInt(header.value).None?
        <==> CheckContentLength(header) == Rejected(400, NON_INT_CONTENT_HEADER)
    ensures header.Some? && ParseInt(header.value).Some? && ParseInt(header.value).value > MAX_LENGTH
        <==> CheckContentLength(header) == Rejected(413, CONTENT_TOO_BIG)
    ensures header.Some? && ParseInt(header.value).Some? && ParseInt(header.value).value <= MAX_LENGTH
        <==> CheckContentLength(header).Accepted?
  {
  }

  /** For a header holding the rendering of `n`, the gate accepts exactly the
      lengths up to the ceiling, the ceiling itself and every negative value
      included, and answers 413 above it. */
  lemma CheckRenderedLength(n: int)
    ensures CheckContentLength(Some(Show(n))) ==
      if n > MAX_LENGTH then Rejected(413, CONTENT_TOO_BIG) else Accepted(n)
  {
    ParseIntShow(n);
  }

  /** Which padding the gate tolerates: ASCII and Unicode spaces around the
      number are skipped, an information separator makes the header a
      non-integer. */
  lemma CheckPaddedHeaders()
    ensures CheckContentLength(Some("\U{1C}5")) == Rejected(400, NON_INT_CONTENT_HEADER)
    ensures CheckContentLength(Some("\t5\n")) == Accepted(5)
    ensures CheckContentLength(Some("\U{A0}5")) == Accepted(5)
  {
    ParseIntRejectsSeparators("\U{1C}5", 0);
    assert Show(5) == "5";
    ParseIntPadded("\t", 5, "\n");
    assert "\t" + "5" + "\n" == "\t5\n";
    ParseIntPadded("\U{A0}", 5, "");
    assert "\U{A0}" + "5" + "" == "\U{A0}5";
  }
}
