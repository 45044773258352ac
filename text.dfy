/**
 The three Python string built-ins the request handler leans on: `str.isspace`
 (through `str.strip`), `str.strip()` with no argument, and `str.split(sep)`
 with a one-character separator. Stripping is stated for any notion of
 whitespace, since `int()` uses a slightly narrower one than `str.strip()`.
 */
module Text {

  /** Python's `str.isspace`: the 29 code points whose bidirectional class is
      WS, B or S, or whose general category is Zs. */
  predicate IsSpace(c: char) {
    || '\t' <= c <= '\r'
    || '\U{1C}' <= c <= ' '
    || c == '\U{85}' || c == '\U{A0}' || c == '\U{1680}'
    || '\U{2000}' <= c <= '\U{200A}'
    || c == '\U{2028}' || c == '\U{2029}' || c == '\U{202F}' || c == '\U{205F}'
    || c == '\U{3000}'
  }

  /** Drops the leading characters that `space` calls whitespace. */
  function TrimLeft(s: string, space: char -> bool): string {
    if s != [] && space(s[0]) then TrimLeft(s[1..], space) else s
  }

  /** Drops the trailing characters that `space` calls whitespace. */
  function TrimRight(s: string, space: char -> bool): string {
    if s != [] && space(s[|s| - 1]) then TrimRight(s[..|s| - 1], space) else s
  }

  /** Drops the whitespace, as `space` defines it, at both ends. */
  function StripWith(s: string, space: char -> bool): string {
    TrimRight(TrimLeft(s, space), space)
  }

  /** `s.strip()`. */
  function Strip(s: string): string {
    StripWith(s, IsSpace)
  }

  /** What `TrimLeft` keeps is a suffix of `s`, what it drops is whitespace,
      and what it keeps does not start with whitespace. */
  lemma {:induction false} TrimLeftSuffix(s: string, space: char -> bool)
    ensures var t := TrimLeft(s, space);
      && |t| <= |s| && t == s[|s| - |t|..]
      && (forall i :: 0 <= i < |s| - |t| ==> space(s[i]))
      && (t != [] ==> !space(t[0]))
    decreases |s|
  {
    if s != [] && space(s[0]) {
      TrimLeftSuffix(s[1..], space);
    }
  }

  /** What `TrimRight` keeps is a prefix of `s`, what it drops is
      whitespace, and what it keeps does not end with whitespace. */
  lemma {:induction false} TrimRightPrefix(s: string, space: char -> bool)
    ensures var t := TrimRight(s, space);
      && |t| <= |s| && t == s[..|t|]
      && (forall i :: |t| <= i < |s| ==> space(s[i]))
      && (t != [] ==> !space(t[|t| - 1]))
    decreases |s|
  {
    if s != [] && space(s[|s| - 1]) {
      TrimRightPrefix(s[..|s| - 1], space);
    }
  }

  /** Stripping leaves the slice of `s` that remains once the whitespace at
      both ends is removed: everything before and after it is whitespace,
      and it starts and ends with a non-space character, or is empty. */
  lemma StripSlice(s: string, space: char -> bool)
    ensures var t, a := StripWith(s, space), |s| - |TrimLeft(s, space)|;
      && 0 <= a && a + |t| <= |s| && t == s[a..a + |t|]
      && (forall i :: 0 <= i < a ==> space(s[i]))
      && (forall i :: a + |t| <= i < |s| ==> space(s[i]))
      && (t != [] ==> !space(t[0]) && !space(t[|t| - 1]))
  {
    TrimLeftSuffix(s, space);
    TrimRightPrefix(TrimLeft(s, space), space);
  }

  /** A string with no whitespace at either end is its own strip. */
  lemma StripUnpadded(s: string, space: char -> bool)
    requires s != [] ==> !space(s[0]) && !space(s[|s| - 1])
    ensures StripWith(s, space) == s
  {
  }

  /** Whitespace in front of `s` makes no difference to what `TrimLeft` keeps. */
  lemma {:induction false} TrimLeftSkips(pre: string, s: string, space: char -> bool)
    requires forall i :: 0 <= i < |pre| ==> space(pre[i])
    ensures TrimLeft(pre + s, space) == TrimLeft(s, space)
    decreases |pre|
  {
    if pre == [] {
      assert pre + s == s;
    } else {
      var rest := pre[1..];
      assert (pre + s)[0] == pre[0];
      assert (pre + s)[1..] == rest + s;
      assert forall i :: 0 <= i < |rest| ==> rest[i] == pre[i + 1];
      TrimLeftSkips(rest, s, space);
    }
  }

  /** Whitespace after `s` makes no difference to what `TrimRight` keeps. */
  lemma {:induction false} TrimRightSkips(s: string, post: string, space: char -> bool)
    requires forall i :: 0 <= i < |post| ==> space(post[i])
    ensures TrimRight(s + post, space) == TrimRight(s, space)
    decreases |post|
  {
    if post == [] {
      assert s + post == s;
    } else {
      var x, rest := s + post, post[..|post| - 1];
      assert x[|x| - 1] == post[|post| - 1];
      assert x[..|x| - 1] == s + rest;
      assert forall i :: 0 <= i < |rest| ==> rest[i] == post[i];
      TrimRightSkips(s, rest, space);
    }
  }

  /** Stripping removes any whitespace put around a string that has none at
      its own ends. */
  lemma StripPadded(pre: string, s: string, post: string, space: char -> bool)
    requires forall i :: 0 <= i < |pre| ==> space(pre[i])
    requires forall i :: 0 <= i < |post| ==> space(post[i])
    requires s != [] && !space(s[0]) && !space(s[|s| - 1])
    ensures StripWith(pre + s + post, space) == s
  {
    assert pre + s + post == pre + (s + post);
    TrimLeftSkips(pre, s + post, space);
    assert (s + post)[0] == s[0];
    TrimRightSkips(s, post, space);
  }

  /** Number of occurrences of `c` in `s`. */
  function Occurrences(s: string, c: char): nat {
    if s == [] then 0 else (if s[0] == c then 1 else 0) + Occurrences(s[1..], c)
  }

  /** `sep.join(parts)`. */
  function Join(parts: seq<string>, sep: char): string
    requires |parts| > 0
    decreases |parts|
  {
    if |parts| == 1 then parts[0] else parts[0] + [sep] + Join(parts[1..], sep)
  }

  /** `s.split(sep)` for a one-character `sep`: the runs between the
      separators, empty runs included. */
  function Split(s: string, sep: char): seq<string> {
    SplitFrom(s, sep, [])
  }

  /** Splitting the rest of a string when the part in progress is `part`. */
  function SplitFrom(s: string, sep: char, part: string): seq<string>
    decreases |s|
  {
    if s == [] then [part]
    else if s[0] == sep then [part] + SplitFrom(s[1..], sep, [])
    else SplitFrom(s[1..], sep, part + [s[0]])
  }

  lemma {:induction false} SplitFromParts(s: string, sep: char, part: string)
    requires sep !in part
    ensures var parts := SplitFrom(s, sep, part);
      && |parts| == Occurrences(s, sep) + 1
      && (forall i :: 0 <= i < |parts| ==> sep !in parts[i])
      && Join(parts, sep) == part + s
    decreases |s|
  {
    if s != [] {
      assert s == [s[0]] + s[1..];
      if s[0] == sep {
        SplitFromParts(s[1..], sep, []);
      } else {
        SplitFromParts(s[1..], sep, part + [s[0]]);
        assert part + [s[0]] + s[1..] == part + s;
      }
    }
  }

  /** There is always at least one part, one more than the separators in
      `s`; no part holds `sep`, and joining the parts with `sep` gives back
      `s`. */
  lemma SplitParts(s: string, sep: char)
    ensures var parts := Split(s, sep);
      && |parts| == Occurrences(s, sep) + 1
      && (forall i :: 0 <= i < |parts| ==> sep !in parts[i])
      && Join(parts, sep) == s
  {
    SplitFromParts(s, sep, []);
  }

  /** Without a separator ahead, the part in progress absorbs the rest. */
  lemma {:induction false} SplitFromWithoutSeparator(x: string, sep: char, part: string)
    requires sep !in x
    ensures SplitFrom(x, sep, part) == [part + x]
    decreases |x|
  {
    if x == [] {
      assert part + x == part;
    } else {
      assert x[0] in x;
      SplitFromWithoutSeparator(x[1..], sep, part + [x[0]]);
      assert part + [x[0]] + x[1..] == part + x;
    }
  }

  /** A separator after a separator-free head closes the part in progress. */
  lemma {:induction false} SplitFromAfterHead(x: string, y: string, sep: char, part: string)
    requires sep !in x
    ensures SplitFrom(x + [sep] + y, sep, part) == [part + x] + Split(y, sep)
    decreases |x|
  {
    var s := x + [sep] + y;
    if x == [] {
      assert s[1..] == y;
      assert part + x == part;
    } else {
      assert x[0] in x;
      assert s[0] == x[0];
      assert s[1..] == x[1..] + [sep] + y;
      SplitFromAfterHead(x[1..], y, sep, part + [x[0]]);
      assert part + [x[0]] + x[1..] == part + x;
    }
  }

  /** `split` undoes `join` when no part holds the separator. */
  lemma {:induction false} SplitJoin(parts: seq<string>, sep: char)
    requires |parts| > 0
    requires forall i :: 0 <= i < |parts| ==> sep !in parts[i]
    ensures Split(Join(parts, sep), sep) == parts
    decreases |parts|
  {
    if |parts| == 1 {
      SplitFromWithoutSeparator(parts[0], sep, []);
      assert [] + parts[0] == parts[0];
    } else {
      SplitJoin(parts[1..], sep);
      SplitFromAfterHead(parts[0], Join(parts[1..], sep), sep, []);
      assert [] + parts[0] == parts[0];
      assert parts == [parts[0]] + parts[1..];
    }
  }
}
