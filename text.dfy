/**
 * Character classes and the string operations the scripts rely on:
 * Python's `str.strip()`, `str.startswith` and line iteration over a
 * file opened in text mode.
 */
module Text {

  /** Python's `str.isspace()`, which is also the class `\s` matches in a str pattern. */
  predicate IsSpace(c: char)
  {
    || '\t' <= c <= '\r'              // \t \n \v \f \r
    || '\U{1c}' <= c <= '\U{1f}'      // file, group, record and unit separators
    || c == ' '
    || c == '\U{85}' || c == '\U{a0}' || c == '\U{1680}'
    || '\U{2000}' <= c <= '\U{200a}'
    || c == '\U{2028}' || c == '\U{2029}' || c == '\U{202f}' || c == '\U{205f}' || c == '\U{3000}'
  }

  /** An ASCII decimal digit (what `\d` matches on the inputs modelled here). */
  predicate IsDigit(c: char)
  {
    '0' <= c <= '9'
  }

  predicate AllDigits(s: string)
  {
    forall i :: 0 <= i < |s| ==> IsDigit(s[i])
  }

  predicate AllSpace(s: string)
  {
    forall i :: 0 <= i < |s| ==> IsSpace(s[i])
  }

  /** Python's `str.lstrip()`: the suffix left after dropping leading whitespace. */
  function LStrip(s: string): string
  {
    if s != [] && IsSpace(s[0]) then LStrip(s[1..]) else s
  }

  /** Python's `str.rstrip()`: the prefix left after dropping trailing whitespace. */
  function RStrip(s: string): string
  {
    if s != [] && IsSpace(s[|s| - 1]) then RStrip(s[..|s| - 1]) else s
  }

  /** `lstrip` keeps a suffix, drops only whitespace, and stops at a non-space. */
  lemma {:induction false} LStripSpec(s: string)
    ensures var r := LStrip(s);
            |r| <= |s| && r == s[|s| - |r|..] && AllSpace(s[..|s| - |r|]) && (r == [] || !IsSpace(r[0]))
  {
    if s != [] && IsSpace(s[0]) {
      LStripSpec(s[1..]);
      var r := LStrip(s);
      assert s[..|s| - |r|] == [s[0]] + s[1..][..|s| - 1 - |r|];
    }
  }

  /** `rstrip` keeps a prefix, drops only whitespace, and stops at a non-space. */
  lemma {:induction false} RStripSpec(s: string)
    ensures var r := RStrip(s);
            |r| <= |s| && r == s[..|r|] && AllSpace(s[|r|..]) && (r == [] || !IsSpace(r[|r| - 1]))
  {
    if s != [] && IsSpace(s[|s| - 1]) {
      RStripSpec(s[..|s| - 1]);
      var r := RStrip(s);
      assert s[|r|..] == s[..|s| - 1][|r|..] + [s[|s| - 1]];
    }
  }

  /** Python's `str.strip()`. */
  function Strip(s: string): string
  {
    RStrip(LStrip(s))
  }

  /** `strip` keeps one contiguous piece of the string, drops only whitespace on
      either side of it, and the piece neither starts nor ends with whitespace. */
  lemma StripSpec(s: string)
    ensures |Strip(s)| <= |s|
    ensures exists i :: 0 <= i <= |s| - |Strip(s)| && Strip(s) == s[i..i + |Strip(s)|]
              && AllSpace(s[..i]) && AllSpace(s[i + |Strip(s)|..])
    ensures Strip(s) == [] || (!IsSpace(Strip(s)[0]) && !IsSpace(Strip(s)[|Strip(s)| - 1]))
  {
    var l := LStrip(s);
    LStripSpec(s);
    RStripSpec(l);
    var r := Strip(s);
    var i := |s| - |l|;
    assert r == s[i..i + |r|];
    assert s[i + |r|..] == l[|r|..];
    if r != [] {
      assert r[0] == l[0];
    }
  }

  /** A string whose two ends are not whitespace is its own strip. */
  lemma StripNoop(s: string)
    requires s != [] && !IsSpace(s[0]) && !IsSpace(s[|s| - 1])
    ensures Strip(s) == s
  {
  }

  /** A string that starts with non-space text `p` whose last character is not
      whitespace still starts with `p` once stripped. */
  lemma StripKeepsPrefix(s: string, p: string)
    requires p <= s && p != [] && !IsSpace(p[0]) && !IsSpace(p[|p| - 1])
    ensures p <= Strip(s)
  {
    assert LStrip(s) == s;
    RStripSpec(s);
    assert !IsSpace(s[|p| - 1]);
  }

  /** Stripping a string that starts with a non-space character and ends with
      whitespace `w` after a non-space character drops exactly `w`. */
  lemma StripDropsTrailing(body: string, w: string)
    requires body != [] && !IsSpace(body[0]) && !IsSpace(body[|body| - 1])
    requires AllSpace(w)
    ensures Strip(body + w) == body
  {
    var s := body + w;
    assert LStrip(s) == s;
    RStripSpec(s);
    assert !IsSpace(s[|body| - 1]);
    assert forall i :: |body| <= i < |s| ==> IsSpace(s[i]) by {
      forall i | |body| <= i < |s| ensures IsSpace(s[i]) {
        assert s[i] == w[i - |body|];
      }
    }
  }

  /** A string of whitespace only strips to nothing. */
  lemma StripAllSpace(s: string)
    requires AllSpace(s)
    ensures Strip(s) == []
  {
    LStripSpec(s);
  }

  /** A string that begins with a non-space character strips to something non-empty. */
  lemma StripNonBlank(s: string)
    requires s != [] && !IsSpace(s[0])
    ensures Strip(s) != [] && Strip(s)[0] == s[0]
  {
    assert LStrip(s) == s;
    RStripSpec(s);
    assert !IsSpace(s[0]);
  }

  /** A line break as seen by a file opened in text mode (universal newlines:
      `\n`, `\r` and `\r\n` all end a line). */
  predicate IsBreak(c: char)
  {
    c == '\n' || c == '\r'
  }

  predicate NoBreaks(s: string)
  {
    forall i :: 0 <= i < |s| ==> !IsBreak(s[i])
  }

  /** Index of the first line break in `s`, or `|s|` when there is none. */
  function LineEnd(s: string): (k: nat)
    ensures k <= |s| && NoBreaks(s[..k])
    ensures k < |s| ==> IsBreak(s[k])
  {
    if s == [] then 0
    else if IsBreak(s[0]) then 0
    else 1 + LineEnd(s[1..])
  }

  /** The lines produced by iterating over a file with content `s`, each without
      its terminator. A `\r\n` pair yields an extra empty line, which is blank and
      so makes no difference to anything that skips blank lines. */
  function Lines(s: string): seq<string>
    decreases |s|
  {
    var k := LineEnd(s);
    if k == |s| then (if s == [] then [] else [s])
    else [s[..k]] + Lines(s[k + 1..])
  }

  /** Iteration yields no line for empty text and at least one otherwise, and no
      line it yields holds a line break. */
  lemma {:induction false} LinesSpec(s: string)
    ensures Lines(s) == [] <==> s == []
    ensures forall i :: 0 <= i < |Lines(s)| ==> NoBreaks(Lines(s)[i])
    decreases |s|
  {
    var k := LineEnd(s);
    if k < |s| {
      LinesSpec(s[k + 1..]);
      assert Lines(s) == [s[..k]] + Lines(s[k + 1..]);
    }
  }

  /** A line without breaks, followed by a newline, is the first line. */
  lemma LinesOfConcat(first: string, rest: string)
    requires NoBreaks(first)
    ensures Lines(first + "\n" + rest) == [first] + Lines(rest)
  {
    var s := first + "\n" + rest;
    assert s == first + ("\n" + rest);
    LineEndOf(first, "\n" + rest);
    assert s[..|first|] == first;
    assert s[|first| + 1..] == rest;
  }

  lemma {:induction false} LineEndOf(first: string, rest: string)
    requires NoBreaks(first) && rest != [] && IsBreak(rest[0])
    ensures LineEnd(first + rest) == |first|
  {
    if first != [] {
      assert (first + rest)[1..] == first[1..] + rest;
      LineEndOf(first[1..], rest);
    }
  }
}
