/**
 * The documentation validator: a document is valid when its first non-blank
 * line, stripped, is a version header of the shape
 * "## Version:" whitespace digits "." digits, optionally followed by
 * " (YYYY-MM-DD)". The pattern is matched by hand here and proved equal to the
 * grammar it describes.
 */
module ValidateDocs {
  import opened Wrappers
  import opened Text
  import opened Paths

  const VersionPrefix := "## Version:"

  datatype IsoDate = IsoDate(year: string, month: string, day: string)

  /** The version after the whitespace: two numbers and the optional date. */
  datatype Version = Version(major: string, minor: string, date: Option<IsoDate>)

  /** The pieces of a header line: the whitespace after the colon and the version. */
  datatype HeaderParts = HeaderParts(gap: string, version: Version)

  predicate WellFormedDate(d: IsoDate)
  {
    |d.year| == 4 && AllDigits(d.year) && |d.month| == 2 && AllDigits(d.month) && |d.day| == 2 && AllDigits(d.day)
  }

  predicate WellFormedVersion(v: Version)
  {
    && v.major != [] && AllDigits(v.major)
    && v.minor != [] && AllDigits(v.minor)
    && (v.date.Some? ==> WellFormedDate(v.date.value))
  }

  /** The grammar: one or more whitespace characters, one or more digits on either
      side of the dot, a date of 4, 2 and 2 digits. */
  predicate WellFormed(p: HeaderParts)
  {
    p.gap != [] && AllSpace(p.gap) && WellFormedVersion(p.version)
  }

  function DateText(d: IsoDate): string
  {
    " (" + d.year + "-" + d.month + "-" + d.day + ")"
  }

  function TailText(date: Option<IsoDate>): string
  {
    if date.Some? then DateText(date.value) else ""
  }

  function VersionText(v: Version): string
  {
    v.major + "." + v.minor + TailText(v.date)
  }

  /** The line the pieces spell. */
  function Render(p: HeaderParts): string
  {
    VersionPrefix + p.gap + VersionText(p.version)
  }

  /** Length of the longest run of digits at the start of `s`. */
  function SpanDigits(s: string): (k: nat)
    ensures k <= |s| && AllDigits(s[..k])
    ensures k < |s| ==> !IsDigit(s[k])
  {
    if s != [] && IsDigit(s[0]) then
      var k := 1 + SpanDigits(s[1..]);
      assert s[..k] == [s[0]] + s[1..][..k - 1];
      k
    else 0
  }

  /** Length of the longest run of whitespace at the start of `s`. */
  function SpanSpace(s: string): (k: nat)
    ensures k <= |s| && AllSpace(s[..k])
    ensures k < |s| ==> !IsSpace(s[k])
  {
    if s != [] && IsSpace(s[0]) then
      var k := 1 + SpanSpace(s[1..]);
      assert s[..k] == [s[0]] + s[1..][..k - 1];
      k
    else 0
  }

  lemma {:induction false} SpanDigitsOfConcat(a: string, b: string)
    requires AllDigits(a) && (b == [] || !IsDigit(b[0]))
    ensures SpanDigits(a + b) == |a|
  {
    if a != [] {
      assert (a + b)[1..] == a[1..] + b;
      SpanDigitsOfConcat(a[1..], b);
    }
  }

  lemma {:induction false} SpanSpaceOfConcat(a: string, b: string)
    requires AllSpace(a) && (b == [] || !IsSpace(b[0]))
    ensures SpanSpace(a + b) == |a|
  {
    if a != [] {
      assert (a + b)[1..] == a[1..] + b;
      SpanSpaceOfConcat(a[1..], b);
    }
  }

  /** The optional group ` \(\d{4}-\d{2}-\d{2}\)` followed by the end of the line:
      `Some(None)` for an empty rest, `Some(Some(date))` for a date, `None` otherwise. */
  function ParseTail(t: string): (r: Option<Option<IsoDate>>)
    ensures r.Some? ==> TailText(r.value) == t
    ensures r.Some? && r.value.Some? ==> WellFormedDate(r.value.value)
  {
    if t == [] then Some(None)
    else if |t| == 13 && t[..2] == " (" && t[6] == '-' && t[9] == '-' && t[12] == ')'
       && AllDigits(t[2..6]) && AllDigits(t[7..9]) && AllDigits(t[10..12])
    then
      var d := IsoDate(t[2..6], t[7..9], t[10..12]);
      assert t == t[..2] + t[2..6] + [t[6]] + t[7..9] + [t[9]] + t[10..12] + [t[12]];
      Some(Some(d))
    else None
  }

  /** Cutting `s` around the dot at `a` and again `b` characters later, and
      putting the pieces back together, gives `s`. */
  lemma DotJoin(s: string, a: nat, b: nat)
    requires a < |s| && s[a] == '.' && b <= |s| - a - 1
    ensures s[..a] + "." + s[a + 1..][..b] + s[a + 1..][b..] == s
  {
    var rest := s[a + 1..];
    assert rest[..b] + rest[b..] == rest;
    assert s == s[..a] + "." + rest;
  }

  /** Cutting what follows `pre` at `w` and putting the pieces back gives `line`. */
  lemma PrefixJoin(line: string, pre: string, w: nat)
    requires pre <= line && w <= |line| - |pre|
    ensures pre + line[|pre|..][..w] + line[|pre|..][w..] == line
  {
    var rest := line[|pre|..];
    assert rest[..w] + rest[w..] == rest;
    assert line == pre + rest;
  }

  /** The pieces of `x + [c] + y + z`, read back by position. */
  lemma Pieces(x: string, c: char, y: string, z: string)
    ensures var s := x + [c] + y + z;
            && s == x + ([c] + (y + z)) && s[|x|] == c
            && s[..|x|] == x && s[|x| + 1..] == y + z
            && (y + z)[..|y|] == y && (y + z)[|y|..] == z
  {
  }

  /** A tail is empty or starts with a space. */
  lemma TailStart(date: Option<IsoDate>)
    ensures TailText(date) == [] || TailText(date)[0] == ' '
  {
  }

  /** `\d+\.\d+` and the optional date, up to the end of the line. */
  function ParseVersion(s: string): (r: Option<Version>)
    ensures r.Some? ==> WellFormedVersion(r.value) && VersionText(r.value) == s
  {
    var a := SpanDigits(s);
    if a == 0 || a == |s| || s[a] != '.' then None
    else
      var rest := s[a + 1..];
      var b := SpanDigits(rest);
      var tail := ParseTail(rest[b..]);
      if b == 0 || tail.None? then None
      else
        var v := Version(s[..a], rest[..b], tail.value);
        DotJoin(s, a, b);
        Some(v)
  }

  /** The version-header pattern, matched from the start of the line to its end. */
  function ParseHeader(line: string): (r: Option<HeaderParts>)
    ensures r.Some? ==> WellFormed(r.value) && Render(r.value) == line
  {
    if !(VersionPrefix <= line) then None
    else
      var rest := line[|VersionPrefix|..];
      var w := SpanSpace(rest);
      var version := ParseVersion(rest[w..]);
      if w == 0 || version.None? then None
      else
        var p := HeaderParts(rest[..w], version.value);
        PrefixJoin(line, VersionPrefix, w);
        Some(p)
  }

  predicate IsHeaderLine(line: string)
  {
    ParseHeader(line).Some?
  }

  lemma ParseTailText(date: Option<IsoDate>)
    requires date.Some? ==> WellFormedDate(date.value)
    ensures ParseTail(TailText(date)) == Some(date)
  {
    if date.Some? {
      var d := date.value;
      var t := TailText(date);
      assert t[..2] == " (" && t[2..6] == d.year && t[7..9] == d.month && t[10..12] == d.day;
    }
  }

  lemma ParseVersionText(v: Version)
    requires WellFormedVersion(v)
    ensures ParseVersion(VersionText(v)) == Some(v)
  {
    var tail := TailText(v.date);
    Pieces(v.major, '.', v.minor, tail);
    SpanDigitsOfConcat(v.major, "." + (v.minor + tail));
    TailStart(v.date);
    SpanDigitsOfConcat(v.minor, tail);
    ParseTailText(v.date);
  }

  /** Every well-formed header is recognised, and parsing gives its pieces back. */
  lemma ParseRender(p: HeaderParts)
    requires WellFormed(p)
    ensures ParseHeader(Render(p)) == Some(p)
  {
    var rest := p.gap + VersionText(p.version);
    var line := Render(p);
    assert line == VersionPrefix + rest;
    assert line[|VersionPrefix|..] == rest;
    assert IsDigit(VersionText(p.version)[0]);
    SpanSpaceOfConcat(p.gap, VersionText(p.version));
    assert rest[|p.gap|..] == VersionText(p.version);
    ParseVersionText(p.version);
  }

  /** The matcher accepts exactly the lines the grammar describes. */
  lemma HeaderLineIff(line: string)
    ensures IsHeaderLine(line) <==> exists p :: WellFormed(p) && Render(p) == line
  {
    if exists p :: WellFormed(p) && Render(p) == line {
      var p :| WellFormed(p) && Render(p) == line;
      ParseRender(p);
    }
  }

  /** The sample header "## Version: 1.0 (2025-05-24)" is accepted. */
  lemma SampleHeaderAccepted()
    ensures IsHeaderLine("## Version: 1.0 (2025-05-24)")
  {
    var p := SampleParts();
    ParseRender(p);
  }

  /** The pieces of the sample header. */
  lemma SampleParts() returns (p: HeaderParts)
    ensures WellFormed(p) && Render(p) == "## Version: 1.0 (2025-05-24)"
  {
    var v := SampleVersion();
    p := HeaderParts(" ", v);
    assert AllSpace(" ");
  }

  lemma SampleVersion() returns (v: Version)
    ensures WellFormedVersion(v) && VersionText(v) == "1.0 (2025-05-24)"
  {
    var d := SampleDate();
    v := Version("1", "0", Some(d));
  }

  lemma SampleDate() returns (d: IsoDate)
    ensures WellFormedDate(d) && DateText(d) == " (2025-05-24)"
  {
    d := IsoDate("2025", "05", "24");
    assert AllDigits("2025") && AllDigits("05") && AllDigits("24");
  }

  /** The sample line "# Missing version" is rejected. */
  lemma SampleHeaderRejected()
    ensures !IsHeaderLine("# Missing version")
  {
    assert "# Missing version"[1] != VersionPrefix[1];
  }

  /** The first line that is not blank, stripped. */
  function FirstNonBlank(lines: seq<string>): (r: Option<string>)
    ensures r.None? <==> forall i :: 0 <= i < |lines| ==> Strip(lines[i]) == []
    ensures r.Some? ==> r.value != [] && exists i :: 0 <= i < |lines| && Strip(lines[i]) == r.value && forall j :: 0 <= j < i ==> Strip(lines[j]) == []
  {
    if lines == [] then None
    else if Strip(lines[0]) != [] then Some(Strip(lines[0]))
    else
      var r := FirstNonBlank(lines[1..]);
      assert r.Some? ==> exists i :: 1 <= i < |lines| && Strip(lines[i]) == r.value && forall j :: 0 <= j < i ==> Strip(lines[j]) == [] by {
        if r.Some? {
          var i :| 0 <= i < |lines[1..]| && Strip(lines[1..][i]) == r.value && forall j :: 0 <= j < i ==> Strip(lines[1..][j]) == [];
          assert forall j :: 0 <= j < i + 1 ==> Strip(lines[j]) == [] by {
            forall j | 0 <= j < i + 1 ensures Strip(lines[j]) == [] {
              if j > 0 { assert lines[j] == lines[1..][j - 1]; }
            }
          }
        }
      }
      r
  }

  /** Some line is non-blank, every line before it is blank, and it matches the
      header pattern once stripped. */
  predicate OpensWithHeader(lines: seq<string>)
  {
    exists i :: 0 <= i < |lines| && Strip(lines[i]) != [] && IsHeaderLine(Strip(lines[i]))
      && forall j :: 0 <= j < i ==> Strip(lines[j]) == []
  }

  /** A non-blank line preceded only by blank lines is the first non-blank one. */
  lemma {:induction false} FirstNonBlankAt(lines: seq<string>, i: nat)
    requires i < |lines| && Strip(lines[i]) != []
    requires forall j :: 0 <= j < i ==> Strip(lines[j]) == []
    ensures FirstNonBlank(lines) == Some(Strip(lines[i]))
  {
    if i > 0 {
      assert Strip(lines[0]) == [];
      assert forall j :: 0 <= j < i - 1 ==> Strip(lines[1..][j]) == [] by {
        forall j | 0 <= j < i - 1 ensures Strip(lines[1..][j]) == [] {
          assert lines[1..][j] == lines[j + 1];
        }
      }
      FirstNonBlankAt(lines[1..], i - 1);
    }
  }

  /** The verdict on a file's lines: their first non-blank line matches. */
  lemma OpensWithHeaderIff(lines: seq<string>)
    ensures OpensWithHeader(lines) <==> FirstNonBlank(lines).Some? && IsHeaderLine(FirstNonBlank(lines).value)
  {
    if OpensWithHeader(lines) {
      var i :| 0 <= i < |lines| && Strip(lines[i]) != [] && IsHeaderLine(Strip(lines[i]))
        && forall j :: 0 <= j < i ==> Strip(lines[j]) == [];
      FirstNonBlankAt(lines, i);
    }
    var r := FirstNonBlank(lines);
    if r.Some? && IsHeaderLine(r.value) {
      var i :| 0 <= i < |lines| && Strip(lines[i]) == r.value && forall j :: 0 <= j < i ==> Strip(lines[j]) == [];
      assert Strip(lines[i]) != [] && IsHeaderLine(Strip(lines[i]));
    }
  }

  /** `validate_version_header`: a missing file or a file with no non-blank line
      is invalid; otherwise the first non-blank line, stripped, must match. */
  function ValidateVersionHeader(file: Option<string>): (ok: bool)
    ensures ok <==> file.Some? && OpensWithHeader(Lines(file.value))
  {
    match file
    case None => false
    case Some(text) =>
      OpensWithHeaderIff(Lines(text));
      match FirstNonBlank(Lines(text))
      case None => false
      case Some(line) => IsHeaderLine(line)
  }

  lemma {:induction false} BlankTextBlankLines(s: string)
    requires AllSpace(s)
    ensures forall i :: 0 <= i < |Lines(s)| ==> Strip(Lines(s)[i]) == []
    decreases |s|
  {
    var k := LineEnd(s);
    if k < |s| {
      BlankTextBlankLines(s[k + 1..]);
      assert Lines(s) == [s[..k]] + Lines(s[k + 1..]);
      StripAllSpace(s[..k]);
    } else {
      StripAllSpace(s);
    }
  }

  /** A missing file, and a file that is empty or all whitespace, are invalid. */
  lemma ValidateMissingOrBlank(file: Option<string>)
    requires file.None? || AllSpace(file.value)
    ensures !ValidateVersionHeader(file)
  {
    if file.Some? {
      BlankTextBlankLines(file.value);
    }
  }

  /** Only the first non-blank line counts: what follows it is never read. */
  lemma ValidateIgnoresLaterLines(first: string, rest1: string, rest2: string)
    requires NoBreaks(first) && Strip(first) != []
    ensures ValidateVersionHeader(Some(first + "\n" + rest1)) == IsHeaderLine(Strip(first))
    ensures ValidateVersionHeader(Some(first + "\n" + rest2)) == IsHeaderLine(Strip(first))
  {
    LinesOfConcat(first, rest1);
    LinesOfConcat(first, rest2);
  }

  /** Leading blank lines are skipped. */
  lemma ValidateSkipsBlankLine(blank: string, rest: string)
    requires NoBreaks(blank) && Strip(blank) == []
    ensures ValidateVersionHeader(Some(blank + "\n" + rest)) == ValidateVersionHeader(Some(rest))
  {
    LinesOfConcat(blank, rest);
    assert ([blank] + Lines(rest))[1..] == Lines(rest);
  }

  /** A documentation file as the scan finds it: its path and its text
      (`None` when it cannot be found any more). */
  datatype DocFile = DocFile(path: Path, content: Option<string>)

  /** README files and anything under a `snapshots` directory are not checked. */
  predicate SkippedByScan(p: Path)
  {
    "README" <= Name(p) || "snapshots" in p
  }

  /** The paths the scan reports, in scan order. */
  function Failures(docs: seq<DocFile>): seq<Path>
  {
    if docs == [] then []
    else
      var d := docs[|docs| - 1];
      Failures(docs[..|docs| - 1])
        + (if !SkippedByScan(d.path) && !ValidateVersionHeader(d.content) then [d.path] else [])
  }

  /** `scan_docs_directory` over the Markdown files found under docs/. */
  method ScanDocsDirectory(docs: seq<DocFile>) returns (failures: seq<Path>)
    ensures failures == Failures(docs)
  {
    failures := [];
    var i := 0;
    while i < |docs|
      invariant 0 <= i <= |docs|
      invariant failures == Failures(docs[..i])
    {
      var d := docs[i];
      assert docs[..i + 1][..i] == docs[..i];
      if SkippedByScan(d.path) {
        i := i + 1;
        continue;
      }
      if !ValidateVersionHeader(d.content) {
        failures := failures + [d.path];
      }
      i := i + 1;
    }
    assert docs[..i] == docs;
  }

  /** The exit status of the validator: 1 when the scan reports a failure, else 0. */
  function ScanExitStatus(docs: seq<DocFile>): (code: nat)
    ensures code == 0 || code == 1
    ensures code == 0 <==> forall d :: d in docs ==> SkippedByScan(d.path) || ValidateVersionHeader(d.content)
  {
    if Failures(docs) != [] then
      var p := Failures(docs)[0];
      FailuresExact(docs, p);
      1
    else
      assert forall d :: d in docs ==> SkippedByScan(d.path) || ValidateVersionHeader(d.content) by {
        forall d | d in docs ensures SkippedByScan(d.path) || ValidateVersionHeader(d.content) {
          FailuresExact(docs, d.path);
        }
      }
      0
  }

  /** The scan reports exactly the files that are not skipped and fail validation. */
  lemma {:induction false} FailuresExact(docs: seq<DocFile>, p: Path)
    ensures p in Failures(docs) <==>
      exists d :: d in docs && d.path == p && !SkippedByScan(p) && !ValidateVersionHeader(d.content)
  {
    if docs != [] {
      var init := docs[..|docs| - 1];
      FailuresExact(init, p);
      assert docs == init + [docs[|docs| - 1]];
    }
  }
}
