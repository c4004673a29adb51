/**
 * What the two documentation-versioning scripts share: the header line they
 * write, the test for an existing header, and the errors they raise.
 */
module DocHeader {
  import opened Wrappers
  import opened Text
  import opened ValidateDocs
  import opened HeaderFacts

  datatype DocError =
    | FileNotFound(message: string)     // FileNotFoundError
    | AlreadyVersioned(message: string) // ValueError

  /** `f"## Version: {version} ({today})"`, `today` being the ISO date of the day. */
  function HeaderLine(version: string, today: string): string
  {
    VersionPrefix + " " + version + " (" + today + ")"
  }

  /** The new document: the header line, a blank line, then the original text. */
  function Versioned(version: string, today: string, content: string): (r: string)
    ensures "## Version: " + version + " (" <= r
    ensures |content| <= |r| && r[|r| - |content|..] == content
  {
    var r := HeaderLine(version, today) + "\n" + "\n" + content;
    assert r == ("## Version: " + version + " (") + (today + ")" + "\n" + "\n" + content);
    r
  }

  /** `text.strip().startswith("## Version:")`. */
  predicate HasHeader(text: string)
  {
    VersionPrefix <= Strip(text)
  }

  /** A document has a header exactly when, once its leading whitespace is
      dropped, it starts with `## Version:`: trailing whitespace never matters. */
  lemma HasHeaderIff(text: string)
    ensures HasHeader(text) <==> VersionPrefix <= LStrip(text)
  {
    var l := LStrip(text);
    RStripSpec(l);
    var r := RStrip(l);
    assert Strip(text) == r;
    if VersionPrefix <= l {
      var n := |VersionPrefix|;
      assert l[n - 1] == ':';
      assert !IsSpace(l[n - 1]);
      assert r[..n] == l[..n];
    }
  }

  /** A versioned document has a header, so versioning it again is refused. */
  lemma VersionedHasHeader(version: string, today: string, content: string)
    ensures HasHeader(Versioned(version, today, content))
  {
    var r := Versioned(version, today, content);
    assert VersionPrefix <= "## Version: " + version + " (";
    StripKeepsPrefix(r, VersionPrefix);
  }

  /** `date.isoformat()`. */
  function IsoText(d: IsoDate): string
  {
    d.year + "-" + d.month + "-" + d.day
  }

  lemma HeaderLineIsRender(major: string, minor: string, d: IsoDate)
    ensures HeaderLine(major + "." + minor, IsoText(d)) == Render(HeaderParts(" ", Version(major, minor, Some(d))))
  {
  }

  lemma FirstLineValidates(line: string, rest: string)
    requires NoBreaks(line) && line != [] && Strip(line) == line && IsHeaderLine(line)
    ensures ValidateVersionHeader(Some(line + "\n" + rest))
  {
    ValidateIgnoresLaterLines(line, rest, "");
  }

  /** A rendered header with a date is a line of its own that stripping leaves alone. */
  lemma RenderedLine(p: HeaderParts)
    requires WellFormed(p) && p.gap == " " && p.version.date.Some?
    ensures NoBreaks(Render(p)) && Render(p) != [] && Strip(Render(p)) == Render(p) && IsHeaderLine(Render(p))
  {
    RenderMatches(p);
    RenderNoBreaks(p);
    RenderStripped(p);
  }

  lemma VersionedSplit(version: string, today: string, content: string)
    ensures Versioned(version, today, content) == HeaderLine(version, today) + "\n" + ("\n" + content)
  {
  }

  /** For a version of the form digits "." digits and an ISO date, the header line
      written is one the validator accepts, and so is the whole new document. */
  lemma VersionedValidates(major: string, minor: string, d: IsoDate, content: string)
    requires WellFormedVersion(Version(major, minor, None)) && WellFormedDate(d)
    ensures IsHeaderLine(HeaderLine(major + "." + minor, IsoText(d)))
    ensures ValidateVersionHeader(Some(Versioned(major + "." + minor, IsoText(d), content)))
  {
    var p := HeaderParts(" ", Version(major, minor, Some(d)));
    HeaderLineIsRender(major, minor, d);
    RenderedLine(p);
    VersionedSplit(major + "." + minor, IsoText(d), content);
    FirstLineValidates(Render(p), "\n" + content);
  }
}
