/**
 * Facts about the header lines the validator accepts: a header line with a date
 * is a line of its own, and stripping leaves it unchanged.
 */
module HeaderFacts {
  import opened Text
  import opened ValidateDocs

  lemma NoBreaksConcat(a: string, b: string)
    requires NoBreaks(a) && NoBreaks(b)
    ensures NoBreaks(a + b)
  {
    assert forall i :: 0 <= i < |a + b| ==> (a + b)[i] == if i < |a| then a[i] else b[i - |a|];
  }

  lemma DigitsNoBreaks(s: string)
    requires AllDigits(s)
    ensures NoBreaks(s)
  {
  }

  lemma DateTextNoBreaks(d: IsoDate)
    requires WellFormedDate(d)
    ensures NoBreaks(DateText(d))
  {
    DigitsNoBreaks(d.year);
    DigitsNoBreaks(d.month);
    DigitsNoBreaks(d.day);
    NoBreaksConcat(" (", d.year);
    NoBreaksConcat(" (" + d.year, "-");
    NoBreaksConcat(" (" + d.year + "-", d.month);
    NoBreaksConcat(" (" + d.year + "-" + d.month, "-");
    NoBreaksConcat(" (" + d.year + "-" + d.month + "-", d.day);
    NoBreaksConcat(" (" + d.year + "-" + d.month + "-" + d.day, ")");
  }

  lemma RenderNoBreaks(p: HeaderParts)
    requires WellFormed(p) && p.gap == " " && p.version.date.Some?
    ensures NoBreaks(Render(p))
  {
    var v := p.version;
    DigitsNoBreaks(v.major);
    DigitsNoBreaks(v.minor);
    DateTextNoBreaks(v.date.value);
    NoBreaksConcat(v.major, ".");
    NoBreaksConcat(v.major + ".", v.minor);
    NoBreaksConcat(v.major + "." + v.minor, DateText(v.date.value));
    NoBreaksConcat(VersionPrefix, " ");
    NoBreaksConcat(VersionPrefix + " ", VersionText(v));
  }

  lemma LastOfConcat(a: string, b: string)
    requires b != []
    ensures (a + b)[|a + b| - 1] == b[|b| - 1]
  {
  }

  /** A header line with a date opens with '#' and closes with ')'. */
  lemma RenderEnds(p: HeaderParts)
    requires p.version.date.Some?
    ensures var line := Render(p); line != [] && line[0] == '#' && line[|line| - 1] == ')'
  {
    var v := p.version;
    var d := v.date.value;
    assert DateText(d) == (" (" + d.year + "-" + d.month + "-" + d.day) + ")";
    LastOfConcat(" (" + d.year + "-" + d.month + "-" + d.day, ")");
    assert VersionText(v) == (v.major + "." + v.minor) + DateText(d);
    LastOfConcat(v.major + "." + v.minor, DateText(d));
    assert Render(p) == (VersionPrefix + p.gap) + VersionText(v);
    LastOfConcat(VersionPrefix + p.gap, VersionText(v));
    assert Render(p) == VersionPrefix + (p.gap + VersionText(v));
  }

  /** A well-formed header line matches the pattern. */
  lemma RenderMatches(p: HeaderParts)
    requires WellFormed(p)
    ensures IsHeaderLine(Render(p))
  {
    ParseRender(p);
  }

  /** A header line with a date is non-empty and its own strip. */
  lemma RenderStripped(p: HeaderParts)
    requires p.version.date.Some?
    ensures Render(p) != [] && Strip(Render(p)) == Render(p)
  {
    RenderEnds(p);
    StripNoop(Render(p));
  }
}
