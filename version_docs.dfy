/**
 * The single-document versioning command: prepend a version header to a
 * Markdown file that does not have one yet. The file is given by its content
 * (`None` when it does not exist) and the result is the new content to write.
 */
module VersionDocs {
  import opened Wrappers
  import opened ValidateDocs
  import opened DocHeader

  /** `_insert_version_header`, with today's ISO date as a parameter. */
  function InsertVersionHeader(file: Option<string>, path: string, version: string, today: string): (r: Result<string, DocError>)
    ensures file.None? ==> r == Err(FileNotFound("File not found: " + path))
    ensures file.Some? && HasHeader(file.value) ==> r == Err(AlreadyVersioned("Document already contains a version header."))
    ensures r.Ok? <==> file.Some? && !HasHeader(file.value)
    ensures r.Ok? ==> r.value == Versioned(version, today, file.value)
  {
    match file
    case None => Err(FileNotFound("File not found: " + path))
    case Some(content) =>
      if HasHeader(content) then Err(AlreadyVersioned("Document already contains a version header."))
      else Ok(Versioned(version, today, content))
  }

  /** The exit status of the `version` command: 1 when inserting the header
      raised, which is when the file is missing or already has a header; else 0. */
  function VersionExitStatus(file: Option<string>, path: string, version: string, today: string): (code: nat)
    ensures code == 0 || code == 1
    ensures code == 0 <==> file.Some? && !HasHeader(file.value)
  {
    if InsertVersionHeader(file, path, version, today).Err? then 1 else 0
  }

  /** The new content starts with the header and ends with the original text. */
  lemma InsertKeepsOriginal(content: string, path: string, version: string, today: string)
    requires InsertVersionHeader(Some(content), path, version, today).Ok?
    ensures var r := InsertVersionHeader(Some(content), path, version, today).value;
            "## Version: " + version + " (" <= r && |content| <= |r| && r[|r| - |content|..] == content
  {
  }

  /** Inserting twice fails the second time, whatever version and date it is given. */
  lemma InsertTwiceFails(content: string, path: string, version: string, today: string, version': string, today': string)
    requires InsertVersionHeader(Some(content), path, version, today).Ok?
    ensures var once := InsertVersionHeader(Some(content), path, version, today).value;
            InsertVersionHeader(Some(once), path, version', today').Err?
  {
    VersionedHasHeader(version, today, content);
  }

  /** A document versioned with a well-formed version and date passes validation. */
  lemma InsertedValidates(content: string, path: string, major: string, minor: string, d: IsoDate)
    requires WellFormedVersion(Version(major, minor, None)) && WellFormedDate(d)
    requires !HasHeader(content)
    ensures ValidateVersionHeader(Some(InsertVersionHeader(Some(content), path, major + "." + minor, IsoText(d)).value))
  {
    VersionedValidates(major, minor, d, content);
  }
}
