/**
 * The bulk versioning command: inject a version header into every Markdown
 * file under docs/ outside any `snapshots` directory, skipping files that are
 * already versioned and recording the ones that fail.
 */
module UpdateDocs {
  import opened Wrappers
  import opened Paths
  import opened ValidateDocs
  import opened DocHeader
  import opened VersionDocs

  /** `_inject`, with today's ISO date as a parameter. */
  function Inject(file: Option<string>, path: string, version: string, today: string): (r: Result<string, DocError>)
    ensures file.None? ==> r == Err(FileNotFound(path))
    ensures file.Some? && HasHeader(file.value) ==> r == Err(AlreadyVersioned(path + " already versioned."))
    ensures r.Ok? <==> file.Some? && !HasHeader(file.value)
    ensures r.Ok? ==> r.value == Versioned(version, today, file.value)
  {
    match file
    case None => Err(FileNotFound(path))
    case Some(content) =>
      if HasHeader(content) then Err(AlreadyVersioned(path + " already versioned."))
      else Ok(Versioned(version, today, content))
  }

  /** The refusal names the path and says "already versioned". */
  lemma InjectRefusalMessage(content: string, path: string, version: string, today: string)
    requires HasHeader(content)
    ensures var r := Inject(Some(content), path, version, today);
            r.Err? && r.error.AlreadyVersioned? && path <= r.error.message
            && r.error.message[|path|..] == " already versioned."
  {
  }

  /** What the documents' run produced: the files written with their new text,
      the files skipped, and the files that failed. */
  datatype Report = Report(written: seq<(Path, string)>, skipped: seq<Path>, failed: seq<Path>)

  predicate InSnapshots(p: Path)
  {
    "snapshots" in p
  }

  /** One step of the loop: a ValueError is a skip, any other error a failure. */
  function Record(rep: Report, d: DocFile, version: string, today: string): Report
  {
    if InSnapshots(d.path) then rep
    else
      match Inject(d.content, Posix(d.path), version, today)
      case Ok(text) => rep.(written := rep.written + [(d.path, text)])
      case Err(AlreadyVersioned(_)) => rep.(skipped := rep.skipped + [d.path])
      case Err(FileNotFound(_)) => rep.(failed := rep.failed + [d.path])
  }

  /** The report of the whole run, in document order. */
  function Run(docs: seq<DocFile>, version: string, today: string): Report
  {
    if docs == [] then Report([], [], [])
    else Record(Run(docs[..|docs| - 1], version, today), docs[|docs| - 1], version, today)
  }

  /** `main`: the exit status is 1 exactly when some file failed. */
  method UpdateAll(docs: seq<DocFile>, version: string, today: string)
    returns (written: seq<(Path, string)>, skipped: seq<Path>, failed: seq<Path>, exitCode: int)
    ensures Report(written, skipped, failed) == Run(docs, version, today)
    ensures exitCode == (if failed == [] then 0 else 1)
  {
    written, skipped, failed := [], [], [];
    var i := 0;
    while i < |docs|
      invariant 0 <= i <= |docs|
      invariant Report(written, skipped, failed) == Run(docs[..i], version, today)
    {
      assert docs[..i + 1][..i] == docs[..i];
      var d := docs[i];
      if !InSnapshots(d.path) {
        var r := Inject(d.content, Posix(d.path), version, today);
        match r {
          case Ok(text) => written := written + [(d.path, text)];
          case Err(AlreadyVersioned(_)) => skipped := skipped + [d.path];
          case Err(FileNotFound(_)) => failed := failed + [d.path];
        }
      }
      i := i + 1;
    }
    assert docs[..i] == docs;
    exitCode := if failed == [] then 0 else 1;
  }

  /** A path is reported as skipped exactly when some document at that path,
      outside `snapshots`, already has a header. */
  lemma {:induction false} RunSkipped(docs: seq<DocFile>, version: string, today: string, p: Path)
    ensures p in Run(docs, version, today).skipped <==>
              exists d :: d in docs && d.path == p && !InSnapshots(p) && d.content.Some? && HasHeader(d.content.value)
  {
    if docs != [] {
      var init := docs[..|docs| - 1];
      RunSkipped(init, version, today, p);
      assert docs == init + [docs[|docs| - 1]];
    }
  }

  /** A path is reported as failed exactly when some document at that path,
      outside `snapshots`, is missing. */
  lemma {:induction false} RunFailed(docs: seq<DocFile>, version: string, today: string, p: Path)
    ensures p in Run(docs, version, today).failed <==>
              exists d :: d in docs && d.path == p && !InSnapshots(p) && d.content.None?
  {
    if docs != [] {
      var init := docs[..|docs| - 1];
      RunFailed(init, version, today, p);
      assert docs == init + [docs[|docs| - 1]];
    }
  }

  /** A path is written with text `t` exactly when some document at that path,
      outside `snapshots`, has no header and `t` is its versioned text. */
  lemma {:induction false} RunWritten(docs: seq<DocFile>, version: string, today: string, p: Path, t: string)
    ensures (p, t) in Run(docs, version, today).written <==>
              exists d :: d in docs && d.path == p && !InSnapshots(p) && d.content.Some? && !HasHeader(d.content.value)
                          && t == Versioned(version, today, d.content.value)
  {
    if docs != [] {
      var init := docs[..|docs| - 1];
      RunWritten(init, version, today, p, t);
      assert docs == init + [docs[|docs| - 1]];
    }
  }

  /** The run fails (exit status 1) exactly when some document outside `snapshots`
      is missing; an already-versioned document never makes it fail. */
  lemma RunFailsIffMissing(docs: seq<DocFile>, version: string, today: string)
    ensures Run(docs, version, today).failed == [] <==>
              forall d :: d in docs && !InSnapshots(d.path) ==> d.content.Some?
  {
    var rep := Run(docs, version, today);
    if rep.failed != [] {
      RunFailed(docs, version, today, rep.failed[0]);
    }
    forall d | d in docs && !InSnapshots(d.path) && d.content.None?
      ensures rep.failed != []
    {
      RunFailed(docs, version, today, d.path);
    }
  }

  /** `_inject` and `_insert_version_header` write the same text and refuse the same
      documents for the same reasons; only their messages differ. */
  lemma InjectAgreesWithInsert(file: Option<string>, path: string, version: string, today: string)
    ensures var a := Inject(file, path, version, today);
            var b := InsertVersionHeader(file, path, version, today);
            && a.Ok? == b.Ok?
            && (a.Ok? ==> a.value == b.value)
            && (a.Err? ==> a.error.FileNotFound? == b.error.FileNotFound?)
  {
  }
}
