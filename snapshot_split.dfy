/**
 * The character-budget snapshot writer: collect the Python files under a few
 * roots, turn each into a fenced Markdown block of text, pack the blocks
 * greedily into chunks of at most 35000 characters, and list the files in a
 * manifest. The recursive globbing and the file reads are inputs: for each root
 * that exists, the paths `rglob("*.py")` yielded; for each file, its text.
 */
module SnapshotSplit {
  import opened Seqs
  import opened Text
  import opened Paths

  const MaxCharsPerChunk := 35000
  const IncludeDirs: seq<string> := ["src", "scripts", "tests", "."]
  const ExcludePatterns: seq<string> := ["__pycache__", ".pytest_cache", ".venv", ".md", ".pyc"]

  /** `should_include`: a `.py` suffix and no component equal to an excluded name. */
  predicate ShouldInclude(p: Path)
  {
    Suffix(p) == ".py" && !HasExcludedPart(p)
  }

  /** `any(p in path.parts for p in EXCLUDE_PATTERNS)`. */
  predicate HasExcludedPart(p: Path)
  {
    exists k :: 0 <= k < |ExcludePatterns| && ExcludePatterns[k] in p
  }

  /** An included path names a file whose name is longer than and ends in `.py`. */
  lemma IncludedIsPython(p: Path)
    requires ShouldInclude(p)
    ensures |Name(p)| > 3 && Name(p)[|Name(p)| - 3..] == ".py"
    ensures p != [] && forall part :: part in p ==> part != "__pycache__" && part != ".venv"
    ensures forall k :: 0 <= k < |ExcludePatterns| ==> ExcludePatterns[k] !in p
  {
    assert ExcludePatterns[0] == "__pycache__" && ExcludePatterns[2] == ".venv";
  }

  /** The list comprehension over one root's glob results. */
  function Kept(found: seq<Path>): seq<Path>
  {
    if found == [] then []
    else Kept(found[..|found| - 1]) + (if ShouldInclude(found[|found| - 1]) then [found[|found| - 1]] else [])
  }

  /** The comprehension keeps exactly the included paths. */
  lemma {:induction false} KeptMembers(found: seq<Path>, p: Path)
    ensures p in Kept(found) <==> p in found && ShouldInclude(p)
  {
    if found != [] {
      KeptMembers(found[..|found| - 1], p);
      LastSplit(found);
    }
  }

  /** Each included path the comprehension sees is kept, once per occurrence. */
  lemma {:induction false} KeptCount(found: seq<Path>, p: Path)
    requires ShouldInclude(p)
    ensures multiset(Kept(found))[p] == multiset(found)[p]
  {
    if found != [] {
      var init, last := found[..|found| - 1], found[|found| - 1];
      KeptCount(init, p);
      CountLast(found, p);
      if ShouldInclude(last) {
        assert Kept(found) == Kept(init) + [last];
        CountSnoc(Kept(init), last, p);
      } else {
        assert Kept(found) == Kept(init);
      }
    }
  }

  /** What one root contributes. */
  function FromRoot(roots: map<string, seq<Path>>, base: string): seq<Path>
  {
    if base in roots then Kept(roots[base]) else []
  }

  /** A root contributes exactly its kept paths, and nothing when it does not exist. */
  lemma FromRootMembers(roots: map<string, seq<Path>>, base: string, p: Path)
    ensures p in FromRoot(roots, base) <==> base in roots && p in roots[base] && ShouldInclude(p)
  {
    if base in roots {
      KeptMembers(roots[base], p);
    }
  }

  /** What the loop over the roots gathers from the first `n` roots, root after
      root; a root missing from `roots` does not exist and is skipped. */
  function CollectedUpTo(roots: map<string, seq<Path>>, bases: seq<string>, n: nat): seq<Path>
    requires n <= |bases|
  {
    if n == 0 then [] else CollectedUpTo(roots, bases, n - 1) + FromRoot(roots, bases[n - 1])
  }

  /** What the loop gathers over all the roots. */
  function Collected(roots: map<string, seq<Path>>, bases: seq<string>): seq<Path>
  {
    CollectedUpTo(roots, bases, |bases|)
  }

  /** `collect_files`: the kept paths of every existing root, sorted and not
      de-duplicated. */
  method CollectFiles(roots: map<string, seq<Path>>) returns (files: seq<Path>)
    ensures Sorted(files)
    ensures multiset(files) == multiset(Collected(roots, IncludeDirs))
    ensures files == SortPaths(Collected(roots, IncludeDirs))
  {
    var all: seq<Path> := [];
    for i := 0 to |IncludeDirs|
      invariant all == CollectedUpTo(roots, IncludeDirs, i)
    {
      var base := IncludeDirs[i];
      if base in roots {
        all := all + Kept(roots[base]);
      }
    }
    files := SortPaths(all);
  }

  /** A file is among those gathered from the first `n` roots exactly when it is
      kept and one of those roots exists and lists it. */
  lemma {:induction false} CollectedUpToMembers(roots: map<string, seq<Path>>, bases: seq<string>, n: nat, p: Path)
    requires n <= |bases|
    ensures p in CollectedUpTo(roots, bases, n) <==>
              ShouldInclude(p) && exists i :: 0 <= i < n && bases[i] in roots && p in roots[bases[i]]
  {
    if n > 0 {
      var earlier, last := CollectedUpTo(roots, bases, n - 1), FromRoot(roots, bases[n - 1]);
      CollectedUpToMembers(roots, bases, n - 1, p);
      InConcat(earlier, last, p);
      FromRootMembers(roots, bases[n - 1], p);
      if ShouldInclude(p) && exists i :: 0 <= i < n && bases[i] in roots && p in roots[bases[i]] {
        var i :| 0 <= i < n && bases[i] in roots && p in roots[bases[i]];
        if i < n - 1 {
          assert p in earlier;
        }
      }
    }
  }

  /** A file is collected exactly when some existing root yielded it and it is kept. */
  lemma CollectedMembers(roots: map<string, seq<Path>>, bases: seq<string>, p: Path)
    ensures p in Collected(roots, bases) <==>
              ShouldInclude(p) && exists i :: 0 <= i < |bases| && bases[i] in roots && p in roots[bases[i]]
  {
    CollectedUpToMembers(roots, bases, |bases|, p);
  }

  /** Four roots, in their order. */
  lemma CollectedFour(roots: map<string, seq<Path>>, bases: seq<string>)
    requires |bases| == 4
    ensures Collected(roots, bases) ==
              FromRoot(roots, bases[0]) + FromRoot(roots, bases[1]) + FromRoot(roots, bases[2]) + FromRoot(roots, bases[3])
  {
    var f0, f1, f2, f3 := FromRoot(roots, bases[0]), FromRoot(roots, bases[1]), FromRoot(roots, bases[2]), FromRoot(roots, bases[3]);
    SumOfFour(CollectedUpTo(roots, bases, 0), CollectedUpTo(roots, bases, 1), CollectedUpTo(roots, bases, 2),
              CollectedUpTo(roots, bases, 3), CollectedUpTo(roots, bases, 4), f0, f1, f2, f3);
  }

  /** The `.` root overlaps the others: a kept file found both under `src` and
      under `.` is listed twice. */
  lemma OverlapIsListedTwice(roots: map<string, seq<Path>>, p: Path)
    requires "src" in roots && "." in roots
    requires p in roots["src"] && p in roots["."] && ShouldInclude(p)
    ensures multiset(Collected(roots, IncludeDirs))[p] >= 2
  {
    CollectedFour(roots, IncludeDirs);
    assert IncludeDirs[0] == "src" && IncludeDirs[3] == ".";
    KeptCount(roots["src"], p);
    KeptCount(roots["."], p);
  }

  /** A file to snapshot: its path and its text. */
  datatype PyFile = PyFile(path: Path, content: string)

  /** The text around a file's stripped content in its block. */
  function Frame(rel: string, body: string): string
  {
    "# FILE: " + rel + "\n```python\n" + body + "\n```\n\n"
  }

  /** The block of one file: a `# FILE:` header, then the stripped text inside a
      `python` fence, then a blank line. */
  function Block(f: PyFile): string
  {
    Frame(Posix(f.path), Strip(f.content))
  }

  /** A block can be read back: the header carries the file's path, and the
      fence holds exactly the stripped text of the file. */
  lemma BlockShape(f: PyFile)
    ensures |Block(f)| == |Posix(f.path)| + |Strip(f.content)| + 25
    ensures Block(f)[..8] == "# FILE: " && Block(f)[8..8 + |Posix(f.path)|] == Posix(f.path)
    ensures Block(f)[8 + |Posix(f.path)|..19 + |Posix(f.path)|] == "\n```python\n"
    ensures Block(f)[19 + |Posix(f.path)|..|Block(f)| - 6] == Strip(f.content)
    ensures Block(f)[|Block(f)| - 6..] == "\n```\n\n"
  {
    var rel, body := Posix(f.path), Strip(f.content);
    var b := Block(f);
    assert b == "# FILE: " + rel + "\n```python\n" + body + "\n```\n\n";
  }

  /** What stripping a run of blocks relies on: a block opens with `#` and ends
      with a closing fence and two newlines. */
  predicate Framed(b: string)
  {
    |b| >= 6 && b[0] == '#' && b[|b| - 5..] == "```\n\n"
  }

  lemma FrameFramed(rel: string, body: string)
    ensures Framed(Frame(rel, body))
  {
    var tail := "\n```\n\n";
    var b := Frame(rel, body);
    assert b == ("# FILE: " + rel + "\n```python\n" + body) + tail;
    assert b[|b| - 5..] == tail[1..];
  }

  function Blocks(files: seq<PyFile>): seq<string>
  {
    seq(|files|, i requires 0 <= i < |files| => Block(files[i]))
  }

  /** The greedy grouping of blocks. The first group starts empty, and a group is
      closed whenever the next block would take it past the budget, even when it
      is still empty. */
  function Groups(blocks: seq<string>): (groups: seq<seq<string>>)
    ensures groups != []
  {
    if blocks == [] then [[]]
    else
      var groups := Groups(blocks[..|blocks| - 1]);
      var b := blocks[|blocks| - 1];
      var last := groups[|groups| - 1];
      if |Concat(last)| + |b| > MaxCharsPerChunk then groups + [[b]]
      else groups[..|groups| - 1] + [last + [b]]
  }

  lemma GroupsSnoc(blocks: seq<string>, b: string)
    ensures var groups := Groups(blocks);
            var last := groups[|groups| - 1];
            Groups(blocks + [b]) ==
              if |Concat(last)| + |b| > MaxCharsPerChunk then groups + [[b]]
              else groups[..|groups| - 1] + [last + [b]]
  {
    assert (blocks + [b])[..|blocks|] == blocks;
  }

  /** The chunks written: every closed group stripped, then the open group
      stripped if anything is left of it. */
  function SnapChunks(blocks: seq<string>): seq<string>
  {
    var groups := Groups(blocks);
    var n := |groups| - 1;
    seq(n, i requires 0 <= i < n => Strip(Concat(groups[i])))
      + (if Strip(Concat(groups[n])) != [] then [Strip(Concat(groups[n]))] else [])
  }

  /** Grouping neither drops, duplicates nor reorders blocks. */
  lemma {:induction false} GroupsFlatten(blocks: seq<string>)
    ensures Concat(Groups(blocks)) == blocks
  {
    if blocks != [] {
      var init := blocks[..|blocks| - 1];
      var b := blocks[|blocks| - 1];
      var groups := Groups(init);
      var n := |groups| - 1;
      GroupsFlatten(init);
      LastSplit(groups);
      ConcatAppend(groups[..n], groups[n]);
      if |Concat(groups[n])| + |b| > MaxCharsPerChunk {
        ConcatAppend(groups, [b]);
      } else {
        ConcatAppend(groups[..n], groups[n] + [b]);
      }
      assert blocks == init + [b];
    }
  }

  /** Only the first group can be empty; the first group always fits the budget;
      any other group fits unless it is a single block. */
  lemma {:induction false} GroupsFit(blocks: seq<string>)
    ensures |Concat(Groups(blocks)[0])| <= MaxCharsPerChunk
    ensures forall k :: 0 < k < |Groups(blocks)| ==>
              Groups(blocks)[k] != [] && (|Groups(blocks)[k]| == 1 || |Concat(Groups(blocks)[k])| <= MaxCharsPerChunk)
  {
    if blocks != [] {
      var init := blocks[..|blocks| - 1];
      var b := blocks[|blocks| - 1];
      var groups := Groups(init);
      var n := |groups| - 1;
      GroupsFit(init);
      if |Concat(groups[n])| + |b| <= MaxCharsPerChunk {
        ConcatAppend(groups[n], b);
      }
    }
  }

  /** A group was closed only because the first block of the next one would have
      taken it past the budget. */
  lemma {:induction false} GroupsGreedy(blocks: seq<string>)
    ensures forall k :: 0 < k < |Groups(blocks)| ==>
              Groups(blocks)[k] != [] && |Concat(Groups(blocks)[k - 1])| + |Groups(blocks)[k][0]| > MaxCharsPerChunk
  {
    if blocks != [] {
      var init := blocks[..|blocks| - 1];
      var b := blocks[|blocks| - 1];
      var groups := Groups(init);
      var grouped := Groups(blocks);
      var n := |groups| - 1;
      GroupsGreedy(init);
      if |Concat(groups[n])| + |b| > MaxCharsPerChunk {
        forall k | 0 < k < |grouped|
          ensures grouped[k] != [] && |Concat(grouped[k - 1])| + |grouped[k][0]| > MaxCharsPerChunk
        {
          assert grouped[k - 1] == groups[k - 1];
        }
      } else {
        forall k | 0 < k < |grouped|
          ensures grouped[k] != [] && |Concat(grouped[k - 1])| + |grouped[k][0]| > MaxCharsPerChunk
        {
          assert grouped[k - 1] == groups[k - 1];
          assert grouped[k][0] == groups[k][0];
        }
      }
    }
  }

  /** The first group is empty exactly when the first block alone is over the
      budget. */
  lemma FirstGroupEmpty(blocks: seq<string>)
    requires blocks != []
    ensures Groups(blocks)[0] == [] <==> |blocks[0]| > MaxCharsPerChunk
    ensures Groups(blocks)[0] == [] ==> |Groups(blocks)| >= 2
  {
    GroupsFlatten(blocks);
    GroupsGreedy(blocks);
    GroupsFit(blocks);
    var groups := Groups(blocks);
    ConcatCons(groups);
    if groups[0] == [] {
      assert Concat(groups[1..]) == blocks;
      FirstOfConcat(groups[1..]);
    } else {
      FirstOfConcat(groups);
      ConcatPrefixLength(groups[0]);
    }
  }

  /** When the first block alone is over the budget, the first chunk written is
      the empty string. */
  lemma EmptyFirstChunk(blocks: seq<string>)
    requires blocks != [] && |blocks[0]| > MaxCharsPerChunk
    ensures |SnapChunks(blocks)| >= 1 && SnapChunks(blocks)[0] == []
  {
    FirstGroupEmpty(blocks);
    assert Concat(Groups(blocks)[0]) == [];
  }

  /** The first string of a group is no longer than the group's text. */
  lemma ConcatPrefixLength(g: seq<string>)
    requires g != []
    ensures |g[0]| <= |Concat(g)|
  {
    ConcatCons(g);
  }

  /** Stripping a non-empty run of blocks removes exactly the two final newlines,
      so no chunk of a non-empty run is blank. */
  lemma {:induction false} StripRun(g: seq<string>)
    requires g != [] && forall i :: 0 <= i < |g| ==> Framed(g[i])
    ensures var text := Concat(g);
            |text| >= 6 && Strip(text) == text[..|text| - 2] && Strip(text)[0] == '#'
  {
    var text := Concat(g);
    var n := |g| - 1;
    assert text == Concat(g[..n]) + g[n];
    FirstOfConcat(g);
    var body := text[..|text| - 2];
    assert body + "\n\n" == text;
    assert body[|body| - 1] == '`' by {
      assert g[n][|g[n]| - 5..] == "```\n\n";
      assert text[|text| - 3] == g[n][|g[n]| - 3];
    }
    StripDropsTrailing(body, "\n\n");
  }

  /** How the loop of `chunk_files` stands for the groups formed so far: the
      closed groups, stripped, are the emitted chunks and the open one is
      `current`. */
  predicate Holds(groups: seq<seq<string>>, chunks: seq<string>, current: string)
  {
    var n := |groups| - 1;
    groups != [] && current == Concat(groups[n])
    && chunks == seq(n, i requires 0 <= i < n => Strip(Concat(groups[i])))
  }

  lemma FlushStep(groups: seq<seq<string>>, chunks: seq<string>, current: string, block: string)
    requires Holds(groups, chunks, current)
    ensures Holds(groups + [[block]], chunks + [Strip(current)], block)
  {
    var g := groups + [[block]];
    assert g[..|groups|] == groups;
    assert Concat([block]) == Concat([block][..0]) + block;
  }

  lemma ExtendStep(groups: seq<seq<string>>, chunks: seq<string>, current: string, block: string)
    requires Holds(groups, chunks, current)
    ensures Holds(groups[..|groups| - 1] + [groups[|groups| - 1] + [block]], chunks, current + block)
  {
    var n := |groups| - 1;
    ConcatAppend(groups[n], block);
  }

  /** One turn of the loop of `chunk_files`: flushing the current text when the
      next block would overflow it, or else appending the block, keeps the loop's
      state in step with the grouping of one more block. */
  lemma ChunkStep(blocks: seq<string>, chunks: seq<string>, current: string, block: string)
    requires Holds(Groups(blocks), chunks, current)
    ensures |current| + |block| > MaxCharsPerChunk ==>
              Holds(Groups(blocks + [block]), chunks + [Strip(current)], block)
    ensures |current| + |block| <= MaxCharsPerChunk ==>
              Holds(Groups(blocks + [block]), chunks, current + block)
  {
    GroupsSnoc(blocks, block);
    if |current| + |block| > MaxCharsPerChunk {
      FlushStep(Groups(blocks), chunks, current, block);
    } else {
      ExtendStep(Groups(blocks), chunks, current, block);
    }
  }

  /** `chunk_files`: the stripped text of each greedy group of file blocks; the
      last group is written only if it is not blank. */
  method ChunkFiles(files: seq<PyFile>) returns (chunks: seq<string>)
    ensures chunks == SnapChunks(Blocks(files))
  {
    chunks := [];
    var current := "";
    for i := 0 to |files|
      invariant Holds(Groups(Blocks(files)[..i]), chunks, current)
    {
      var block := Block(files[i]);
      assert Blocks(files)[i] == block;
      TakeSnoc(Blocks(files), i);
      ChunkStep(Blocks(files)[..i], chunks, current, block);
      if |current| + |block| > MaxCharsPerChunk {
        chunks := chunks + [Strip(current)];
        current := block;
      } else {
        current := current + block;
      }
    }
    assert Blocks(files)[..|files|] == Blocks(files);
    if Strip(current) != [] {
      chunks := chunks + [Strip(current)];
    }
  }

  /** Every group is a run of blocks of the input. */
  lemma GroupOfFramed(blocks: seq<string>, k: nat)
    requires forall i :: 0 <= i < |blocks| ==> Framed(blocks[i])
    requires k < |Groups(blocks)|
    ensures forall j :: 0 <= j < |Groups(blocks)[k]| ==> Framed(Groups(blocks)[k][j])
  {
    GroupsFlatten(blocks);
    forall j | 0 <= j < |Groups(blocks)[k]| ensures Framed(Groups(blocks)[k][j]) {
      ConcatMember(Groups(blocks), k, j);
    }
  }

  /** The last group is empty exactly when there are no blocks at all. */
  lemma LastGroupEmpty(blocks: seq<string>)
    ensures var groups := Groups(blocks); groups[|groups| - 1] == [] <==> blocks == []
  {
    var groups := Groups(blocks);
    GroupsFit(blocks);
    GroupsFlatten(blocks);
    if |groups| == 1 {
      assert Concat(groups) == Concat(groups[..0]) + groups[0];
    }
  }

  /** Of framed blocks, the open group is written exactly when there is at
      least one block. */
  lemma ChunkCount(blocks: seq<string>)
    requires forall i :: 0 <= i < |blocks| ==> Framed(blocks[i])
    ensures |SnapChunks(blocks)| == (if blocks == [] then |Groups(blocks)| - 1 else |Groups(blocks)|)
  {
    var groups := Groups(blocks);
    var n := |groups| - 1;
    LastGroupEmpty(blocks);
    if blocks != [] {
      GroupOfFramed(blocks, n);
      StripRun(groups[n]);
    } else {
      assert Concat(groups[n]) == [];
    }
  }

  /** Of framed blocks, each chunk after the first is the text of its group
      without the final two newlines. */
  lemma ChunkTexts(blocks: seq<string>, k: nat)
    requires forall i :: 0 <= i < |blocks| ==> Framed(blocks[i])
    requires 0 < k < |SnapChunks(blocks)|
    ensures var text := Concat(Groups(blocks)[k]);
            |text| >= 6 && SnapChunks(blocks)[k] == text[..|text| - 2]
  {
    var groups := Groups(blocks);
    ChunkCount(blocks);
    GroupsFit(blocks);
    GroupOfFramed(blocks, k);
    StripRun(groups[k]);
  }

  /** The blocks of files are framed, so the chunk count and texts above apply
      to them. */
  lemma FileChunkContents(files: seq<PyFile>)
    ensures |SnapChunks(Blocks(files))| == (if files == [] then |Groups(Blocks(files))| - 1 else |Groups(Blocks(files))|)
    ensures forall k :: 0 < k < |SnapChunks(Blocks(files))| ==>
              var text := Concat(Groups(Blocks(files))[k]);
              |text| >= 6 && SnapChunks(Blocks(files))[k] == text[..|text| - 2]
  {
    var blocks := Blocks(files);
    forall i | 0 <= i < |blocks| ensures Framed(blocks[i]) {
      FrameFramed(Posix(files[i].path), Strip(files[i].content));
    }
    ChunkCount(blocks);
    forall k | 0 < k < |SnapChunks(blocks)|
      ensures var text := Concat(Groups(blocks)[k]); |text| >= 6 && SnapChunks(blocks)[k] == text[..|text| - 2]
    {
      ChunkTexts(blocks, k);
    }
  }

  const ManifestTitle := "# Source Snapshot Manifest"

  /** The manifest line of one file, without its newline. */
  function EntryLine(p: Path): string
  {
    "- `" + Posix(p) + "`"
  }

  /** One manifest entry, `- `path`` and a newline. */
  function Entry(p: Path): string
  {
    EntryLine(p) + "\n"
  }

  function Entries(files: seq<Path>): seq<string>
  {
    seq(|files|, i requires 0 <= i < |files| => Entry(files[i]))
  }

  lemma EntriesSnoc(files: seq<Path>, i: nat)
    requires i < |files|
    ensures Entries(files[..i + 1]) == Entries(files[..i]) + [Entry(files[i])]
  {
  }

  /** The manifest text before stripping: the title, a blank line, the entries. */
  function Manifest(files: seq<Path>): string
  {
    ManifestTitle + "\n\n" + Concat(Entries(files))
  }

  lemma ManifestSnoc(files: seq<Path>, i: nat)
    requires i < |files|
    ensures Manifest(files[..i + 1]) == Manifest(files[..i]) + Entry(files[i])
  {
    EntriesSnoc(files, i);
    ConcatAppend(Entries(files[..i]), Entry(files[i]));
  }

  /** `write_manifest`: the content written, which is the manifest stripped. */
  method WriteManifest(files: seq<Path>) returns (text: string)
    ensures text == Strip(Manifest(files))
  {
    var content := ManifestTitle + "\n\n";
    assert content == Manifest(files[..0]) by {
      assert Entries(files[..0]) == [];
    }
    for i := 0 to |files|
      invariant content == Manifest(files[..i])
    {
      ManifestSnoc(files, i);
      content := content + Entry(files[i]);
    }
    assert files[..|files|] == files;
    text := Strip(content);
  }

  /** Stripping the manifest removes only its final newline, or the blank line
      after the title when there are no files. */
  lemma ManifestStripped(files: seq<Path>)
    ensures var m := Manifest(files);
            Strip(m) == if files == [] then ManifestTitle else m[..|m| - 1]
  {
    var m := Manifest(files);
    if files == [] {
      assert Entries(files) == [];
      assert m == ManifestTitle + "\n\n";
      StripDropsTrailing(ManifestTitle, "\n\n");
    } else {
      var n := |files| - 1;
      assert files[..n + 1] == files;
      EntriesSnoc(files, n);
      ConcatAppend(Entries(files[..n]), Entry(files[n]));
      var body := ManifestTitle + "\n\n" + Concat(Entries(files[..n])) + EntryLine(files[n]);
      assert m == body + "\n";
      assert body[|body| - 1] == '`';
      StripDropsTrailing(body, "\n");
    }
  }

  /** Read line by line, the manifest is the title, a blank line, then one
      `- `path`` line per file, in order. */
  lemma ManifestLines(files: seq<Path>)
    requires forall i :: 0 <= i < |files| ==> NoBreaks(Posix(files[i]))
    ensures Lines(Manifest(files)) ==
              [ManifestTitle, ""] + seq(|files|, i requires 0 <= i < |files| => EntryLine(files[i]))
  {
    var rest := Concat(Entries(files));
    TitleNoBreaks();
    TitleLines(ManifestTitle, rest);
    EntryLines(files);
  }

  lemma TitleNoBreaks()
    ensures NoBreaks(ManifestTitle)
  {
  }

  lemma TitleLines(title: string, rest: string)
    requires NoBreaks(title)
    ensures Lines(title + "\n\n" + rest) == [title, ""] + Lines(rest)
  {
    var t := "\n" + rest;
    assert title + "\n\n" + rest == title + "\n" + t;
    LinesOfConcat(title, t);
    BlankFirstLine(rest);
  }

  lemma BlankFirstLine(rest: string)
    ensures Lines("\n" + rest) == [""] + Lines(rest)
  {
    assert "\n" + rest == "" + "\n" + rest;
    LinesOfConcat("", rest);
  }

  lemma EntryLineNoBreaks(p: Path)
    requires NoBreaks(Posix(p))
    ensures NoBreaks(EntryLine(p))
  {
    var line := EntryLine(p);
    forall i | 0 <= i < |line| ensures !IsBreak(line[i]) {
      if 3 <= i < |line| - 1 {
        assert line[i] == Posix(p)[i - 3];
      }
    }
  }

  lemma {:induction false} EntryLines(files: seq<Path>)
    requires forall i :: 0 <= i < |files| ==> NoBreaks(Posix(files[i]))
    ensures Lines(Concat(Entries(files))) == seq(|files|, i requires 0 <= i < |files| => EntryLine(files[i]))
  {
    if files == [] {
      assert Entries(files) == [];
    } else {
      EntryLineNoBreaks(files[0]);
      EntriesCons(files);
      ConcatCons(Entries(files));
      LinesOfConcat(EntryLine(files[0]), Concat(Entries(files[1..])));
      EntryLines(files[1..]);
      EntryLineSeqCons(files);
    }
  }

  lemma EntriesCons(files: seq<Path>)
    requires files != []
    ensures Entries(files)[0] == EntryLine(files[0]) + "\n"
    ensures Entries(files)[1..] == Entries(files[1..])
  {
  }

  lemma EntryLineSeqCons(files: seq<Path>)
    requires files != []
    ensures seq(|files|, i requires 0 <= i < |files| => EntryLine(files[i]))
         == [EntryLine(files[0])] + seq(|files| - 1, i requires 0 <= i < |files| - 1 => EntryLine(files[1..][i]))
  {
  }
}
