/**
 * The line-budget source dumper: pick the project files worth showing, turn
 * each into a fenced Markdown block of lines, and pack the blocks greedily into
 * chunks of at most 300 lines (a single larger block gets a chunk of its own).
 * The directory walk and the file reads are inputs: the walk as the sequence of
 * (directory, file names) steps it produced, each file's content as the lines
 * `splitlines()` gave or the text of the exception that reading raised.
 */
module DumpSourceSplit {
  import opened Wrappers
  import opened Seqs
  import opened Paths

  const LinesPerFile := 300
  const IncludedDirs: set<string> := {"src", "tests", "scripts", "docs"}
  const IncludedSuffixes: set<string> := {".py", ".toml", ".yaml", ".yml", ".md"}
  const ExcludedNames: set<string> := {"__pycache__", ".venv", ".git", ".mypy_cache", ".pytest_cache"}

  /** `should_include` on a path relative to the project root; `isFile` is what
      `is_file()` answered. The escape clause `path.parent != PROJECT_ROOT`
      compares a relative path with an absolute one, so it always holds and the
      first component must be one of the included directories. An empty path
      never reaches that test: its suffix is empty. As a result an included path
      always lies inside a directory: nothing at the top level is included. */
  predicate ShouldInclude(p: Path, isFile: bool): (b: bool)
    ensures b ==> |p| >= 2 && p[0] in IncludedDirs
  {
    DirsHaveNoSuffix(p);
    && isFile
    && Suffix(p) in IncludedSuffixes
    && (forall part :: part in p ==> part !in ExcludedNames)
    && p != [] && p[0] in IncludedDirs
  }

  /** The included directories have no dot, so a path naming one of them has no suffix. */
  lemma DirsHaveNoSuffix(p: Path)
    ensures |p| == 1 && p[0] in IncludedDirs ==> Suffix(p) == ""
  {
    if |p| == 1 && p[0] in IncludedDirs {
      var name := p[0];
      assert Name(p) == name;
      assert forall k :: 0 <= k < |name| ==> name[k] != '.';
    }
  }

  /** A file at the top of the project is never included, whatever its name. */
  lemma TopLevelFilesExcluded(name: string, isFile: bool)
    ensures !ShouldInclude([name], isFile)
  {
  }

  /** One step of `os.walk`: a directory, relative to the project root, and the
      non-directory entries in it. `isFile` is what `is_file()` answers for the
      root-relative path, which is resolved against the current directory: it
      says "a regular file" only when the script runs from the project root. */
  datatype Entry = Entry(name: string, isFile: bool)
  datatype WalkStep = WalkStep(dir: Path, entries: seq<Entry>)

  /** The included paths among the first `n` entries of one step. */
  function Included(step: WalkStep, n: nat): seq<Path>
    requires n <= |step.entries|
  {
    if n == 0 then []
    else
      var p := PathAt(step, n - 1);
      Included(step, n - 1) + (if ShouldInclude(p, step.entries[n - 1].isFile) then [p] else [])
  }

  /** The path of entry `k`: `Path(root) / fname`, relative to the project root. */
  function PathAt(step: WalkStep, k: nat): Path
    requires k < |step.entries|
  {
    step.dir + [step.entries[k].name]
  }

  /** The included paths of the whole walk, in walk order. */
  function Walked(walk: seq<WalkStep>): seq<Path>
  {
    if walk == [] then []
    else Walked(walk[..|walk| - 1]) + Included(walk[|walk| - 1], |walk[|walk| - 1].entries|)
  }

  /** Entry `k` of the step names path `p`, and `should_include` accepts it. */
  predicate Gathers(step: WalkStep, k: int, p: Path)
  {
    0 <= k < |step.entries| && p == PathAt(step, k) && ShouldInclude(p, step.entries[k].isFile)
  }

  lemma IncludedLast(step: WalkStep, n: nat, p: Path)
    requires 0 < n <= |step.entries|
    ensures p in Included(step, n) <==> p in Included(step, n - 1) || Gathers(step, n - 1, p)
  {
  }

  lemma {:induction false} IncludedMembers(step: WalkStep, n: nat, p: Path)
    requires n <= |step.entries|
    ensures p in Included(step, n) <==> exists k :: 0 <= k < n && Gathers(step, k, p)
  {
    if n > 0 {
      IncludedMembers(step, n - 1, p);
      IncludedLast(step, n, p);
      if p in Included(step, n - 1) {
        var k :| 0 <= k < n - 1 && Gathers(step, k, p);
        assert 0 <= k < n && Gathers(step, k, p);
      }
      if exists k :: 0 <= k < n && Gathers(step, k, p) {
        var k :| 0 <= k < n && Gathers(step, k, p);
        assert k < n - 1 ==> p in Included(step, n - 1);
      }
    }
  }

  function AllIncluded(step: WalkStep): seq<Path>
  {
    Included(step, |step.entries|)
  }

  lemma {:induction false} WalkedSteps(walk: seq<WalkStep>, p: Path)
    ensures p in Walked(walk) <==> exists i :: 0 <= i < |walk| && p in AllIncluded(walk[i])
  {
    if walk != [] {
      var n := |walk| - 1;
      WalkedSteps(walk[..n], p);
      assert forall i :: 0 <= i < n ==> walk[..n][i] == walk[i];
    }
  }

  /** A path is gathered exactly when the walk met it and `should_include` accepts it. */
  lemma WalkedMembers(walk: seq<WalkStep>, p: Path)
    ensures p in Walked(walk) <==> exists i, k :: 0 <= i < |walk| && Gathers(walk[i], k, p)
  {
    WalkedSteps(walk, p);
    forall i | 0 <= i < |walk|
      ensures p in AllIncluded(walk[i]) <==> exists k :: Gathers(walk[i], k, p)
    {
      IncludedMembers(walk[i], |walk[i].entries|, p);
    }
  }

  lemma WalkedSnoc(walk: seq<WalkStep>, i: nat)
    requires i < |walk|
    ensures Walked(walk[..i + 1]) == Walked(walk[..i]) + AllIncluded(walk[i])
  {
    assert walk[..i + 1][..i] == walk[..i];
  }

  /** `gather_files`: the included paths of the walk, sorted. */
  method GatherFiles(walk: seq<WalkStep>) returns (files: seq<Path>)
    ensures Sorted(files)
    ensures multiset(files) == multiset(Walked(walk))
    ensures files == SortPaths(Walked(walk))
  {
    var found: seq<Path> := [];
    for i := 0 to |walk|
      invariant found == Walked(walk[..i])
    {
      var paths := GatherStep(walk[i]);
      found := found + paths;
      WalkedSnoc(walk, i);
    }
    assert walk[..|walk|] == walk;
    files := SortPaths(found);
  }

  /** The inner loop of `gather_files`: the included files of one directory, in
      the order `os.walk` lists them. */
  method GatherStep(step: WalkStep) returns (paths: seq<Path>)
    ensures paths == AllIncluded(step)
  {
    paths := [];
    for k := 0 to |step.entries|
      invariant paths == Included(step, k)
    {
      var p := PathAt(step, k);
      if ShouldInclude(p, step.entries[k].isFile) {
        paths := paths + [p];
      }
    }
  }

  /** A gathered file: its path and either the lines `splitlines()` returned or
      the text of the exception that reading it raised. */
  datatype SourceFile = SourceFile(path: Path, content: Result<seq<string>, string>)

  function ContentLines(f: SourceFile): seq<string>
  {
    match f.content
    case Ok(lines) => lines
    case Err(reason) => ["# ERROR reading file " + Posix(f.path) + ": " + reason]
  }

  /** The Markdown block of one file: a header, an opening fence (tagged `python`
      for `.py` files), the content lines and a closing fence. */
  function Block(f: SourceFile): seq<string>
  {
    ["# File: " + Posix(f.path)] + [if Suffix(f.path) == ".py" then "```python" else "```"] + ContentLines(f) + ["```"]
  }

  /** A block is a header naming the file, an opening fence, the file's content
      lines unchanged and a closing fence. */
  lemma BlockShape(f: SourceFile)
    ensures |Block(f)| == |ContentLines(f)| + 3
    ensures Block(f)[0] == "# File: " + Posix(f.path)
    ensures Block(f)[1] == (if Suffix(f.path) == ".py" then "```python" else "```")
    ensures Block(f)[2..|Block(f)| - 1] == ContentLines(f) && Block(f)[|Block(f)| - 1] == "```"
  {
  }

  /** An unreadable file contributes exactly one line of content, the error line. */
  lemma UnreadableFileBlock(path: Path, reason: string)
    ensures var b := Block(SourceFile(path, Err(reason)));
            |b| == 4 && b[2] == "# ERROR reading file " + Posix(path) + ": " + reason
  {
    BlockShape(SourceFile(path, Err(reason)));
  }

  function Blocks(files: seq<SourceFile>): seq<seq<string>>
  {
    seq(|files|, i requires 0 <= i < |files| => Block(files[i]))
  }

  /** The greedy packing of blocks into groups: a block joins the current group
      unless that would take the group past the line budget, and a group is only
      closed once it holds something. */
  function Pack(blocks: seq<seq<string>>): seq<seq<seq<string>>>
  {
    if blocks == [] then []
    else
      var groups := Pack(blocks[..|blocks| - 1]);
      var b := blocks[|blocks| - 1];
      if groups != [] && |Concat(groups[|groups| - 1])| + |b| <= LinesPerFile then
        groups[..|groups| - 1] + [groups[|groups| - 1] + [b]]
      else
        groups + [[b]]
  }

  /** The lines of each group. */
  function ChunksOf(groups: seq<seq<seq<string>>>): seq<seq<string>>
  {
    seq(|groups|, i requires 0 <= i < |groups| => Concat(groups[i]))
  }

  function Chunks(blocks: seq<seq<string>>): seq<seq<string>>
  {
    ChunksOf(Pack(blocks))
  }

  /** A group fits when it is a single block or stays within the budget. */
  predicate Fits(g: seq<seq<string>>)
  {
    |g| == 1 || |Concat(g)| <= LinesPerFile
  }

  /** Packing neither drops, duplicates nor reorders blocks. */
  lemma {:induction false} PackFlattens(blocks: seq<seq<string>>)
    ensures Concat(Pack(blocks)) == blocks
  {
    if blocks != [] {
      var init := blocks[..|blocks| - 1];
      var b := blocks[|blocks| - 1];
      var groups := Pack(init);
      PackFlattens(init);
      if groups != [] && |Concat(groups[|groups| - 1])| + |b| <= LinesPerFile {
        var n := |groups| - 1;
        LastSplit(groups);
        ConcatAppend(groups[..n], groups[n]);
        ConcatAppend(groups[..n], groups[n] + [b]);
      } else {
        ConcatAppend(groups, [b]);
      }
      LastSplit(blocks);
    }
  }

  /** One more block: either it joins the last group or it opens a new one. */
  lemma PackSnoc(blocks: seq<seq<string>>, b: seq<string>)
    ensures var groups := Pack(blocks);
            Pack(blocks + [b]) ==
              if groups != [] && |Concat(groups[|groups| - 1])| + |b| <= LinesPerFile then
                groups[..|groups| - 1] + [groups[|groups| - 1] + [b]]
              else
                groups + [[b]]
  {
    assert (blocks + [b])[..|blocks|] == blocks;
  }

  /** Every group is non-empty and fits. */
  lemma {:induction false} PackGroupsFit(blocks: seq<seq<string>>)
    ensures forall k :: 0 <= k < |Pack(blocks)| ==> Pack(blocks)[k] != [] && Fits(Pack(blocks)[k])
  {
    if blocks != [] {
      var init := blocks[..|blocks| - 1];
      var b := blocks[|blocks| - 1];
      var groups := Pack(init);
      PackGroupsFit(init);
      if groups != [] && |Concat(groups[|groups| - 1])| + |b| <= LinesPerFile {
        ConcatAppend(groups[|groups| - 1], b);
      }
    }
  }

  /** Every group after the first opens with a block that would have taken the
      group before it past the budget. */
  predicate Greedy(groups: seq<seq<seq<string>>>)
  {
    forall k :: 0 < k < |groups| ==>
      groups[k] != [] && |Concat(groups[k - 1])| + |groups[k][0]| > LinesPerFile
  }

  /** Adding a block to the last group keeps the earlier boundaries. */
  lemma GreedyGrow(groups: seq<seq<seq<string>>>, b: seq<string>)
    requires groups != [] && Greedy(groups)
    ensures Greedy(groups[..|groups| - 1] + [groups[|groups| - 1] + [b]])
  {
    var packed := groups[..|groups| - 1] + [groups[|groups| - 1] + [b]];
    forall k | 0 < k < |packed|
      ensures packed[k] != [] && |Concat(packed[k - 1])| + |packed[k][0]| > LinesPerFile
    {
      assert packed[k - 1] == groups[k - 1];
      assert packed[k][0] == groups[k][0];
    }
  }

  /** Opening a group with a block that overflows the last one keeps the property. */
  lemma GreedyOpen(groups: seq<seq<seq<string>>>, b: seq<string>)
    requires Greedy(groups)
    requires groups != [] ==> |Concat(groups[|groups| - 1])| + |b| > LinesPerFile
    ensures Greedy(groups + [[b]])
  {
    var packed := groups + [[b]];
    forall k | 0 < k < |packed|
      ensures packed[k] != [] && |Concat(packed[k - 1])| + |packed[k][0]| > LinesPerFile
    {
      assert packed[k - 1] == groups[k - 1];
    }
  }

  /** A group was closed only because the first block of the next one would have
      taken it past the budget. */
  lemma {:induction false} PackGreedy(blocks: seq<seq<string>>)
    ensures Greedy(Pack(blocks))
  {
    if blocks != [] {
      var init := blocks[..|blocks| - 1];
      var b := blocks[|blocks| - 1];
      var groups := Pack(init);
      PackGreedy(init);
      if groups != [] && |Concat(groups[|groups| - 1])| + |b| <= LinesPerFile {
        GreedyGrow(groups, b);
      } else {
        GreedyOpen(groups, b);
      }
    }
  }

  /** Flattening the chunks gives all the lines of all the blocks, in order. */
  lemma ChunksFlatten(blocks: seq<seq<string>>)
    ensures Concat(Chunks(blocks)) == Concat(blocks)
  {
    ConcatOfConcats(Pack(blocks));
    PackFlattens(blocks);
  }

  /** A chunk over the budget holds a single block, and no chunk of non-empty
      blocks is empty. */
  lemma ChunkBounds(blocks: seq<seq<string>>, k: nat)
    requires k < |Chunks(blocks)|
    requires forall i :: 0 <= i < |blocks| ==> blocks[i] != []
    ensures |Chunks(blocks)[k]| > LinesPerFile ==> |Pack(blocks)[k]| == 1
    ensures Chunks(blocks)[k] != []
  {
    PackGroupsFit(blocks);
    var g := Pack(blocks)[k];
    PackFlattens(blocks);
    var b := g[|g| - 1];
    assert b in Concat(Pack(blocks)) by {
      ConcatMember(Pack(blocks), k, |g| - 1);
    }
    assert Concat(g) == Concat(g[..|g| - 1]) + b;
  }

  lemma ChunksOfSnoc(groups: seq<seq<seq<string>>>, g: seq<seq<string>>)
    ensures ChunksOf(groups + [g]) == ChunksOf(groups) + [Concat(g)]
  {
  }

  /** How the loop of `dump_chunks` stands for the groups packed so far: the
      closed groups are the emitted chunks and the open one is `current`. */
  predicate Holds(groups: seq<seq<seq<string>>>, chunks: seq<seq<string>>, current: seq<string>)
  {
    if groups == [] then chunks == [] && current == []
    else current == Concat(groups[|groups| - 1]) && current != [] && chunks == ChunksOf(groups[..|groups| - 1])
  }

  lemma FlushStep(groups: seq<seq<seq<string>>>, chunks: seq<seq<string>>, current: seq<string>, block: seq<string>)
    requires Holds(groups, chunks, current) && current != [] && block != []
    ensures Holds(groups + [[block]], chunks + [current], [] + block)
  {
    ChunksOfSnoc(groups[..|groups| - 1], groups[|groups| - 1]);
    assert groups[..|groups| - 1] + [groups[|groups| - 1]] == groups;
    assert (groups + [[block]])[..|groups|] == groups;
    assert Concat([block]) == Concat([block][..0]) + block;
  }

  lemma ExtendStep(groups: seq<seq<seq<string>>>, chunks: seq<seq<string>>, current: seq<string>, block: seq<string>)
    requires Holds(groups, chunks, current) && block != []
    ensures groups == [] ==> Holds([[block]], chunks, current + block)
    ensures groups != [] ==>
              Holds(groups[..|groups| - 1] + [groups[|groups| - 1] + [block]], chunks, current + block)
  {
    if groups == [] {
      assert Concat([block]) == Concat([block][..0]) + block;
    } else {
      var n := |groups| - 1;
      ConcatAppend(groups[n], block);
      assert (groups[..n] + [groups[n] + [block]])[..n] == groups[..n];
    }
  }

  lemma HoldsAtEnd(groups: seq<seq<seq<string>>>, chunks: seq<seq<string>>, current: seq<string>)
    requires Holds(groups, chunks, current)
    ensures ChunksOf(groups) == if current == [] then chunks else chunks + [current]
  {
    if groups != [] {
      ChunksOfSnoc(groups[..|groups| - 1], groups[|groups| - 1]);
      assert groups[..|groups| - 1] + [groups[|groups| - 1]] == groups;
    }
  }

  /** `dump_chunks`: the chunks of lines, one per greedy group of file blocks. */
  method DumpChunks(files: seq<SourceFile>) returns (chunks: seq<seq<string>>)
    ensures chunks == Chunks(Blocks(files))
  {
    chunks := [];
    var current: seq<string> := [];
    var lineCount := 0;
    ghost var groups: seq<seq<seq<string>>> := [];
    for i := 0 to |files|
      invariant groups == Pack(Blocks(files)[..i])
      invariant lineCount == |current|
      invariant Holds(groups, chunks, current)
    {
      var block := Block(files[i]);
      assert Blocks(files)[i] == block;
      TakeSnoc(Blocks(files), i);
      PackSnoc(Blocks(files)[..i], block);
      if lineCount + |block| > LinesPerFile && current != [] {
        FlushStep(groups, chunks, current, block);
        chunks := chunks + [current];
        current := [];
        lineCount := 0;
        groups := groups + [[block]];
      } else {
        ExtendStep(groups, chunks, current, block);
        groups := if groups == [] then [[block]] else groups[..|groups| - 1] + [groups[|groups| - 1] + [block]];
      }
      current := current + block;
      lineCount := lineCount + |block|;
    }
    assert Blocks(files)[..|files|] == Blocks(files);
    HoldsAtEnd(groups, chunks, current);
    if current != [] {
      chunks := chunks + [current];
    }
  }

  /** The whole dump: the chunks of the sorted included files, whose lines are
      those of the files' blocks in path order. */
  lemma DumpFlattens(files: seq<SourceFile>)
    ensures Concat(Chunks(Blocks(files))) == Concat(Blocks(files))
    ensures forall k :: 0 <= k < |Chunks(Blocks(files))| ==> Chunks(Blocks(files))[k] != []
  {
    ChunksFlatten(Blocks(files));
    var blocks := Blocks(files);
    forall i | 0 <= i < |blocks| ensures blocks[i] != [] {
      BlockShape(files[i]);
    }
    forall k | 0 <= k < |Chunks(blocks)|
      ensures Chunks(blocks)[k] != []
    {
      ChunkBounds(blocks, k);
    }
  }
}
