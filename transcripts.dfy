/** The driver of `course_processor`: the transcripts found for a course are
    freed of duplicates, and each one left is turned into a Tree of Knowledge
    file (and, in the django copy, a Puzzle of Knowledge file too).

    `os.path.basename` depends on the platform and is a parameter here; so is
    the language pipeline, which reads the transcript's HTML. Paths are
    joined with the Windows separator the code splits on. */
module Transcripts {
  import opened Lists
  import opened Strings
  import opened WordGraph
  import opened Exceptions
  import opened Files
  import opened Snail
  import opened Grids
  import opened PuzzleTags
  import Tree
  import Puzzle

  // ---------------------------------------------------------------------
  // Duplicate removal

  /** No path after `ps[i]` has the same basename. */
  predicate LastOfItsName(base: string -> string, ps: seq<string>, i: nat)
    requires i < |ps|
  {
    forall j :: i < j < |ps| ==> base(ps[j]) != base(ps[i])
  }

  /** The paths among the first `i` that no later path repeats, in order. */
  function Survivors(base: string -> string, ps: seq<string>, i: nat): seq<string>
    requires i <= |ps|
  {
    if i == 0 then []
    else Survivors(base, ps, i - 1) + (if LastOfItsName(base, ps, i - 1) then [ps[i - 1]] else [])
  }

  /** The duplicate removal of `get_transcript_file`. */
  method RemoveDuplicates(base: string -> string, transcripts: seq<string>) returns (r: seq<string>)
    ensures r == Survivors(base, transcripts, |transcripts|)
  {
    r := [];
    for ti := 0 to |transcripts|
      invariant r == Survivors(base, transcripts, ti)
    {
      var duplicateFound := false;
      for tj := ti + 1 to |transcripts|
        invariant forall k :: ti < k < tj ==> base(transcripts[k]) != base(transcripts[ti])
      {
        if base(transcripts[ti]) == base(transcripts[tj]) {
          duplicateFound := true;
          break;
        }
      }
      if !duplicateFound {
        r := r + [transcripts[ti]];
      }
    }
  }

  /** The kept paths are exactly the ones no later path repeats. */
  lemma {:induction false} SurvivorsMembers(base: string -> string, ps: seq<string>, i: nat)
    requires i <= |ps|
    ensures forall x :: x in Survivors(base, ps, i) <==> exists k :: 0 <= k < i && LastOfItsName(base, ps, k) && ps[k] == x
  {
    if i > 0 {
      SurvivorsMembers(base, ps, i - 1);
    }
  }

  /** No two kept paths share a basename. */
  lemma {:induction false} SurvivorsDistinct(base: string -> string, ps: seq<string>, i: nat)
    requires i <= |ps|
    ensures NoDup(Bases(base, Survivors(base, ps, i)))
  {
    if i > 0 {
      var s := Survivors(base, ps, i - 1);
      SurvivorsDistinct(base, ps, i - 1);
      if LastOfItsName(base, ps, i - 1) {
        SurvivorsMembers(base, ps, i - 1);
        forall b | b in Bases(base, s) ensures b != base(ps[i - 1]) {
          var m :| 0 <= m < |s| && Bases(base, s)[m] == b;
          assert s[m] in s;
        }
        assert Bases(base, s + [ps[i - 1]]) == Bases(base, s) + [base(ps[i - 1])];
        NoDupConcat(Bases(base, s), [base(ps[i - 1])]);
      } else {
        assert Survivors(base, ps, i) == s;
      }
    }
  }

  /** Every basename found is kept: its last path survives. */
  lemma {:induction false} SurvivorsCover(base: string -> string, ps: seq<string>, i: nat)
    requires i < |ps|
    ensures exists x :: x in Survivors(base, ps, |ps|) && base(x) == base(ps[i])
    decreases |ps| - i
  {
    if LastOfItsName(base, ps, i) {
      SurvivorsMembers(base, ps, |ps|);
      assert ps[i] in Survivors(base, ps, |ps|);
    } else {
      var j :| i < j < |ps| && base(ps[j]) == base(ps[i]);
      SurvivorsCover(base, ps, j);
    }
  }

  /** The basenames of a list of paths. */
  function Bases(base: string -> string, ps: seq<string>): (r: seq<string>)
    ensures |r| == |ps|
  {
    seq(|ps|, i requires 0 <= i < |ps| => base(ps[i]))
  }

  // ---------------------------------------------------------------------
  // Output files

  /** `transcript.split("\\")[-1][:-5]`: the file name without its
      `.html` extension. */
  function TranscriptName(path: string): string {
    var parts := Split(path, '\\');
    Head(parts[|parts| - 1], -5)
  }

  /** `os.path.join(directory, name)` with the Windows separator. */
  function Join(directory: string, name: string): string {
    directory + "\\" + name
  }

  function TreePath(directory: string, transcript: string): string {
    Join(directory, "Tree#" + TranscriptName(transcript) + ".txt")
  }

  function PuzzlePath(directory: string, transcript: string): string {
    Join(directory, "Puzzle#" + TranscriptName(transcript) + ".txt")
  }

  function TreePaths(directory: string, ts: seq<string>): set<string> {
    set t | t in ts :: TreePath(directory, t)
  }

  function PuzzlePaths(directory: string, ts: seq<string>): set<string> {
    set t | t in ts :: PuzzlePath(directory, t)
  }

  /** The site tree file of a transcript whose pipeline yields `paragraphs`. */
  function SiteTreeFile(name: string, paragraphs: seq<seq<Token>>, rank: Graph -> seq<Token>, kpp: int, kpl: int): string {
    Tree.SiteTreeText(name, Tree.TopWords(Tree.LectureGraph(Empty, paragraphs), rank, kpl),
                      Tree.Numbered([], Tree.ParagraphKeywords(Empty, paragraphs, rank, kpp)))
  }

  /** The path is the last of `ts` to write to the same file. */
  predicate LastWriter(directory: string, ts: seq<string>, i: nat)
    requires i < |ts|
  {
    forall j :: i < j < |ts| ==> TreePath(directory, ts[j]) != TreePath(directory, ts[i])
  }

  /** A transcript path ending in its name and `.html` gives that name back. */
  lemma TranscriptNameOf(directory: string, name: string)
    requires '\\' !in name
    ensures TranscriptName(directory + "\\" + name + ".html") == name
  {
    assert directory + "\\" + name + ".html" == directory + ['\\'] + (name + ".html");
    SplitLast(directory, '\\', name + ".html");
  }

  /** The last part of a split is the text after the last separator. */
  lemma {:induction false} SplitLast(a: string, c: char, b: string)
    requires c !in b
    ensures |Split(a + [c] + b, c)| >= 2
    ensures Split(a + [c] + b, c)[|Split(a + [c] + b, c)| - 1] == b
    decreases |a|
  {
    var s := a + [c] + b;
    if a == [] {
      assert s == [c] + b && s[1..] == b;
      assert Split(s, c) == [[]] + Split(b, c) == [[], b];
    } else {
      assert s[1..] == a[1..] + [c] + b;
      SplitLast(a[1..], c, b);
    }
  }

  /** The site tree text of one transcript. */
  function SiteTree(t: string, kpp: int, kpl: int, pipeline: string -> seq<seq<Token>>, rank: Graph -> seq<Token>): string {
    SiteTreeFile(TranscriptName(t), pipeline(t), rank, kpp, kpl)
  }

  /** The write of the site run for one transcript: its tree, over its file. */
  function SiteWrite(directory: string, t: string,
                     kpp: int, kpl: int, pipeline: string -> seq<seq<Token>>, rank: Graph -> seq<Token>): Write
  {
    Write(TreePath(directory, t), SiteTree(t, kpp, kpl, pipeline, rank), false)
  }

  /** The writes of the site run: the tree of each transcript, in turn. */
  function SiteWrites(directory: string, ts: seq<string>,
                      kpp: int, kpl: int, pipeline: string -> seq<seq<Token>>, rank: Graph -> seq<Token>): (r: seq<Write>)
    ensures |r| == |ts|
  {
    seq(|ts|, k requires 0 <= k < |ts| => SiteWrite(directory, ts[k], kpp, kpl, pipeline, rank))
  }

  lemma SiteWritesSnoc(directory: string, ts: seq<string>, i: nat,
                       kpp: int, kpl: int, pipeline: string -> seq<seq<Token>>, rank: Graph -> seq<Token>)
    requires i < |ts|
    ensures SiteWrites(directory, ts[..i + 1], kpp, kpl, pipeline, rank) ==
            SiteWrites(directory, ts[..i], kpp, kpl, pipeline, rank) + [SiteWrite(directory, ts[i], kpp, kpl, pipeline, rank)]
  {
  }

  /** The site `process_transcripts`: the trees of the transcripts, each
      written over its own file in turn. */
  method ProcessSite(fs: FileSystem, directory: string, transcripts: seq<string>, kpp: int, kpl: int,
                     pipeline: string -> seq<seq<Token>>, rank: Graph -> seq<Token>)
    returns (r: FileSystem)
    ensures r == ApplyAll(fs, SiteWrites(directory, transcripts, kpp, kpl, pipeline, rank))
  {
    r := fs;
    for i := 0 to |transcripts|
      invariant r == ApplyAll(fs, SiteWrites(directory, transcripts[..i], kpp, kpl, pipeline, rank))
    {
      r := TreeOfTranscript(r, directory, transcripts[i], kpp, kpl, pipeline, rank);
      SiteWritesSnoc(directory, transcripts, i, kpp, kpl, pipeline, rank);
      ApplyAllSnoc(fs, SiteWrites(directory, transcripts[..i], kpp, kpl, pipeline, rank),
                   SiteWrite(directory, transcripts[i], kpp, kpl, pipeline, rank));
    }
    assert transcripts[..|transcripts|] == transcripts;
  }

  /** What the site run leaves: every transcript's tree path is added and
      no other file changes; no puzzle file is made. */
  lemma SiteFiles(fs: FileSystem, directory: string, ts: seq<string>,
                  kpp: int, kpl: int, pipeline: string -> seq<seq<Token>>, rank: Graph -> seq<Token>)
    ensures ApplyAll(fs, SiteWrites(directory, ts, kpp, kpl, pipeline, rank)).Keys == fs.Keys + TreePaths(directory, ts)
    ensures forall p :: p in fs && p !in TreePaths(directory, ts) ==>
              ApplyAll(fs, SiteWrites(directory, ts, kpp, kpl, pipeline, rank))[p] == fs[p]
  {
    SitePaths(directory, ts, kpp, kpl, pipeline, rank);
    ApplyAllFiles(fs, SiteWrites(directory, ts, kpp, kpl, pipeline, rank));
  }

  lemma SitePaths(directory: string, ts: seq<string>,
                  kpp: int, kpl: int, pipeline: string -> seq<seq<Token>>, rank: Graph -> seq<Token>)
    ensures Paths(SiteWrites(directory, ts, kpp, kpl, pipeline, rank)) == TreePaths(directory, ts)
  {
    var ws := SiteWrites(directory, ts, kpp, kpl, pipeline, rank);
    forall p | p in TreePaths(directory, ts) ensures p in Paths(ws) {
      var k :| 0 <= k < |ts| && TreePath(directory, ts[k]) == p;
      assert ws[k] in ws;
    }
  }

  /** A tree path written more than once keeps the tree of the last
      transcript written to it. */
  lemma SiteLatest(fs: FileSystem, directory: string, ts: seq<string>, k: nat,
                   kpp: int, kpl: int, pipeline: string -> seq<seq<Token>>, rank: Graph -> seq<Token>)
    requires k < |ts| && LastWriter(directory, ts, k)
    ensures TreePath(directory, ts[k]) in ApplyAll(fs, SiteWrites(directory, ts, kpp, kpl, pipeline, rank))
    ensures ApplyAll(fs, SiteWrites(directory, ts, kpp, kpl, pipeline, rank))[TreePath(directory, ts[k])] ==
            SiteTree(ts[k], kpp, kpl, pipeline, rank)
  {
    ApplyAllLast(fs, SiteWrites(directory, ts, kpp, kpl, pipeline, rank), k);
  }

  /** One turn of the site loop: the tree of one transcript, analysed and
      written over its file. */
  method TreeOfTranscript(fs: FileSystem, directory: string, transcript: string, kpp: int, kpl: int,
                          pipeline: string -> seq<seq<Token>>, rank: Graph -> seq<Token>)
    returns (r: FileSystem)
    ensures r == Apply(fs, SiteWrite(directory, transcript, kpp, kpl, pipeline, rank))
  {
    var name := TranscriptName(transcript);
    var path := Join(directory, "Tree#" + name + ".txt");
    var tree := new Tree.TreeOfKnowledge(kpp, kpl, name, None);
    var paragraphs := pipeline(transcript);
    tree.Analysis(paragraphs, rank);
    assert [] + Tree.TopWords(tree.graph, rank, kpl) == Tree.TopWords(tree.graph, rank, kpl);
    r := tree.WriteSite(fs, path);
  }

  // ---------------------------------------------------------------------
  // The django run: a tree and a puzzle per transcript

  /** The django language pipeline yields the paragraphs and the title. */
  type Pipeline = string -> (seq<seq<Token>>, string)

  /** The django tree text of one transcript. */
  function DjangoTree(t: string, kpp: int, kpl: int, pipeline: Pipeline, rank: Graph -> seq<Token>): string {
    var (paragraphs, title) := pipeline(t);
    Tree.DjangoTreeText(TranscriptName(t), title, Tree.TopWords(Tree.LectureGraph(Empty, paragraphs), rank, kpl),
                        Tree.Numbered([], Tree.ParagraphKeywords(Empty, paragraphs, rank, kpp)))
  }

  /** The word graph `create_puzzle` builds from all paragraphs. */
  function PuzzleGraph(t: string, pipeline: Pipeline): Graph {
    BuildGraph(Empty, Flatten(pipeline(t).0))
  }

  /** The grid `create_puzzle` fills, and whether it ran out of words. */
  function PuzzleStage(t: string, dim: nat, pipeline: Pipeline, rank: Graph -> seq<Token>): Puzzle.Stage {
    RoadPy3Cells(dim);
    Puzzle.Lay(PuzzleGraph(t, pipeline), dim, Reverse(ForwardPy3(dim)), Puzzle.Ranked(rank, PuzzleGraph(t, pipeline)))
  }

  /** The django puzzle text of one transcript: the header, then the rows. */
  function DjangoPuzzle(t: string, dim: nat, pipeline: Pipeline, rank: Graph -> seq<Token>): string {
    pipeline(t).1 + "-" + NatToString(dim) + ":\n" +
    Rows(PuzzleGraph(t, pipeline).edges, PuzzleStage(t, dim, pipeline, rank).grid, dim, true, dim)
  }

  function TreeWrite(directory: string, t: string, kpp: int, kpl: int, pipeline: Pipeline, rank: Graph -> seq<Token>): Write {
    Write(TreePath(directory, t), DjangoTree(t, kpp, kpl, pipeline, rank), false)
  }

  function PuzzleWrite(directory: string, t: string, dim: nat, pipeline: Pipeline, rank: Graph -> seq<Token>): Write {
    Write(PuzzlePath(directory, t), DjangoPuzzle(t, dim, pipeline, rank), true)
  }

  /** The turn of the django loop for one transcript: the tree, then the
      puzzle unless `create_puzzle` raised. */
  function Lecture(directory: string, t: string, kpp: int, kpl: int, dim: nat,
                   pipeline: Pipeline, rank: Graph -> seq<Token>): Turn
  {
    Pair(TreeWrite(directory, t, kpp, kpl, pipeline, rank), PuzzleWrite(directory, t, dim, pipeline, rank),
         PuzzleStage(t, dim, pipeline, rank).outcome)
  }

  function TreeWrites(directory: string, ts: seq<string>, kpp: int, kpl: int,
                      pipeline: Pipeline, rank: Graph -> seq<Token>): (r: seq<Write>)
    ensures |r| == |ts|
  {
    seq(|ts|, k requires 0 <= k < |ts| => TreeWrite(directory, ts[k], kpp, kpl, pipeline, rank))
  }

  function PuzzleWrites(directory: string, ts: seq<string>, dim: nat,
                        pipeline: Pipeline, rank: Graph -> seq<Token>): (r: seq<Write>)
    ensures |r| == |ts|
  {
    seq(|ts|, k requires 0 <= k < |ts| => PuzzleWrite(directory, ts[k], dim, pipeline, rank))
  }

  function Stages(ts: seq<string>, dim: nat, pipeline: Pipeline, rank: Graph -> seq<Token>): (r: seq<Outcome>)
    ensures |r| == |ts|
  {
    seq(|ts|, k requires 0 <= k < |ts| => PuzzleStage(ts[k], dim, pipeline, rank).outcome)
  }

  /** The turns of the django loop, one per transcript. */
  function Lectures(directory: string, ts: seq<string>, kpp: int, kpl: int, dim: nat,
                    pipeline: Pipeline, rank: Graph -> seq<Token>): (r: seq<Turn>)
    ensures |r| == |ts|
  {
    Paired(TreeWrites(directory, ts, kpp, kpl, pipeline, rank), PuzzleWrites(directory, ts, dim, pipeline, rank),
          Stages(ts, dim, pipeline, rank))
  }

  lemma LecturesSnoc(directory: string, ts: seq<string>, i: nat, kpp: int, kpl: int, dim: nat,
                     pipeline: Pipeline, rank: Graph -> seq<Token>)
    requires i < |ts|
    ensures Lectures(directory, ts[..i + 1], kpp, kpl, dim, pipeline, rank) ==
            Lectures(directory, ts[..i], kpp, kpl, dim, pipeline, rank) + [Lecture(directory, ts[i], kpp, kpl, dim, pipeline, rank)]
  {
    TreeWritesSnoc(directory, ts, i, kpp, kpl, pipeline, rank);
    PuzzleWritesSnoc(directory, ts, i, dim, pipeline, rank);
    StagesSnoc(ts, i, dim, pipeline, rank);
    PairedSnoc(TreeWrites(directory, ts[..i + 1], kpp, kpl, pipeline, rank), PuzzleWrites(directory, ts[..i + 1], dim, pipeline, rank),
               Stages(ts[..i + 1], dim, pipeline, rank));
  }

  lemma TreeWritesSnoc(directory: string, ts: seq<string>, i: nat, kpp: int, kpl: int,
                       pipeline: Pipeline, rank: Graph -> seq<Token>)
    requires i < |ts|
    ensures TreeWrites(directory, ts[..i + 1], kpp, kpl, pipeline, rank) ==
            TreeWrites(directory, ts[..i], kpp, kpl, pipeline, rank) + [TreeWrite(directory, ts[i], kpp, kpl, pipeline, rank)]
  {
  }

  lemma PuzzleWritesSnoc(directory: string, ts: seq<string>, i: nat, dim: nat, pipeline: Pipeline, rank: Graph -> seq<Token>)
    requires i < |ts|
    ensures PuzzleWrites(directory, ts[..i + 1], dim, pipeline, rank) ==
            PuzzleWrites(directory, ts[..i], dim, pipeline, rank) + [PuzzleWrite(directory, ts[i], dim, pipeline, rank)]
  {
  }

  lemma StagesSnoc(ts: seq<string>, i: nat, dim: nat, pipeline: Pipeline, rank: Graph -> seq<Token>)
    requires i < |ts|
    ensures Stages(ts[..i + 1], dim, pipeline, rank) == Stages(ts[..i], dim, pipeline, rank) + [PuzzleStage(ts[i], dim, pipeline, rank).outcome]
  {
  }

  /** The words the pipeline finds never include the empty-cell mark. */
  ghost predicate Wordly(ts: seq<string>, pipeline: Pipeline) {
    forall i :: 0 <= i < |ts| ==> Blank !in Flatten(pipeline(ts[i]).0)
  }

  /** The django `process_transcripts`: transcript after transcript, the
      tree is written over its file and the puzzle appended to its own; an
      `IndexError` from `create_puzzle` ends the run after that transcript's
      tree. */
  method ProcessDjango(fs: FileSystem, directory: string, transcripts: seq<string>, kpp: int, kpl: int, dim: nat,
                       pipeline: Pipeline, rank: Graph -> seq<Token>)
    returns (r: FileSystem, outcome: Outcome)
    requires RankOracle(rank) && Wordly(transcripts, pipeline)
    ensures r == ApplyAll(fs, Run(Lectures(directory, transcripts, kpp, kpl, dim, pipeline, rank)).writes)
    ensures outcome == Run(Lectures(directory, transcripts, kpp, kpl, dim, pipeline, rank)).outcome
  {
    r, outcome := fs, Completed;
    var i := 0;
    while i < |transcripts|
      invariant i <= |transcripts|
      invariant Run(Lectures(directory, transcripts[..i], kpp, kpl, dim, pipeline, rank)).outcome == Completed
      invariant r == ApplyAll(fs, Run(Lectures(directory, transcripts[..i], kpp, kpl, dim, pipeline, rank)).writes)
      invariant outcome == Completed
    {
      ghost var before := r;
      r, outcome := LectureOfTranscript(r, directory, transcripts[i], kpp, kpl, dim, pipeline, rank);
      LectureDone(fs, before, r, directory, transcripts, i, kpp, kpl, dim, pipeline, rank);
      if outcome.Raised? {
        LecturesStop(directory, transcripts, i + 1, kpp, kpl, dim, pipeline, rank);
        return;
      }
      i := i + 1;
    }
    assert transcripts[..i] == transcripts;
  }

  /** The django loop's account after one more transcript. */
  lemma LectureDone(fs: FileSystem, before: FileSystem, r: FileSystem, directory: string, ts: seq<string>, i: nat,
                    kpp: int, kpl: int, dim: nat, pipeline: Pipeline, rank: Graph -> seq<Token>)
    requires i < |ts|
    requires Run(Lectures(directory, ts[..i], kpp, kpl, dim, pipeline, rank)).outcome == Completed
    requires before == ApplyAll(fs, Run(Lectures(directory, ts[..i], kpp, kpl, dim, pipeline, rank)).writes)
    requires r == ApplyAll(before, Lecture(directory, ts[i], kpp, kpl, dim, pipeline, rank).writes)
    ensures Run(Lectures(directory, ts[..i + 1], kpp, kpl, dim, pipeline, rank)).outcome ==
            Lecture(directory, ts[i], kpp, kpl, dim, pipeline, rank).outcome
    ensures r == ApplyAll(fs, Run(Lectures(directory, ts[..i + 1], kpp, kpl, dim, pipeline, rank)).writes)
  {
    LecturesSnoc(directory, ts, i, kpp, kpl, dim, pipeline, rank);
    RunSnoc(fs, Lectures(directory, ts[..i], kpp, kpl, dim, pipeline, rank), Lecture(directory, ts[i], kpp, kpl, dim, pipeline, rank));
  }

  /** A run that raised at transcript `i - 1` is the whole run. */
  lemma LecturesStop(directory: string, ts: seq<string>, i: nat,
                     kpp: int, kpl: int, dim: nat, pipeline: Pipeline, rank: Graph -> seq<Token>)
    requires i <= |ts| && Run(Lectures(directory, ts[..i], kpp, kpl, dim, pipeline, rank)).outcome.Raised?
    ensures Run(Lectures(directory, ts, kpp, kpl, dim, pipeline, rank)) == Run(Lectures(directory, ts[..i], kpp, kpl, dim, pipeline, rank))
  {
    assert Lectures(directory, ts, kpp, kpl, dim, pipeline, rank)[..i] == Lectures(directory, ts[..i], kpp, kpl, dim, pipeline, rank);
    RunStops(Lectures(directory, ts, kpp, kpl, dim, pipeline, rank), i);
  }

  /** One turn of the django loop: the tree, then the puzzle. */
  method LectureOfTranscript(fs: FileSystem, directory: string, transcript: string, kpp: int, kpl: int, dim: nat,
                             pipeline: Pipeline, rank: Graph -> seq<Token>)
    returns (r: FileSystem, outcome: Outcome)
    requires RankOracle(rank) && Blank !in Flatten(pipeline(transcript).0)
    ensures r == ApplyAll(fs, Lecture(directory, transcript, kpp, kpl, dim, pipeline, rank).writes)
    ensures outcome == Lecture(directory, transcript, kpp, kpl, dim, pipeline, rank).outcome
  {
    PairApply(fs, TreeWrite(directory, transcript, kpp, kpl, pipeline, rank), PuzzleWrite(directory, transcript, dim, pipeline, rank),
              PuzzleStage(transcript, dim, pipeline, rank).outcome);
    var name := TranscriptName(transcript);
    var (paragraphs, title) := pipeline(transcript);
    var tree := new Tree.TreeOfKnowledge(kpp, kpl, name, None);
    tree.AnalysisWithTitle(paragraphs, title, rank);
    assert [] + Tree.TopWords(tree.graph, rank, kpl) == Tree.TopWords(tree.graph, rank, kpl);
    var treeOutcome;
    r, treeOutcome := tree.WriteDjango(fs, Join(directory, "Tree#" + name + ".txt"));
    var puzzle := new Puzzle.PuzzleOfKnowledge(name, dim, None);
    outcome := puzzle.CreatePuzzle(paragraphs, title, rank);
    if outcome.Raised? {
      return;
    }
    RoadPy3Cells(dim);
    BuildGraphValid(Empty, Flatten(paragraphs));
    Puzzle.ReadyToWrite(puzzle.graph, dim, Reverse(ForwardPy3(dim)), rank(puzzle.graph));
    r, outcome := puzzle.WriteDjango(r, Join(directory, "Puzzle#" + name + ".txt"));
  }

  // ---------------------------------------------------------------------
  // What the django run leaves

  /** A run that did not raise made, for every transcript in turn, a puzzle
      that did not run out of words, and wrote its tree and then its puzzle. */
  lemma DjangoCompleted(directory: string, ts: seq<string>, kpp: int, kpl: int, dim: nat,
                        pipeline: Pipeline, rank: Graph -> seq<Token>)
    requires Run(Lectures(directory, ts, kpp, kpl, dim, pipeline, rank)).outcome == Completed
    ensures forall k :: 0 <= k < |ts| ==> PuzzleStage(ts[k], dim, pipeline, rank).outcome == Completed
    ensures Run(Lectures(directory, ts, kpp, kpl, dim, pipeline, rank)).writes ==
            Interleave(TreeWrites(directory, ts, kpp, kpl, pipeline, rank), PuzzleWrites(directory, ts, dim, pipeline, rank))
  {
    var os := Stages(ts, dim, pipeline, rank);
    PairsCompleted(TreeWrites(directory, ts, kpp, kpl, pipeline, rank), PuzzleWrites(directory, ts, dim, pipeline, rank), os);
    forall k | 0 <= k < |ts| ensures PuzzleStage(ts[k], dim, pipeline, rank).outcome == Completed {
      assert os[k] == Completed;
    }
  }

  /** A tree path never names a puzzle file. */
  lemma TreeNotPuzzle(directory: string, a: string, b: string)
    ensures TreePath(directory, a) != PuzzlePath(directory, b)
  {
    assert TreePath(directory, a)[|directory| + 1] == 'T';
    assert PuzzlePath(directory, b)[|directory| + 1] == 'P';
  }

  /** The files the tree and puzzle writes go to. */
  lemma WritesPaths(directory: string, ts: seq<string>, kpp: int, kpl: int, dim: nat,
                    pipeline: Pipeline, rank: Graph -> seq<Token>)
    ensures Paths(TreeWrites(directory, ts, kpp, kpl, pipeline, rank)) == TreePaths(directory, ts)
    ensures Paths(PuzzleWrites(directory, ts, dim, pipeline, rank)) == PuzzlePaths(directory, ts)
  {
    var a, b := TreeWrites(directory, ts, kpp, kpl, pipeline, rank), PuzzleWrites(directory, ts, dim, pipeline, rank);
    forall p | p in TreePaths(directory, ts) ensures p in Paths(a) {
      var k :| 0 <= k < |ts| && p == TreePath(directory, ts[k]);
      assert a[k] in a;
    }
    forall p | p in PuzzlePaths(directory, ts) ensures p in Paths(b) {
      var k :| 0 <= k < |ts| && p == PuzzlePath(directory, ts[k]);
      assert b[k] in b;
    }
  }

  /** After a run that did not raise, the files are the old ones plus a
      tree file and a puzzle file per transcript; nothing else changed. */
  lemma DjangoFiles(fs: FileSystem, directory: string, ts: seq<string>, kpp: int, kpl: int, dim: nat,
                    pipeline: Pipeline, rank: Graph -> seq<Token>)
    requires Run(Lectures(directory, ts, kpp, kpl, dim, pipeline, rank)).outcome == Completed
    ensures ApplyAll(fs, Run(Lectures(directory, ts, kpp, kpl, dim, pipeline, rank)).writes).Keys ==
            fs.Keys + TreePaths(directory, ts) + PuzzlePaths(directory, ts)
    ensures forall p :: p in fs && p !in TreePaths(directory, ts) && p !in PuzzlePaths(directory, ts) ==>
              ApplyAll(fs, Run(Lectures(directory, ts, kpp, kpl, dim, pipeline, rank)).writes)[p] == fs[p]
  {
    var a, b := TreeWrites(directory, ts, kpp, kpl, pipeline, rank), PuzzleWrites(directory, ts, dim, pipeline, rank);
    PairedFiles(fs, a, b, Stages(ts, dim, pipeline, rank));
    WritesPaths(directory, ts, kpp, kpl, dim, pipeline, rank);
  }

  /** After a run that did not raise, a tree path holds the tree of the last
      transcript written to it. */
  lemma DjangoTreeLatest(fs: FileSystem, directory: string, ts: seq<string>, k: nat, kpp: int, kpl: int, dim: nat,
                         pipeline: Pipeline, rank: Graph -> seq<Token>)
    requires Run(Lectures(directory, ts, kpp, kpl, dim, pipeline, rank)).outcome == Completed
    requires k < |ts| && LastWriter(directory, ts, k)
    ensures TreePath(directory, ts[k]) in ApplyAll(fs, Run(Lectures(directory, ts, kpp, kpl, dim, pipeline, rank)).writes)
    ensures ApplyAll(fs, Run(Lectures(directory, ts, kpp, kpl, dim, pipeline, rank)).writes)[TreePath(directory, ts[k])] ==
            DjangoTree(ts[k], kpp, kpl, pipeline, rank)
  {
    var a, b := TreeWrites(directory, ts, kpp, kpl, pipeline, rank), PuzzleWrites(directory, ts, dim, pipeline, rank);
    PairsCompleted(a, b, Stages(ts, dim, pipeline, rank));
    forall j | 0 <= j < |b| ensures b[j].path != a[k].path {
      TreeNotPuzzle(directory, ts[k], ts[j]);
    }
    InterleaveLast(fs, a, b, k);
  }

  /** After a run that did not raise, the puzzle file of a transcript no
      other transcript shares holds what it held before followed by that
      transcript's puzzle. */
  lemma DjangoPuzzleAppended(fs: FileSystem, directory: string, ts: seq<string>, k: nat, kpp: int, kpl: int, dim: nat,
                             pipeline: Pipeline, rank: Graph -> seq<Token>)
    requires Run(Lectures(directory, ts, kpp, kpl, dim, pipeline, rank)).outcome == Completed
    requires k < |ts| && forall j :: 0 <= j < |ts| && j != k ==> PuzzlePath(directory, ts[j]) != PuzzlePath(directory, ts[k])
    ensures Contents(ApplyAll(fs, Run(Lectures(directory, ts, kpp, kpl, dim, pipeline, rank)).writes), PuzzlePath(directory, ts[k])) ==
            Contents(fs, PuzzlePath(directory, ts[k])) + DjangoPuzzle(ts[k], dim, pipeline, rank)
  {
    var a, b := TreeWrites(directory, ts, kpp, kpl, pipeline, rank), PuzzleWrites(directory, ts, dim, pipeline, rank);
    PairsCompleted(a, b, Stages(ts, dim, pipeline, rank));
    forall j | 0 <= j < |a| ensures a[j].path != b[k].path {
      TreeNotPuzzle(directory, ts[j], ts[k]);
    }
    InterleaveOnly(fs, a, b, k);
  }

  /** A run that raised did so with `IndexError`, at the first transcript
      whose puzzle ran out of words, after writing the trees and puzzles of
      the ones before it and then its tree. */
  lemma DjangoRaised(directory: string, ts: seq<string>, kpp: int, kpl: int, dim: nat,
                     pipeline: Pipeline, rank: Graph -> seq<Token>)
    requires RankOracle(rank)
    requires Run(Lectures(directory, ts, kpp, kpl, dim, pipeline, rank)).outcome.Raised?
    ensures Run(Lectures(directory, ts, kpp, kpl, dim, pipeline, rank)).outcome == Raised(IndexError)
    ensures exists k :: 0 <= k < |ts| && PuzzleStage(ts[k], dim, pipeline, rank).outcome.Raised? &&
              (forall j :: 0 <= j < k ==> PuzzleStage(ts[j], dim, pipeline, rank).outcome == Completed) &&
              Run(Lectures(directory, ts, kpp, kpl, dim, pipeline, rank)).writes ==
              Interleave(TreeWrites(directory, ts, kpp, kpl, pipeline, rank)[..k], PuzzleWrites(directory, ts, dim, pipeline, rank)[..k]) +
              [TreeWrite(directory, ts[k], kpp, kpl, pipeline, rank)]
  {
    var a, b, os := TreeWrites(directory, ts, kpp, kpl, pipeline, rank), PuzzleWrites(directory, ts, dim, pipeline, rank),
                    Stages(ts, dim, pipeline, rank);
    PairsRaised(a, b, os);
    var k :| 0 <= k < |os| && os[k] == Run(Paired(a, b, os)).outcome &&
             (forall j :: 0 <= j < k ==> os[j] == Completed) &&
             Run(Paired(a, b, os)).writes == Interleave(a[..k], b[..k]) + [a[k]];
    StageRaises(ts[k], dim, pipeline, rank);
    forall j | 0 <= j < k ensures PuzzleStage(ts[j], dim, pipeline, rank).outcome == Completed {
      assert os[j] == Completed;
    }
    assert os[k] == PuzzleStage(ts[k], dim, pipeline, rank).outcome;
    assert a[k] == TreeWrite(directory, ts[k], kpp, kpl, pipeline, rank);
  }

  /** `create_puzzle` only ever raises `IndexError`. */
  lemma StageRaises(t: string, dim: nat, pipeline: Pipeline, rank: Graph -> seq<Token>)
    requires RankOracle(rank)
    ensures PuzzleStage(t, dim, pipeline, rank).outcome.Raised? ==> PuzzleStage(t, dim, pipeline, rank).outcome.error == IndexError
  {
    RoadPy3Cells(dim);
    Puzzle.PuzzleFacts(PuzzleGraph(t, pipeline), dim, Reverse(ForwardPy3(dim)), rank(PuzzleGraph(t, pipeline)));
  }
}
