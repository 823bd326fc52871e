/** The Tree of Knowledge: the keywords of each paragraph of a lecture and of
    the whole lecture, picked by ranking word-adjacency graphs, and the text
    file they are written to.

    Both copies of the class share `analysis`; the copy in the django
    application also records the lecture title its pipeline returns, the
    other copy has no title at all (`lectureTitle` stays `None`). */
module Tree {
  import opened Lists
  import opened Strings
  import opened Dicts
  import opened WordGraph
  import opened Exceptions
  import opened Files

  type Keywords = Dict<nat, seq<Token>>

  // ---------------------------------------------------------------------
  // What `analysis` computes

  /** The graph paragraph `p` is ranked on: the first paragraph is added to
      whatever graph the tree held, every later one to the fresh graph that
      replaced it after the previous ranking. */
  function ParagraphGraph(g0: Graph, ps: seq<seq<Token>>, p: nat): Graph
    requires p < |ps|
  {
    BuildGraph(if p == 0 then g0 else Empty, ps[p])
  }

  /** The graph the lecture is ranked on: all paragraphs, one after another. */
  function LectureGraph(g0: Graph, ps: seq<seq<Token>>): Graph {
    BuildGraph(if ps == [] then g0 else Empty, Flatten(ps))
  }

  /** `sorted(pagerank(g), ...)[:d]`: the `d` best-ranked words of `g`. */
  function TopWords(g: Graph, rank: Graph -> seq<Token>, d: int): seq<Token> {
    Head(rank(g), d)
  }

  /** The keywords kept for each paragraph, in paragraph order. */
  function ParagraphKeywords(g0: Graph, ps: seq<seq<Token>>, rank: Graph -> seq<Token>, d: int): (r: seq<seq<Token>>)
    ensures |r| == |ps|
  {
    seq(|ps|, p requires 0 <= p < |ps| => TopWords(ParagraphGraph(g0, ps, p), rank, d))
  }

  /** The dictionary after `kws[i]` has been stored under the key `i + 1`,
      for each `i` in turn. */
  function Numbered(d: Keywords, kws: seq<seq<Token>>): Keywords {
    if kws == [] then d
    else Put<nat, seq<Token>>(Numbered(d, kws[..|kws| - 1]), |kws|, kws[|kws| - 1])
  }

  // ---------------------------------------------------------------------
  // The file written by `write_to_file`

  /** Each keyword written as a bytes literal followed by a space. */
  function QuotedWords(ks: seq<Token>): string {
    if ks == [] then ""
    else QuotedWords(ks[..|ks| - 1]) + Quoted(ks[|ks| - 1]) + " "
  }

  /** Each keyword written as it is, followed by a space. */
  function PlainWords(ks: seq<Token>): string {
    if ks == [] then ""
    else PlainWords(ks[..|ks| - 1]) + ks[|ks| - 1] + " "
  }

  /** The line that opens the keywords of paragraph `p`. */
  function ParagraphHeader(p: nat): string {
    "\n--------" + NatToString(p) + " paragraph: "
  }

  /** One block per dictionary entry, in key order. */
  function ParagraphBlocks(d: Keywords): string {
    if d == [] then ""
    else ParagraphBlocks(d[..|d| - 1]) + ParagraphHeader(d[|d| - 1].0) + QuotedWords(d[|d| - 1].1)
  }

  /** The tree file of the django application. */
  function DjangoTreeText(name: string, title: string, lecture: seq<Token>, d: Keywords): string {
    "\n" + name + "-" + title + ":" + "\n--------Lecture: " + QuotedWords(lecture) + ParagraphBlocks(d)
  }

  /** The tree file of the site application: the lecture keywords follow the
      name directly and are written plain; the paragraph keywords are bytes
      literals, as in the django file. */
  function SiteTreeText(name: string, lecture: seq<Token>, d: Keywords): string {
    "\n" + name + ":" + PlainWords(lecture) + ParagraphBlocks(d)
  }

  /** Writes `ks` one by one after `text`, as bytes literals. */
  method WriteQuoted(text: string, ks: seq<Token>) returns (r: string)
    ensures r == text + QuotedWords(ks)
  {
    r := text;
    var i := 0;
    while i < |ks|
      invariant i <= |ks|
      invariant r == text + QuotedWords(ks[..i])
    {
      assert ks[..i + 1][..i] == ks[..i];
      r := r + Quoted(ks[i]) + " ";
      i := i + 1;
    }
    assert ks[..i] == ks;
  }

  /** Writes `ks` one by one after `text`, as they are. */
  method WritePlain(text: string, ks: seq<Token>) returns (r: string)
    ensures r == text + PlainWords(ks)
  {
    r := text;
    var i := 0;
    while i < |ks|
      invariant i <= |ks|
      invariant r == text + PlainWords(ks[..i])
    {
      assert ks[..i + 1][..i] == ks[..i];
      r := r + ks[i] + " ";
      i := i + 1;
    }
    assert ks[..i] == ks;
  }

  /** One paragraph's block: its header, then its keywords. */
  method WriteBlock(text: string, p: nat, ks: seq<Token>) returns (r: string)
    ensures r == text + (ParagraphHeader(p) + QuotedWords(ks))
  {
    r := WriteQuoted(text + ParagraphHeader(p), ks);
    Associative(text, ParagraphHeader(p), QuotedWords(ks));
  }

  lemma BlocksSnoc(d: Keywords, i: nat)
    requires i < |d|
    ensures ParagraphBlocks(d[..i + 1]) == ParagraphBlocks(d[..i]) + (ParagraphHeader(d[i].0) + QuotedWords(d[i].1))
  {
    assert d[..i + 1][..i] == d[..i];
    Associative(ParagraphBlocks(d[..i]), ParagraphHeader(d[i].0), QuotedWords(d[i].1));
  }

  /** The loop over `lecture_keywords_per_paragraph.keys()`, looking each key
      up again. */
  method WriteBlocks(text: string, d: Keywords) returns (r: string)
    requires Unique(d)
    ensures r == text + ParagraphBlocks(d)
  {
    r := text;
    var keys := Keys(d);
    var i := 0;
    while i < |keys|
      invariant i <= |keys| == |d|
      invariant r == text + ParagraphBlocks(d[..i])
    {
      var p := keys[i];
      GetAt(d, i);
      var ks := Get(d, p).value;
      BlocksSnoc(d, i);
      Associative(text, ParagraphBlocks(d[..i]), ParagraphHeader(p) + QuotedWords(ks));
      r := WriteBlock(r, p, ks);
      i := i + 1;
    }
    assert d[..i] == d;
  }

  lemma PrefixSnoc<T>(s: seq<T>, i: nat)
    requires i < |s|
    ensures s[..i + 1] == s[..i] + [s[i]]
  {
  }

  lemma NumberedSnoc(d: Keywords, kws: seq<seq<Token>>, c: nat)
    requires c < |kws|
    ensures Numbered(d, kws[..c + 1]) == Put<nat, seq<Token>>(Numbered(d, kws[..c]), c + 1, kws[c])
  {
    var k := kws[..c + 1];
    assert k[..|k| - 1] == kws[..c];
    assert k[|k| - 1] == kws[c];
  }

  // ---------------------------------------------------------------------
  // What a fresh tree ends up holding

  /** The entries `{1: kws[0], 2: kws[1], ...}` in this order. */
  function Enumerated(kws: seq<seq<Token>>): Keywords {
    seq(|kws|, i requires 0 <= i < |kws| => (i + 1, kws[i]))
  }

  /** Numbering from an empty dictionary gives the keys 1, 2, ... in order,
      each with its paragraph's keywords. */
  lemma {:induction false} NumberedFresh(kws: seq<seq<Token>>)
    ensures Numbered([], kws) == Enumerated(kws)
  {
    if kws != [] {
      NumberedFresh(kws[..|kws| - 1]);
      EnumeratedSnoc(kws);
    }
  }

  lemma EnumeratedSnoc(kws: seq<seq<Token>>)
    requires kws != []
    ensures Put<nat, seq<Token>>(Enumerated(kws[..|kws| - 1]), |kws|, kws[|kws| - 1]) == Enumerated(kws)
  {
    var n := |kws|;
    var q := Enumerated(kws[..n - 1]);
    assert n !in Keys(q) by {
      forall i | 0 <= i < |q| ensures Keys(q)[i] != n {
        assert Keys(q)[i] == i + 1;
      }
    }
    assert q + [(n, kws[n - 1])] == Enumerated(kws);
  }

  /** No key is numbered twice, and key `p` holds paragraph `p`'s keywords. */
  lemma EnumeratedGet(kws: seq<seq<Token>>)
    ensures Unique(Enumerated(kws))
    ensures forall p: nat :: 1 <= p <= |kws| ==> Get(Enumerated(kws), p) == Some(kws[p - 1])
  {
    var e := Enumerated(kws);
    assert Unique(e) by {
      forall i, j | 0 <= i < j < |e| ensures Keys(e)[i] != Keys(e)[j] {
        assert Keys(e)[i] == i + 1 && Keys(e)[j] == j + 1;
      }
    }
    forall p: nat | 1 <= p <= |kws| ensures Get(e, p) == Some(kws[p - 1]) {
      GetAt(e, p - 1);
      assert e[p - 1] == (p, kws[p - 1]);
    }
  }

  /** The keywords kept for paragraph `p` are distinct words of the graph it
      was ranked on, as many as the dimension allows. */
  lemma ParagraphKeywordsOfGraph(g0: Graph, ps: seq<seq<Token>>, rank: Graph -> seq<Token>, d: int, p: nat)
    requires RankOracle(rank) && p < |ps|
    ensures NoDup(ParagraphKeywords(g0, ps, rank, d)[p])
    ensures forall w :: w in ParagraphKeywords(g0, ps, rank, d)[p] ==> w in ParagraphGraph(g0, ps, p).nodes
    ensures 0 <= d ==>
      |ParagraphKeywords(g0, ps, rank, d)[p]| ==
      if d < |ParagraphGraph(g0, ps, p).nodes| then d else |ParagraphGraph(g0, ps, p).nodes|
  {
    var g := ParagraphGraph(g0, ps, p);
    KeywordsOfRanking(rank(g), g, d);
  }

  /** The lecture keywords are distinct words of the lecture graph. */
  lemma LectureKeywordsOfGraph(g0: Graph, ps: seq<seq<Token>>, rank: Graph -> seq<Token>, d: int)
    requires RankOracle(rank)
    ensures NoDup(TopWords(LectureGraph(g0, ps), rank, d))
    ensures forall w :: w in TopWords(LectureGraph(g0, ps), rank, d) ==> w in LectureGraph(g0, ps).nodes
  {
    var g := LectureGraph(g0, ps);
    KeywordsOfRanking(rank(g), g, d);
  }

  /** In a fresh tree every paragraph keyword is also a word of the lecture
      graph, and is never the full stop. */
  lemma ParagraphKeywordsInLecture(ps: seq<seq<Token>>, rank: Graph -> seq<Token>, d: int, p: nat)
    requires RankOracle(rank) && p < |ps|
    ensures forall w :: w in ParagraphKeywords(Empty, ps, rank, d)[p] ==>
      w in LectureGraph(Empty, ps).nodes && w != FullStop
  {
    ParagraphKeywordsOfGraph(Empty, ps, rank, d, p);
    ParagraphGraphWithinLecture(ps, p);
  }

  class TreeOfKnowledge {
    var name: string
    var lectureTitle: Option<string>
    var paragraphDimension: int
    var lectureDimension: int
    var lectureKeywords: seq<Token>
    var keywordsPerParagraph: Keywords
    var graph: Graph

    /** The graph is a networkx graph and no paragraph number is stored twice. */
    ghost predicate Valid()
      reads this
    {
      WordGraph.Valid(graph) && Unique(keywordsPerParagraph)
    }

    /** `TreeOfKnowledge(paragraph_dimension, lecture_dimension, name, path, title)`. */
    constructor (paragraphDimension: int, lectureDimension: int, name: string, title: Option<string>)
      ensures Valid()
      ensures this.name == name && lectureTitle == title
      ensures this.paragraphDimension == paragraphDimension && this.lectureDimension == lectureDimension
      ensures lectureKeywords == [] && keywordsPerParagraph == [] && graph == Empty
    {
      this.name := name;
      lectureTitle := title;
      this.paragraphDimension := paragraphDimension;
      this.lectureDimension := lectureDimension;
      lectureKeywords := [];
      keywordsPerParagraph := [];
      graph := Empty;
    }

    /** `add_lecture_keywords`: extends, never replaces. */
    method AddLectureKeywords(keywords: seq<Token>)
      modifies this
      ensures lectureKeywords == old(lectureKeywords) + keywords
      ensures name == old(name) && lectureTitle == old(lectureTitle) && graph == old(graph)
      ensures paragraphDimension == old(paragraphDimension) && lectureDimension == old(lectureDimension)
      ensures keywordsPerParagraph == old(keywordsPerParagraph)
    {
      lectureKeywords := lectureKeywords + keywords;
    }

    /** `add_lecture_keywords_per_paragraph`: one dictionary assignment. */
    method AddKeywordsPerParagraph(paragraph: nat, keywords: seq<Token>)
      modifies this
      ensures keywordsPerParagraph == Put<nat, seq<Token>>(old(keywordsPerParagraph), paragraph, keywords)
      ensures name == old(name) && lectureTitle == old(lectureTitle) && graph == old(graph)
      ensures paragraphDimension == old(paragraphDimension) && lectureDimension == old(lectureDimension)
      ensures lectureKeywords == old(lectureKeywords)
    {
      keywordsPerParagraph := Put(keywordsPerParagraph, paragraph, keywords);
    }

    /** One turn of the paragraph loop of `analysis`: the paragraph is added
        to the graph, the graph is ranked and replaced by an empty one, and
        the best keywords are stored under the paragraph's number. */
    method RankParagraph(counter: nat, words: seq<Token>, rank: Graph -> seq<Token>, ghost keywords: seq<Token>)
      requires Valid()
      requires keywords == TopWords(BuildGraph(graph, words), rank, paragraphDimension)
      modifies this
      ensures Valid() && graph == Empty
      ensures keywordsPerParagraph == Put<nat, seq<Token>>(old(keywordsPerParagraph), counter, keywords)
      ensures name == old(name) && lectureTitle == old(lectureTitle)
      ensures paragraphDimension == old(paragraphDimension) && lectureDimension == old(lectureDimension)
      ensures lectureKeywords == old(lectureKeywords)
    {
      graph := TextToGraph(graph, words);
      var kept := TopWords(graph, rank, paragraphDimension);
      graph := Empty;
      PutUnique(keywordsPerParagraph, counter, kept);
      AddKeywordsPerParagraph(counter, kept);
    }

    /** `analysis` over the paragraphs the language pipeline returned: every
        paragraph is ranked on its own graph and its keywords are stored under
        its number from 1; then all paragraphs together are ranked and the
        lecture keywords are appended. */
    method Analysis(paragraphs: seq<seq<Token>>, rank: Graph -> seq<Token>)
      requires Valid()
      modifies this
      ensures Valid()
      ensures keywordsPerParagraph ==
        Numbered(old(keywordsPerParagraph), ParagraphKeywords(old(graph), paragraphs, rank, paragraphDimension))
      ensures graph == LectureGraph(old(graph), paragraphs)
      ensures lectureKeywords == old(lectureKeywords) + TopWords(graph, rank, lectureDimension)
      ensures name == old(name) && lectureTitle == old(lectureTitle)
      ensures paragraphDimension == old(paragraphDimension) && lectureDimension == old(lectureDimension)
    {
      ghost var g0 := graph;
      ghost var d0 := keywordsPerParagraph;
      ghost var kws := ParagraphKeywords(g0, paragraphs, rank, paragraphDimension);
      var lectureWords: seq<Token> := [];
      var counter: nat := 0;
      while counter < |paragraphs|
        invariant counter <= |paragraphs|
        invariant lectureWords == Flatten(paragraphs[..counter])
        invariant graph == if counter == 0 then g0 else Empty
        invariant Valid()
        invariant keywordsPerParagraph == Numbered(d0, kws[..counter])
        invariant name == old(name) && lectureTitle == old(lectureTitle)
        invariant paragraphDimension == old(paragraphDimension) && lectureDimension == old(lectureDimension)
        invariant lectureKeywords == old(lectureKeywords)
      {
        var words := paragraphs[counter];
        assert kws[counter] == TopWords(BuildGraph(graph, words), rank, paragraphDimension);
        PrefixSnoc(paragraphs, counter);
        FlattenSnoc(paragraphs[..counter], words);
        NumberedSnoc(d0, kws, counter);
        ghost var kw := kws[counter];
        counter := counter + 1;
        lectureWords := lectureWords + words;
        RankParagraph(counter, words, rank, kw);
      }
      assert paragraphs[..counter] == paragraphs;
      assert kws[..counter] == kws;
      graph := TextToGraph(graph, lectureWords);
      AddLectureKeywords(TopWords(graph, rank, lectureDimension));
    }

    /** The django `analysis`: the same, after recording the title. */
    method AnalysisWithTitle(paragraphs: seq<seq<Token>>, title: string, rank: Graph -> seq<Token>)
      requires Valid()
      modifies this
      ensures Valid()
      ensures lectureTitle == Some(title)
      ensures keywordsPerParagraph ==
        Numbered(old(keywordsPerParagraph), ParagraphKeywords(old(graph), paragraphs, rank, paragraphDimension))
      ensures graph == LectureGraph(old(graph), paragraphs)
      ensures lectureKeywords == old(lectureKeywords) + TopWords(graph, rank, lectureDimension)
      ensures name == old(name)
      ensures paragraphDimension == old(paragraphDimension) && lectureDimension == old(lectureDimension)
    {
      lectureTitle := Some(title);
      Analysis(paragraphs, rank);
    }

    /** The django `write_to_file`: the file is opened for writing, which
        empties it, before the title is needed; without a title the first
        write fails. */
    method WriteDjango(fs: FileSystem, path: string) returns (r: FileSystem, outcome: Outcome)
      requires Valid()
      ensures lectureTitle.None? ==> r == Overwrite(fs, path, "") && outcome == Raised(TypeError)
      ensures lectureTitle.Some? ==> outcome == Completed
      ensures lectureTitle.Some? ==>
        r == Overwrite(fs, path, DjangoTreeText(name, lectureTitle.value, lectureKeywords, keywordsPerParagraph))
    {
      if lectureTitle.None? {
        return Overwrite(fs, path, ""), Raised(TypeError);
      }
      var text := "\n" + name + "-" + lectureTitle.value + ":";
      text := text + "\n--------Lecture: ";
      text := WriteQuoted(text, lectureKeywords);
      text := WriteBlocks(text, keywordsPerParagraph);
      return Overwrite(fs, path, text), Completed;
    }

    /** The site `write_to_file`. */
    method WriteSite(fs: FileSystem, path: string) returns (r: FileSystem)
      requires Valid()
      ensures r == Overwrite(fs, path, SiteTreeText(name, lectureKeywords, keywordsPerParagraph))
    {
      var text := "\n" + name + ":";
      text := WritePlain(text, lectureKeywords);
      text := WriteBlocks(text, keywordsPerParagraph);
      return Overwrite(fs, path, text);
    }
  }
}
