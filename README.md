# edunet keyword pipeline, modelled in Dafny

edunet turns the lecture transcripts of Open Yale Courses into two study aids.

- The **Tree of Knowledge** holds each lecture's most central keywords and the most central keywords of each paragraph.
- The **Puzzle of Knowledge** is an N×N grid of keywords. Neighbouring pieces carry `up`/`down` tags that show whether the words follow each other in the text.

Both are computed by the `course_processor` module and written to text files. The `utils` module reads those files back for the web pages and builds the course download links.

The repository holds two copies of each module:

- `django-edunet/edunet/utils/` is **Python 3 code**.
- `edunet_site/edunet/utils/` is **Python 3 code** too. Its `course_processor.py` opens files with `encoding='utf-8'` (line 26) and calls `glob.glob(..., recursive=True)` (line 430). Its `utils.py` relies on dictionaries keeping insertion order.
- The site puzzle code (`course_processor.py`:129-301) is written in Python 2 idiom: `range(...).reverse()`, `keys()[0]`, integer `/`. Under Python 3 it would raise. It is never run: the only call to it sits inside a string literal (lines 472-478). The model gives it its Python 2 reading.

The copies differ in ways the model keeps apart. Each operation is modelled per copy where they differ.

## What is modelled

- **Word graph** (`word_graph.dfy`).
  - `text_to_graph` is a loop over a graph value of nodes and directed edges. Weights are always re-set to 1, so a set of edges is exact.
  - It is proved equal to a declarative description, and shown to keep graphs valid.
  - `nx.pagerank` enters as an oracle: a function from a graph to a duplicate-free list of exactly its nodes. Only that order is ever used.
- **Tree of Knowledge** (`tree.dfy`, `tree_file.dfy`).
  - `TreeOfKnowledge` is a class whose fields the methods update. `analysis` is the paragraph loop: a fresh graph per paragraph, then one graph over all words. Both `write_to_file` writers are modelled on a file system value.
  - The django Tree file is proved to read back through `get_tree_dict` to its title, its lecture keywords and one entry per paragraph, up to stop words and the reader's filters. There are three exceptions. A keyword ending in `b` loses that `b`. A title holding `:` is cut at its first `:`. A name holding `-` gives the text after its first `-` to the title.
- **Snail road** (`snail.dfy`).
  - In the Python 3 copy, `reversed(...)` is a one-shot iterator. The bottom-row loop exhausts it, so the left column of every ring is never visited: a ring of side `s` gives `3(s-1)` cells.
  - The site copy, read as the Python 2 code it is written in, walks the full spiral.
  - Both roads are proved duplicate-free, their cells are characterised, and for odd `n` the centre comes first.
- **Puzzle of Knowledge** (`puzzle.dfy`, `puzzle_tags.dfy`, `grid.dfy`).
  - `check`, `create_puzzle` and both `write_to_file` methods change the class's grid and graph fields.
  - `added_keywords.extend(name)` adds the word's letters, not the word. A word is kept from being placed twice by `keywords.remove` together with the `node in k` test. The model keeps both.
  - The tag writer deletes reverse edges as it goes. Its text and the edges it deletes are proved equal to closed forms over the graph it started from.
- **Transcript runs** (`transcripts.dfy`, `files.dfy`).
  - Models the de-duplication loop and both `process_transcripts` loops.
  - A turn that raises ends the loop. Files opened with `"w"` are overwritten and files opened with `"a"` are appended to.
- **Readers and helpers** (`django_utils.dfy`, `site_utils.dfy`, `courses.dfy`).
  - Both `get_tree_dict`, `get_puzzle_dict`, both `retrieve_tree_of_knowledge`, `create_dict_from_two_list` and `build_tree_of_knowledge_dictionary`.
  - The link helpers and `validate_transcript_num`.
  - Python dictionaries whose order matters are insertion-ordered lists of pairs (`dicts.dfy`). An exception is a `Raise` value naming the Python exception class (`exceptions.dfy`).

Where the design description of the system and the code disagree, the model follows the code:

- The description walks a full spiral. The Python 3 copy skips the left columns: those cells stay `*` (`Puzzle.SkippedStayBlank`).
- A transcript without an `<h3>` title gets the title `''` from `nlp_pipeline`, and `analysis` and `create_puzzle` store it. So a run never writes with a missing title. Both django writers raise `TypeError` only on an object whose title is still the constructor's default `None`, that is, one never analysed. The Tree file is then left empty, because it was opened with `"w"`.
- In the django run, an `IndexError` from `check` ends the whole run. There is no per-transcript recovery. The error comes from a cell with no placed neighbour once the ranking is used up.
- The consensus search only considers ranks below 100000. Next to placed pieces, a single-letter word that is a letter of an already placed word is never chosen.
- The description warns that writing a puzzle twice is unsafe. In the model, a second write gives the same rows and deletes no further edge (`PuzzleTags.RowsSettle`). Only the file differs, because it is opened for appending.
- The site `process_transcripts` writes only Tree files. Its puzzle code sits inside a string literal.

## Model

| member | source | states |
|---|---|---|
| WordGraph.TextToGraph | django-edunet/edunet/utils/course_processor.py:86-94 | An empty list leaves the graph unchanged. Otherwise the nodes become the old nodes plus the words, minus `.`. An edge is present exactly when it was an old edge or joins two consecutive words, and neither end is `.`. The result is a valid graph and equals the declarative `BuildGraph`. The site copy (edunet_site/edunet/utils/course_processor.py:65-72) is the same code. |
| WordGraph.BuildGraphValid | django-edunet/edunet/utils/course_processor.py:86-94 | Building keeps a graph valid: every edge joins two nodes. |
| WordGraph.KeywordsOfRanking | django-edunet/edunet/utils/course_processor.py:128 | The `[:d]` prefix of a ranking holds distinct nodes of the graph. For `d >= 0` there are `min(d, #nodes)` of them. |
| WordGraph.ParagraphGraphWithinLecture | django-edunet/edunet/utils/course_processor.py:119-130 | Every node and edge of a paragraph's own graph is in the graph built over all paragraphs concatenated. |
| WordGraph.LectureGraphBridgesParagraphs | django-edunet/edunet/utils/course_processor.py:124-130 | The lecture graph has an edge from each paragraph's last word to the next paragraph's first word, unless either is `.`. |
| Tree.TreeOfKnowledge.constructor | django-edunet/edunet/utils/course_processor.py:99-107 | A fresh tree has no keywords, an empty graph, and the given name, title and dimensions. |
| Tree.TreeOfKnowledge.AddLectureKeywords | django-edunet/edunet/utils/course_processor.py:109-111 | The lecture keywords are extended, never replaced. No other field changes. |
| Tree.TreeOfKnowledge.AddKeywordsPerParagraph | django-edunet/edunet/utils/course_processor.py:113-115 | One dictionary assignment: the key is replaced in place, or appended when new. No other field changes. |
| Tree.TreeOfKnowledge.RankParagraph | django-edunet/edunet/utils/course_processor.py:122-129 | One paragraph turn. The paragraph's keywords are the top-ranked words of the graph with that paragraph added. They are stored under the counter, and the graph is left empty. |
| Tree.TreeOfKnowledge.Analysis | edunet_site/edunet/utils/course_processor.py:92-107 | Paragraph `p` (from 1) holds the best words of its own graph. The lecture graph is built over all paragraphs, and its best words are appended to the lecture keywords. The graph stays valid. |
| Tree.TreeOfKnowledge.AnalysisWithTitle | django-edunet/edunet/utils/course_processor.py:117-133 | The same as `Analysis`, after recording the title the pipeline returns. |
| Tree.NumberedFresh | django-edunet/edunet/utils/course_processor.py:121-129 | Numbering from an empty dictionary gives the keys 1, 2, ... in paragraph order. |
| Tree.EnumeratedGet | django-edunet/edunet/utils/course_processor.py:121-129 | No paragraph number is stored twice, and key `p` holds paragraph `p`'s keywords. |
| Tree.ParagraphKeywordsOfGraph | django-edunet/edunet/utils/course_processor.py:125-129 | A paragraph's keywords are distinct words of the graph it was ranked on. There are `min(paragraph_dimension, #nodes)` of them. |
| Tree.LectureKeywordsOfGraph | django-edunet/edunet/utils/course_processor.py:130-133 | The lecture keywords are distinct words of the lecture graph. |
| Tree.ParagraphKeywordsInLecture | django-edunet/edunet/utils/course_processor.py:119-133 | In a fresh tree, every paragraph keyword is a word of the lecture graph and never `.`. |
| Tree.WriteQuoted | django-edunet/edunet/utils/course_processor.py:140-141 | After the text, every keyword is written as a bytes literal followed by a space, in order. |
| Tree.WritePlain | edunet_site/edunet/utils/course_processor.py:112-113 | After the text, every keyword is written as it is, followed by a space, in order. |
| Tree.WriteBlocks | django-edunet/edunet/utils/course_processor.py:142-145 | For each dictionary key in insertion order: a `--------<p> paragraph: ` header, then that key's keywords. Both copies write them as bytes literals (edunet_site/edunet/utils/course_processor.py:114-117 is the same loop). |
| Tree.TreeOfKnowledge.WriteDjango | django-edunet/edunet/utils/course_processor.py:135-146 | The file is overwritten with the name and title line, the `Lecture` line and one block per paragraph. On an object whose title is still the constructor's `None`, the file is left empty and `TypeError` is raised. |
| Tree.TreeOfKnowledge.WriteSite | edunet_site/edunet/utils/course_processor.py:109-118 | The file is overwritten with the name line, then the lecture keywords on that same line as plain words, then the paragraph blocks with their keywords as bytes literals. |
| TreeFile.DjangoTreeRoundTrip | django-edunet/edunet/utils/utils.py:82-117 | The django Tree text, read back by `get_tree_dict`, has `|d| + 3` lines. It gives the title and the non-stop lecture keywords. Each paragraph's filtered keywords sit under `Paragraph k Keywords`, in order. | This holds for a title without `:`, a name without `-` and keywords that are letters and do not end in `b`; `BEndingWordLoses`, `TitleColonCut` and `NameHyphenMoves` show what happens otherwise.
| TreeFile.DjangoTreeParagraphs | django-edunet/edunet/utils/utils.py:109-115 | The read-back keeps one entry per written paragraph, under keys 1 to `|d|`. Each entry holds the paragraph's letter-only, non-stop keywords. |
| TreeFile.BEndingWordLoses | django-edunet/edunet/utils/utils.py:95-98 | A keyword ending in `b` comes back without that `b` (`club` is read as `clu`), because every `b'` is removed from the line. |
| TreeFile.TitleColonCut | django-edunet/edunet/utils/utils.py:91-92 | A title holding `:` comes back cut at its first `:`: the name line `t01-Intro: Minds:` gives the title `Intro`. |
| TreeFile.NameHyphenMoves | django-edunet/edunet/utils/utils.py:91-92 | A name holding `-` loses the text after its first `-` to the title: name `t01-a` with title `Intro` reads back the title `a-Intro`. |
| TreeFile.DjangoTextJoined | django-edunet/edunet/utils/course_processor.py:137-146 | The Tree text is its lines joined with newlines: an empty line, the name line, the `Lecture` line, one line per paragraph. |
| TreeFile.SiteTreeLines | edunet_site/edunet/utils/course_processor.py:109-118 | The site Tree text reads back as an empty line, the name line holding the plain lecture keywords, then one line per paragraph with its header and bytes-literal keywords. |
| TreeFile.TreeLinesRead | django-edunet/edunet/utils/utils.py:82-117 | Those lines, read one by one, give the title, the lecture keywords and the paragraphs. |
| Snail.AppendInRow | django-edunet/edunet/utils/course_processor.py:174-175 | The loop appends one `{line: i}` cell per value, in order, and leaves its iterator exhausted. |
| Snail.AppendInColumn | django-edunet/edunet/utils/course_processor.py:176-177 | The loop appends one `{i: column}` cell per value, in order, and leaves its iterator exhausted. |
| Snail.PassPy3 | django-edunet/edunet/utils/course_processor.py:173-184 | One pass of the while loop appends the Python-3 ring: top, right and bottom. The left column reuses the exhausted `reversed` iterator and gets nothing. |
| Snail.PassPy2 | edunet_site/edunet/utils/course_processor.py:139-151 | One pass appends the whole ring: top, right, bottom and left. |
| Snail.SnailRoadPy3 | django-edunet/edunet/utils/course_processor.py:158-188 | The returned road is the reverse of the Python-3 spiral plus the odd centre. |
| Snail.SnailRoadPy2 | edunet_site/edunet/utils/course_processor.py:129-155 | The returned road is the reverse of the full spiral plus the odd centre. |
| Snail.RoadPy3Cells | django-edunet/edunet/utils/course_processor.py:158-188 | The Python-3 road visits each cell at most once. It visits exactly the grid cells outside the left columns (below each ring's corner), and for odd `n` the centre comes first. |
| Snail.RoadPy2Cells | edunet_site/edunet/utils/course_processor.py:129-155 | The Python-2 road lists all `n*n` grid cells, each exactly once, and for odd `n` the centre comes first. |
| Snail.SpiralPy3Length | django-edunet/edunet/utils/course_processor.py:172-184 | After `k` passes the Python-3 list holds `3k(n-k)` cells: a ring of side `s` gives `3(s-1)`. |
| Snail.SpiralPy2Length | edunet_site/edunet/utils/course_processor.py:138-151 | After `k` passes the Python-2 list holds `4k(n-k)` cells. |
| Snail.RoadPy3OfThree | django-edunet/edunet/utils/course_processor.py:158-188 | For `n = 3` the Python-3 road is written out cell by cell. `(1,0)` and `(2,0)` are missing. |
| Snail.RoadPy2OfThree | edunet_site/edunet/utils/course_processor.py:129-155 | For `n = 3` the road is (1,1),(1,0),(2,0),(2,1),(2,2),(1,2),(0,2),(0,1),(0,0). |
| Snail.ForwardPy2Cells | edunet_site/edunet/utils/course_processor.py:138-153 | The forward spiral lists every grid cell exactly once. |
| Snail.ForwardPy3Cells | django-edunet/edunet/utils/course_processor.py:172-186 | The forward Python-3 walk lists, each once, exactly the cells that are not skipped. |
| Puzzle.PuzzleOfKnowledge.constructor | django-edunet/edunet/utils/course_processor.py:151-156 | A fresh puzzle has the given name, dimension and title, an empty graph and no grid. |
| Puzzle.PuzzleOfKnowledge.AdjacencyList | django-edunet/edunet/utils/course_processor.py:204 | It raises `ValueError` exactly when the word is not a node (the `index` lookup). Otherwise it lists the word's undirected neighbours, each once. |
| Puzzle.PuzzleOfKnowledge.Neighbours | django-edunet/edunet/utils/course_processor.py:196-217 | `ValueError` exactly when some occupied neighbour is not a node. Otherwise `contor` counts the occupied neighbours, and the list concatenates one adjacency list per neighbour. |
| Puzzle.Common | django-edunet/edunet/utils/course_processor.py:228-231 | Keeps, each once, the words counted exactly `contor` times. |
| Puzzle.Discard | django-edunet/edunet/utils/course_processor.py:234-236 | Removes from the candidates every element of `a` and keeps the rest in order. |
| Puzzle.Best | django-edunet/edunet/utils/course_processor.py:244-250 | Returns the candidate with the smallest index in `k` below the limit, or `*` when none qualifies. |
| Puzzle.PuzzleOfKnowledge.Check | django-edunet/edunet/utils/course_processor.py:190-250 | The word equals `Choose`. No neighbours gives `k[0]` (`IndexError` on an empty `k`). Otherwise it is the best-ranked word adjacent to all occupied neighbours, or `*`. The site copy (edunet_site/edunet/utils/course_processor.py:157-213) is the same code. |
| Puzzle.ChooseFits | django-edunet/edunet/utils/course_processor.py:219-250 | With occupied neighbours that are all nodes, `check` never raises. A word it returns is ranked, not in `a`, adjacent to every neighbour, below the limit and ranked no lower than any other such word. It returns `*` exactly when no such word is ranked below the limit. |
| Puzzle.FirstInFinds | django-edunet/edunet/utils/course_processor.py:244-250 | A candidate in `k` below the limit rules out the `*` result. |
| Puzzle.PuzzleOfKnowledge.FillCell | django-edunet/edunet/utils/course_processor.py:268-272 | One turn of the road loop moves the grid, keywords, added list and outcome exactly as one `Step` does. Name, title, dimension and graph are unchanged. |
| Puzzle.PuzzleOfKnowledge.Fill | django-edunet/edunet/utils/course_processor.py:265-272 | From a blank grid, the grid and outcome after the loop are those of `Lay` over the road. |
| Puzzle.LayLaid | django-edunet/edunet/utils/course_processor.py:252-272 | Along a road of distinct cells, the laid grid keeps cells off the road blank. Each placed word is a ranked word in one cell only, and `keywords` is the ranking minus the placed words, in order. The only exception is `IndexError` with `keywords` empty. |
| Puzzle.PuzzleFacts | django-edunet/edunet/utils/course_processor.py:252-272 | The finished puzzle keeps off-road cells blank and holds every word in one cell only. A raised run placed every node. |
| Puzzle.LayFirst | django-edunet/edunet/utils/course_processor.py:265-272 | The first cell of the road takes the best-ranked word and keeps it. |
| Puzzle.SkippedStayBlank | django-edunet/edunet/utils/course_processor.py:178-182 | On the Python-3 road, the left-column cells the walk misses stay `*`. |
| Puzzle.ReadyToWrite | django-edunet/edunet/utils/course_processor.py:252-272 | A laid puzzle is square with no word twice, and no edge touches `*`: the writer's preconditions hold. |
| Puzzle.Join | django-edunet/edunet/utils/course_processor.py:257-259 | The joined word list is the paragraphs concatenated in order. |
| Puzzle.PuzzleOfKnowledge.CreatePuzzle | django-edunet/edunet/utils/course_processor.py:252-272 | The graph is the builder applied to all paragraphs. The grid and outcome are those of filling the Python-3 road with the graph's ranking, and the title is the pipeline's. |
| Puzzle.PuzzleOfKnowledge.CreatePuzzleSite | edunet_site/edunet/utils/course_processor.py:215-235 | The same on the Python-2 road, without a title. |
| Puzzle.PuzzleOfKnowledge.WriteDjango | django-edunet/edunet/utils/course_processor.py:274-338 | Appends `title-N:` and the rows as bytes literals, or raises `TypeError` when the title is still the constructor's `None`. The graph loses exactly the edges the tag rule removes. |
| Puzzle.PuzzleOfKnowledge.WriteSite | edunet_site/edunet/utils/course_processor.py:237-301 | Appends `N` on its own line and then the rows with raw words. The graph loses exactly the removed edges. |
| PuzzleTags.Shape | django-edunet/edunet/utils/course_processor.py:284-292 | The tag is `up` toward `*` or when the edge piece to neighbour exists, otherwise `down`. When both directions exist, the edge pointing back is removed. |
| PuzzleTags.CellTags | django-edunet/edunet/utils/course_processor.py:281-333 | A piece's four tags (W, S, E, N), taken from the evolving graph, equal the closed-form `Tags` over the original edges. The graph loses exactly that piece's dropped edges. |
| PuzzleTags.WritePiece | django-edunet/edunet/utils/course_processor.py:280-337 | One piece's text equals its closed form (word, `#`, tags each ending in `#`, space), and the graph moves one cell along. |
| PuzzleTags.WriteRow | django-edunet/edunet/utils/course_processor.py:279-338 | One row's text equals its closed form, and the graph matches the edges dropped up to the end of the row. |
| PuzzleTags.WriteRows | django-edunet/edunet/utils/course_processor.py:278-338 | The whole text equals `Rows` over the original edges. The graph left is the original without the removed edges. |
| PuzzleTags.WriteTags | django-edunet/edunet/utils/course_processor.py:335-336 | Each tag is written followed by `#`. |
| PuzzleTags.SidesFit | django-edunet/edunet/utils/course_processor.py:281-333 | Of two placed neighbours, the earlier side is `up` exactly when the edge from it exists. The later side is `up` exactly when only the back edge exists. They are never both `up`, and one is `up` exactly when the words are joined. |
| PuzzleTags.BlankSides | django-edunet/edunet/utils/course_processor.py:291-292 | A side facing `*` is `up`, and a `*` piece facing a word is `down`. |
| PuzzleTags.DroppedPair | django-edunet/edunet/utils/course_processor.py:285-287 | The edge from one word to a neighbour is removed exactly when both directions existed and the neighbour's piece came first. |
| PuzzleTags.TagsSettle | django-edunet/edunet/utils/course_processor.py:281-333 | After a pass, every piece's tags read the same from the remaining edges as from the original ones. |
| PuzzleTags.RowsSettle | django-edunet/edunet/utils/course_processor.py:274-338 | Writing the same puzzle again writes the same rows and removes no further edge. |
| Transcripts.RemoveDuplicates | django-edunet/edunet/utils/course_processor.py:472-485 | The kept list is `Survivors`: the paths with no later path of the same basename, in order. The site copy (edunet_site/edunet/utils/course_processor.py:436-449) is the same loop. |
| Transcripts.SurvivorsMembers | edunet_site/edunet/utils/course_processor.py:436-449 | A path is kept exactly when no later path has its basename. |
| Transcripts.SurvivorsDistinct | edunet_site/edunet/utils/course_processor.py:436-449 | No two kept paths share a basename. |
| Transcripts.SurvivorsCover | edunet_site/edunet/utils/course_processor.py:436-449 | Every basename found keeps one path. |
| Transcripts.TranscriptNameOf | django-edunet/edunet/utils/course_processor.py:491 | A path ending in `\\name.html` gives `name` back. |
| Transcripts.ProcessSite | edunet_site/edunet/utils/course_processor.py:452-480 | The files after the run are those after each transcript's Tree file is written over, in turn. No puzzle is made: that code is inside a string literal. |
| Transcripts.SiteFiles | edunet_site/edunet/utils/course_processor.py:452-480 | The run adds exactly the tree paths and leaves every other file alone. |
| Transcripts.SiteLatest | edunet_site/edunet/utils/course_processor.py:466-470 | A tree path written more than once holds the tree of the last transcript that wrote it. |
| Transcripts.ProcessDjango | django-edunet/edunet/utils/course_processor.py:488-514 | The files and outcome are those of the turns run in order, stopping after the first one that raises. Each turn writes the tree, then builds and appends the puzzle. |
| Transcripts.DjangoCompleted | django-edunet/edunet/utils/course_processor.py:488-514 | A run that did not raise made a puzzle for every transcript. Its writes are the tree and puzzle writes, interleaved. |
| Transcripts.DjangoFiles | django-edunet/edunet/utils/course_processor.py:488-514 | After such a run, the files are the old ones plus the tree and puzzle paths. Every other file is untouched. |
| Transcripts.DjangoTreeLatest | django-edunet/edunet/utils/course_processor.py:502-506 | A tree path holds the tree of the last transcript that wrote to it. |
| Transcripts.DjangoPuzzleAppended | django-edunet/edunet/utils/course_processor.py:508-512 | A puzzle file only one transcript writes ends with its old contents followed by that puzzle. |
| Transcripts.DjangoRaised | django-edunet/edunet/utils/course_processor.py:488-514 | A run that raised did so with `IndexError`. The culprit is the first transcript whose puzzle raised. The writes are the earlier trees and puzzles, interleaved, plus that transcript's tree. |
| Files.PairedFiles | django-edunet/edunet/utils/course_processor.py:503-512 | Turns that write a tree and then a puzzle, run without raising, create exactly both sets of paths and leave other files alone. |
| Files.RunCompleted | django-edunet/edunet/utils/course_processor.py:489-514 | A loop finishes without raising exactly when no turn raised, and then it made all the writes in order. |
| Files.ApplyAllAppended | django-edunet/edunet/utils/course_processor.py:276 | A file only ever opened in append mode ends with its old contents followed by every appended text, in order. |
| Files.ApplyAllLast | django-edunet/edunet/utils/course_processor.py:137 | A file opened in write mode holds what its last writer put there. |
| Courses.NumberLinkFormat | django-edunet/edunet/utils/utils.py:53-61 | No result has a space or an upper-case letter. Apart from `CHEM 125a`, a number never grows, and one with no space and no upper-case letter is unchanged. |
| Courses.NumberLinkFormatIdempotent | edunet_site/edunet/utils/utils.py:36-44 | Formatting an already formatted number changes nothing. |
| Courses.SeasonSegment | django-edunet/edunet/utils/utils.py:67-69 | Raises `IndexError` exactly when the season has no word. |
| Courses.CourseLink | django-edunet/edunet/utils/utils.py:63-80 | Raises `IndexError` exactly when the season has no word. Otherwise the link starts with the download prefix. |
| Courses.CourseLinkParts | edunet_site/edunet/utils/utils.py:46-63 | After the prefix, the link splits on `/` into the season segment, the number, `download`, and the archive name plus `.zip`. |
| Courses.AfamLink | edunet_site/edunet/tests/test_utils.py:22-28 | `AFAM 162`, `Spring 2010` gives the `spring10/afam162/download/afam162.zip` link. |
| Courses.AfamNumber | edunet_site/edunet/tests/test_utils.py:22-28 | `AFAM 162` is formatted as `afam162`. |
| Courses.AfamSeason | edunet_site/edunet/tests/test_utils.py:22-28 | `Spring 2010` becomes `spring10`. |
| Courses.ValidTranscript | django-edunet/edunet/utils/utils.py:210-213 | An accepted value lies in `1 .. count - 1`. The site copy (edunet_site/edunet/utils/utils.py:117-120) has the same strict bound. |
| Courses.TranscriptExists | django-edunet/edunet/utils/utils.py:211 | The corrected check that the docstring describes (the transcript exists), not the code as written: an accepted value lies in `1 .. count`. |
| Courses.LastTranscriptRejected | django-edunet/edunet/utils/utils.py:210-213 | For any count of at least 1, the last transcript exists but is turned down. |
| Courses.TranscriptExistsExactly | edunet_site/edunet/tests/test_utils.py:48-52 | The corrected check accepts exactly `1 .. count`. It agrees with the check as written for every value but `count`, which covers every value the test checks. |
| DjangoUtils.NonStopWordsMembers | django-edunet/edunet/utils/utils.py:101-104 | A word is kept exactly when it is in the line and is not a stop word. |
| DjangoUtils.DropStopWords | django-edunet/edunet/utils/utils.py:101-104 | The loop keeps exactly `NonStopWords`. |
| DjangoUtils.LetterWordsMembers | django-edunet/edunet/utils/utils.py:110-114 | A word is kept exactly when it is in the list, is alphabetic and is not one character long. |
| DjangoUtils.KeepLetterWords | django-edunet/edunet/utils/utils.py:110-114 | The loop keeps exactly `LetterWords`. |
| DjangoUtils.TitleOf | django-edunet/edunet/utils/utils.py:91-92 | Raises `IndexError` exactly when the line has no `-`. |
| DjangoUtils.LineWords | django-edunet/edunet/utils/utils.py:96-100 | Raises `IndexError` exactly when the line has no `:`. |
| DjangoUtils.ReadBranch | django-edunet/edunet/utils/utils.py:88-115 | One loop turn reads line `k` into the dictionary as `ReadTreeLine` does. |
| DjangoUtils.GetTreeDict | django-edunet/edunet/utils/utils.py:82-117 | Returns exactly `ReadTree` over all lines, or the first error. |
| DjangoUtils.ReadTreeOk | django-edunet/edunet/utils/utils.py:82-117 | Reading succeeds exactly when line 1 has a `-` and every later line has a `:`. Failures are `IndexError`. |
| DjangoUtils.ReadTreeHead | django-edunet/edunet/utils/utils.py:89-107 | A successful read holds the title of `lines[1]` and the non-stop keywords of `lines[2]`, or the defaults when those lines are missing. |
| DjangoUtils.ReadTreeParagraphs | django-edunet/edunet/utils/utils.py:108-115 | `lines[k]`, for `k >= 3`, is entered under `Paragraph k-2 Keywords`, holding its filtered words. |
| DjangoUtils.ByParagraphKeys | django-edunet/edunet/utils/utils.py:115 | The paragraph keys are exactly `Paragraph 1..n Keywords`, one per value. |
| DjangoUtils.ByParagraphValues | django-edunet/edunet/utils/utils.py:115 | Paragraph `k` holds the `k`-th value. |
| DjangoUtils.TitleBefore | django-edunet/edunet/utils/utils.py:145-146 | The title has no `-` and is the prefix of the line up to its first `-`. |
| DjangoUtils.CleanRow | django-edunet/edunet/utils/utils.py:149-155 | Gives the cleaned piece `Piece(row)`. |
| DjangoUtils.PieceClean | django-edunet/edunet/utils/utils.py:149-155 | A cleaned piece holds no `*`, `#`, `'` or newline. |
| DjangoUtils.LectureTitle | django-edunet/edunet/utils/utils.py:143-147 | Gives `TitleBefore` of the first line. |
| DjangoUtils.AddPiece | django-edunet/edunet/utils/utils.py:148-156 | One row turn enters the cleaned row, valued with its index. |
| DjangoUtils.GetPuzzleDict | django-edunet/edunet/utils/utils.py:137-158 | Returns exactly `ReadPuzzle` of the lines. |
| DjangoUtils.CollectKeys | django-edunet/edunet/utils/utils.py:148-156 | There is one key per distinct cleaned row after the first, so never more than `n - 1` keys. |
| DjangoUtils.CollectValues | django-edunet/edunet/utils/utils.py:148-156 | Each key holds the index of the last row that shows it, so identical rows collapse. |
| DjangoUtils.ReadPuzzleSpec | django-edunet/edunet/utils/utils.py:137-158 | The title is line 0 before its `-`. The keys are exactly the cleaned later rows, fewer than the lines, each valued with the last row that shows it. |
| DjangoUtils.CutParagraph | django-edunet/edunet/utils/utils.py:236-241 | The paragraph's key is reset, then holds the first `kpp` keywords (none when `kpp < 1`). |
| DjangoUtils.CutParagraphs | django-edunet/edunet/utils/utils.py:227-242 | On success there is one value per paragraph. A missing key raises `KeyError`. |
| DjangoUtils.CutParagraphsSpec | django-edunet/edunet/utils/utils.py:227-242 | Cutting succeeds exactly when paragraphs 1 to `n` all have keys. Paragraph `k` then keeps its own first `kpp` words. |
| DjangoUtils.RetrieveTreeOfKnowledge | django-edunet/edunet/utils/utils.py:215-243 | Returns exactly `Retrieve`. |
| DjangoUtils.RetrieveSpec | django-edunet/edunet/utils/utils.py:215-243 | `IndexError` exactly when `kpl` exceeds the lecture keywords. Success exactly when that is not so and every paragraph key exists. A success keeps the title, the first `kpl` lecture keywords and the first `kpp` of each paragraph, under the same keys. |
| DjangoUtils.RetrieveByParagraph | django-edunet/edunet/utils/utils.py:227-242 | On a tree as `get_tree_dict` builds it, only too many lecture keywords can fail. |
| DjangoUtils.RetrieveAfterRead | django-edunet/edunet/utils/utils.py:220-243 | A readable Tree file can be retrieved from exactly when it has the lecture keywords asked for. |
| DjangoUtils.RetrieveIdempotent | django-edunet/edunet/utils/utils.py:215-243 | Retrieving the same numbers again from a retrieved tree changes nothing. |
| DjangoUtils.CreateDictFromTwoList | django-edunet/edunet/utils/utils.py:331-347 | Returns exactly `PairLists` over all keys. |
| DjangoUtils.PairListsOutcome | django-edunet/edunet/utils/utils.py:331-347 | Pairing succeeds exactly when there are no titles or at least as many titles as keys. The dictionary holds no key twice. |
| DjangoUtils.PairListsPairs | django-edunet/edunet/utils/utils.py:331-347 | With distinct keys, the dictionary lists them in order. Key `i` maps to title `i`, or to `''` when there are no titles. |
| SiteUtils.GetTreeDict | edunet_site/edunet/utils/utils.py:65-76 | Returns exactly `LineNumbers` over all lines. |
| SiteUtils.TranscriptReplaced | edunet_site/edunet/utils/utils.py:70-74 | The `'transcript'` value of line 1 is at once replaced by `'1'`. |
| SiteUtils.LineNumbersSpec | edunet_site/edunet/utils/utils.py:65-76 | No key twice. Every line from 1 on is a key, and every key is such a line. A line's value is the index of its last occurrence, and no value is `'transcript'`. |
| SiteUtils.Dictionary.constructor | edunet_site/edunet/utils/utils.py:142 | A new dictionary is empty. |
| SiteUtils.BuildTreeOfKnowledgeDictionary | edunet_site/edunet/utils/utils.py:122-133 | Adds or replaces exactly one key, `metadata:` plus ` word` for each word, valued `Not Used.`. It returns the same object it was passed. |
| SiteUtils.KeyParts | edunet_site/edunet/utils/utils.py:146-160 | Splitting a key raises what `RetrievedKey` raises: `ValueError` unless there is exactly one `:`, `IndexError` with too few words. Otherwise it gives the metadata and the wanted words of that key. |
| SiteUtils.TakeWords | edunet_site/edunet/utils/utils.py:149-160 | `IndexError` exactly when more words are wanted than there are. Otherwise the first `want` of them. |
| SiteUtils.RetrieveTreeOfKnowledge | edunet_site/edunet/utils/utils.py:135-163 | Returns exactly `Retrieve` over the keys in insertion order. |
| SiteUtils.RetrieveSpec | edunet_site/edunet/utils/utils.py:135-163 | Succeeds exactly when every key can be rebuilt: the first with `kpl` words, the rest with `kpp`. Then each rebuilt key is present, valued `Not Used.`, with nothing else. |
| SiteUtils.RetrieveOrder | edunet_site/edunet/utils/utils.py:135-163 | With distinct rebuilt keys, the result lists them in the order of the tree. |
| SiteUtils.KeyStringRetrieved | edunet_site/edunet/utils/utils.py:127-153 | A key the builder wrote splits back into its metadata and words. Rebuilding it keeps the first wanted words. |
| SiteUtils.RetrievedKeyIdempotent | edunet_site/edunet/utils/utils.py:147-161 | Rebuilding a rebuilt key with the same number of words changes nothing. |
| SiteUtils.GatherSpec | edunet_site/edunet/utils/utils.py:145-162 | The keys are gathered without error exactly when none of them raised, in order. |
| SiteUtils.EnterAllSpec | edunet_site/edunet/utils/utils.py:155-161 | Entering keys keeps each once, all valued `Not Used.`, and nothing else. |

## Left out

- `nlp_pipeline` (BeautifulSoup, NLTK tokenising, tagging and lemmatising) is a foreign call. Its output, the list of paragraphs of words, is a parameter, and so is the lecture title it returns.
- `nx.pagerank` scores and tie order are iterative floating point. The ranking is an oracle parameter with the one property the code relies on: a duplicate-free list of exactly the graph's nodes.
- `to_undirected`, `adjacency_list` and `nodes().index` follow networkx 1.x. Neighbour lists are any duplicate-free enumeration of the undirected neighbours, because networkx's order is not part of the model.
- NLTK `stopwords` is a set parameter. `word_tokenize` is splitting on whitespace.
- Strings.IsAlpha, Strings.Lower: `isalpha` and `lower` are modelled for ASCII letters only. Non-ASCII letters (`é`, `É`, `ß`, Greek, Cyrillic and the rest of Unicode) are neither letters nor lowered in the model, so `get_tree_dict` drops a keyword such as `élan` that Python keeps, and `get_course_number_link_format` leaves `É` as it is. The Tree round trip is unaffected: paragraph keywords are written as bytes literals, so a non-ASCII keyword reaches the file as ASCII `\x..` escapes.
- Strings.IsSpace: covers the ASCII whitespace of `str.split()`, the separators `\x1c`-`\x1f` included. The non-ASCII whitespace Python also splits on (`\x85`, `\xa0`, the Unicode spaces) is not modelled.
- Strings.Quoted: UTF-8 `encode` and `str(bytes)` are modelled for ASCII words without `'` or `\`: such a word `w` is written `b'w'`. Python writes a word holding `'` as `b"w"` and doubles a `\`; neither case is modelled.
- `log`, `initial_operations`, `get_course` (wget, zipfile, shutil), the glob searches, `os.path`, `os.makedirs` and `os.getcwd` are I/O. Paths are plain strings and the file system is a map from path to contents.
- The global `transcript` pattern in `get_transcript_file` is environment state. Only its de-duplication loop is modelled.
- `get_transcript_num` (a glob count) is a parameter, `count`.
- The file reads in both `get_tree_of_knowledge` and in `get_puzzle_of_knowledge` are I/O. The retrieve functions take the parsed tree.
- `get_lecture_titles`, `get_puzzle_title`, `generate_puzzle` (cv2 and numpy rendering), `process_courses` and `save_data_to_database` (Django ORM) are not part of this model, and neither are views, urls, admin, models, forms or the tests.
- The `print` in the django `retrieve_tree_of_knowledge` has no effect on the result.
- DjangoUtils.TreeDict and DjangoUtils.PuzzleDict hold their `Paragraphs` and `Puzzle` dictionaries as Dafny maps. So the insertion order of the dictionaries that `get_tree_dict` and `get_puzzle_dict` return is not modelled; none of the modelled code reads it.
- Puzzle.PuzzleOfKnowledge: `dimension` is a `nat`. A negative `puzzle_dimension`, which the site command line would accept, is not represented.
- Snail.SnailRoadPy3: the Python 3 copy computes `stop = lines / 2` as a float, so the odd centre is the float cell `{stop: stop}`. The model uses the integer `n / 2` throughout. That is the cell `check` and `create_puzzle` reach after their `int()` conversions, so the grid behaviour is the same. The float loop condition `lines > N / 2` is modelled as the integer condition `2 * lines > N`.
- Both puzzle writers assume no word is placed twice and no edge touches `*`. `Puzzle.ReadyToWrite` proves `create_puzzle` leaves a puzzle that meets these assumptions only when `*` is not a word of the graph.
- Transcripts.ProcessDjango: the pipeline's words are assumed never to include `*`. The source's word filter (django-edunet/edunet/utils/course_processor.py:58-60) does not rule it out, so a transcript yielding `*` is outside the model.
- Snail.SnailRoadPy2: the Python 2 reading of site line 145. Under Python 3, `x.reverse()` on a `range` raises `AttributeError`; that path is not modelled, because the code is reachable only from the string literal at lines 472-478.
- Puzzle.PuzzleOfKnowledge.CreatePuzzleSite: the Python 2 reading of site line 229. Under Python 3, `location.keys()[0]` raises `TypeError`, and the road before it already raises at line 145; not modelled, for the same reason.
- Courses.NumberLinkFormat: its own contract does not name the `CHEM 125a` case, which only the body and the lemmas about it state.
- Courses.CourseLink: its own contract states the error case and the prefix. The shape of the rest of the link is stated by `Courses.CourseLinkParts`, not by the function.
- DjangoUtils.CutParagraphs: its own contract gives only the count and the error class. `DjangoUtils.CutParagraphsSpec` states the rest.
- Tree.TreeOfKnowledge.Analysis: `paragraph_dimension` and `lecture_dimension` may be any integer, and the `[:d]` slice is modelled exactly, including negative `d`. Only the lemmas state the `min(d, #nodes)` count, and only for `d >= 0`.

## Findings

| source | as written | input that shows it | evidently intended | confidence | as-written member | corrected member |
|---|---|---|---|---|---|---|
| django-edunet/edunet/utils/utils.py:210-213 | `0 < value < transcript_num` turns down transcript number `transcript_num` | a course with `count >= 1` transcripts and `value == count`: the last transcript exists but is rejected | `0 < value <= transcript_num`. Both copies have the strict bound: the site copy at edunet_site/edunet/utils/utils.py:117-120 rejects the last transcript too | medium, not executed | Courses.LastTranscriptRejected | Courses.TranscriptExistsExactly |
