/** The readers of the django application's `utils.py`: `get_tree_dict` reads
    a Tree file back into a dictionary, `get_puzzle_dict` reads a Puzzle
    file, `retrieve_tree_of_knowledge` cuts a read tree down to the number of
    keywords a user asks for, and `create_dict_from_two_list` pairs two lists.
    The stop-word list of the natural-language toolkit is a parameter. */
module DjangoUtils {
  import opened Lists
  import opened Strings
  import opened Exceptions
  import opened Dicts

  /** The dictionary `get_tree_dict` builds: `'Lecture Title'`,
      `'Lecture Keywords'` and `'Paragraphs'`, which maps
      `'Paragraph <n> Keywords'` to that paragraph's keywords. */
  datatype TreeDict = TreeDict(title: string, lecture: seq<string>, paragraphs: map<string, seq<string>>)

  const EmptyTree := TreeDict("", [], map[])

  /** The key of paragraph `n`. */
  function ParagraphKey(n: nat): string {
    "Paragraph " + NatToString(n) + " Keywords"
  }

  /** The words that are not stop words, in order. */
  function NonStopWords(words: seq<string>, stop: set<string>): (r: seq<string>)
    ensures |r| <= |words|
  {
    if words == [] then []
    else
      var w := words[|words| - 1];
      NonStopWords(words[..|words| - 1], stop) + (if w in stop then [] else [w])
  }

  /** The words longer than one character and made of letters only, in order. */
  function LetterWords(words: seq<string>): (r: seq<string>)
    ensures |r| <= |words|
  {
    if words == [] then []
    else
      var w := words[|words| - 1];
      LetterWords(words[..|words| - 1]) + (if |w| != 1 && IsAlpha(w) then [w] else [])
  }

  /** The title on the name line: the text after the first `-`, up to the
      next `:`. A line without `-` has no second part to index. */
  function TitleOf(line: string): (r: Result<string>)
    ensures r.Raise? <==> '-' !in line
    ensures r.Raise? ==> r.error == IndexError
  {
    match SplitOnce(line, '-')
    case None => Raise(IndexError)
    case Some(h) => Ok(Split(h.after, ':')[0])
  }

  /** The words of a keyword line: the text after its first `:` (up to the
      next), with every `b'` and then every `'` removed, split at whitespace.
      A line without `:` has no second part to index. */
  function LineWords(line: string): (r: Result<seq<string>>)
    ensures r.Raise? <==> ':' !in line
    ensures r.Raise? ==> r.error == IndexError
  {
    var parts := Split(line, ':');
    SplitHasSecond(line, ':');
    if |parts| < 2 then Raise(IndexError)
    else Ok(SplitWs(ReplaceAll(ReplaceAll(parts[1], "b'", ""), "'", "")))
  }

  /** The words of a keyword line that are not stop words; none when the
      line cannot be read. */
  function KeywordsOf(line: string, stop: set<string>): seq<string> {
    match LineWords(line)
    case Ok(words) => NonStopWords(words, stop)
    case Raise(_) => []
  }

  /** The dictionary after line `k` of a Tree file is read into `d`. */
  function ReadTreeLine(d: TreeDict, line: string, k: nat, stop: set<string>): Result<TreeDict>
    requires k >= 1
  {
    if k == 1 then
      var title :- TitleOf(line);
      Ok(d.(title := title))
    else
      var words :- LineWords(line);
      var kept := KeywordsOf(line, stop);
      if k == 2 then Ok(d.(lecture := kept))
      else Ok(d.(paragraphs := d.paragraphs[ParagraphKey(k - 2) := LetterWords(kept)]))
  }

  /** `get_tree_dict` on the first `n` lines of a Tree file: line 0 is
      skipped, line 1 holds the title, line 2 the lecture keywords, and every
      later line the keywords of one paragraph. */
  function ReadTree(lines: seq<string>, n: nat, stop: set<string>): Result<TreeDict>
    requires n <= |lines|
  {
    if n <= 1 then Ok(EmptyTree)
    else
      match ReadTree(lines, n - 1, stop)
      case Raise(e) => Raise(e)
      case Ok(d) => ReadTreeLine(d, lines[n - 1], n - 1, stop)
  }

  /** A line `get_tree_dict` can read at position `k`: the name line needs a
      `-`, every keyword line a `:`. */
  predicate LineReadable(line: string, k: nat) {
    if k == 1 then '-' in line else ':' in line
  }

  /** Lines 1 to `n - 1` can be read. */
  ghost predicate Readable(lines: seq<string>, n: nat)
    requires n <= |lines|
  {
    forall k :: 1 <= k < n ==> LineReadable(lines[k], k)
  }

  /** The keys of paragraphs 1 to `n`. */
  function ParagraphKeys(n: nat): set<string> {
    set k: nat | 1 <= k <= n :: ParagraphKey(k)
  }

  /** The keywords a paragraph line contributes. */
  function ParagraphWords(line: string, stop: set<string>): seq<string> {
    LetterWords(KeywordsOf(line, stop))
  }

  /** The keywords of the paragraph lines among the first `n`, in order. */
  function ParagraphValues(lines: seq<string>, n: nat, stop: set<string>): (r: seq<seq<string>>)
    requires n <= |lines|
    ensures |r| == if n >= 3 then n - 3 else 0
    ensures forall k :: 0 <= k < |r| ==> r[k] == ParagraphWords(lines[k + 3], stop)
  {
    if n <= 3 then [] else seq(n - 3, k requires 0 <= k < n - 3 => ParagraphWords(lines[k + 3], stop))
  }

  /** Values entered one after another under `Paragraph 1 Keywords`,
      `Paragraph 2 Keywords`, and so on. */
  function ByParagraph<V>(vals: seq<V>): map<string, V> {
    if vals == [] then map[] else ByParagraph(vals[..|vals| - 1])[ParagraphKey(|vals|) := vals[|vals| - 1]]
  }

  /** The stop-word loop. */
  method DropStopWords(words: seq<string>, stop: set<string>) returns (kept: seq<string>)
    ensures kept == NonStopWords(words, stop)
  {
    kept := [];
    for i := 0 to |words|
      invariant kept == NonStopWords(words[..i], stop)
    {
      assert words[..i + 1][..i] == words[..i];
      if words[i] !in stop {
        kept := kept + [words[i]];
      }
    }
    assert words[..|words|] == words;
  }

  /** The loop that keeps only words of letters longer than one character. */
  method KeepLetterWords(words: seq<string>) returns (kept: seq<string>)
    ensures kept == LetterWords(words)
  {
    kept := [];
    for i := 0 to |words|
      invariant kept == LetterWords(words[..i])
    {
      assert words[..i + 1][..i] == words[..i];
      if |words[i]| != 1 && IsAlpha(words[i]) {
        kept := kept + [words[i]];
      }
    }
    assert words[..|words|] == words;
  }

  /** The body of `get_tree_dict`'s loop for line `lineNum`. */
  method ReadBranch(d: TreeDict, branch: string, lineNum: nat, stop: set<string>) returns (r: Result<TreeDict>)
    requires lineNum >= 1
    ensures r == ReadTreeLine(d, branch, lineNum, stop)
  {
    if lineNum == 1 {
      var halves := SplitOnce(branch, '-');
      if halves.None? {
        return Raise(IndexError);
      }
      return Ok(d.(title := Split(halves.value.after, ':')[0]));
    }
    var parts := Split(branch, ':');
    SplitHasSecond(branch, ':');
    if |parts| < 2 {
      return Raise(IndexError);
    }
    var text := ReplaceAll(parts[1], "b'", "");
    text := ReplaceAll(text, "'", "");
    var kept := DropStopWords(SplitWs(text), stop);
    if lineNum == 2 {
      return Ok(d.(lecture := kept));
    }
    var filtered := KeepLetterWords(kept);
    return Ok(d.(paragraphs := d.paragraphs[ParagraphKey(lineNum - 2) := filtered]));
  }

  /** `get_tree_dict`. */
  method GetTreeDict(lines: seq<string>, stop: set<string>) returns (r: Result<TreeDict>)
    ensures r == ReadTree(lines, |lines|, stop)
  {
    var d := EmptyTree;
    var lineNum: nat := 1;
    while lineNum < |lines|
      invariant 1 <= lineNum && (lineNum <= |lines| || |lines| == 0)
      invariant ReadTree(lines, if lineNum <= |lines| then lineNum else 0, stop) == Ok(d)
    {
      var next := ReadBranch(d, lines[lineNum], lineNum, stop);
      if next.Raise? {
        ReadTreeStops(lines, lineNum + 1, |lines|, stop);
        return next;
      }
      d := next.value;
      lineNum := lineNum + 1;
    }
    return Ok(d);
  }

  // ---------------------------------------------------------------------
  // Lemmas

  /** The stop-word filter keeps exactly the words that are not stop words. */
  lemma {:induction false} NonStopWordsMembers(words: seq<string>, stop: set<string>)
    ensures forall w :: w in NonStopWords(words, stop) <==> w in words && w !in stop
  {
    if words != [] {
      var prefix := words[..|words| - 1];
      NonStopWordsMembers(prefix, stop);
      assert words == prefix + [words[|words| - 1]];
    }
  }

  /** The paragraph filter keeps exactly the words of letters longer than
      one character. */
  lemma {:induction false} LetterWordsMembers(words: seq<string>)
    ensures forall w :: w in LetterWords(words) <==> w in words && |w| != 1 && IsAlpha(w)
  {
    if words != [] {
      var prefix := words[..|words| - 1];
      LetterWordsMembers(prefix);
      assert words == prefix + [words[|words| - 1]];
    }
  }

  /** A split at a separator that occurs has a second part. */
  lemma SplitHasSecond(s: string, c: char)
    ensures |Split(s, c)| >= 2 <==> c in s
  {
    if c in s {
      var h := SplitOnce(s, c).value;
      SplitAtFirst(h.before, c, h.after);
    }
  }

  /** Once a line raises, reading stops there with the same exception. */
  lemma {:induction false} ReadTreeStops(lines: seq<string>, n: nat, m: nat, stop: set<string>)
    requires n <= m <= |lines| && ReadTree(lines, n, stop).Raise?
    ensures ReadTree(lines, m, stop) == ReadTree(lines, n, stop)
    decreases m
  {
    if n < m {
      ReadTreeStops(lines, n, m - 1, stop);
      ReadTreeRaisedStep(lines, m, stop);
    }
  }

  lemma ReadTreeRaisedStep(lines: seq<string>, m: nat, stop: set<string>)
    requires 2 <= m <= |lines| && ReadTree(lines, m - 1, stop).Raise?
    ensures ReadTree(lines, m, stop) == ReadTree(lines, m - 1, stop)
  {
  }

  lemma ReadTreeLineOk(d: TreeDict, line: string, k: nat, stop: set<string>)
    requires k >= 1
    ensures ReadTreeLine(d, line, k, stop).Ok? <==> LineReadable(line, k)
    ensures ReadTreeLine(d, line, k, stop).Raise? ==> ReadTreeLine(d, line, k, stop).error == IndexError
  {
  }

  /** Reading fails exactly when some line from line 1 on lacks its
      separator, and then with an IndexError. */
  lemma {:induction false} ReadTreeOk(lines: seq<string>, n: nat, stop: set<string>)
    requires n <= |lines|
    ensures ReadTree(lines, n, stop).Ok? <==> Readable(lines, n)
    ensures ReadTree(lines, n, stop).Raise? ==> ReadTree(lines, n, stop).error == IndexError
  {
    if n > 1 {
      ReadTreeOk(lines, n - 1, stop);
      if ReadTree(lines, n - 1, stop).Ok? {
        ReadTreeLineOk(ReadTree(lines, n - 1, stop).value, lines[n - 1], n - 1, stop);
      }
    }
  }

  /** What reading line `k` changes in the dictionary. */
  lemma ReadTreeLineFields(d: TreeDict, line: string, k: nat, stop: set<string>)
    requires k >= 1 && LineReadable(line, k)
    ensures ReadTreeLine(d, line, k, stop).Ok?
    ensures ReadTreeLine(d, line, k, stop).value ==
            if k == 1 then d.(title := TitleOf(line).value)
            else if k == 2 then d.(lecture := KeywordsOf(line, stop))
            else d.(paragraphs := d.paragraphs[ParagraphKey(k - 2) := ParagraphWords(line, stop)])
  {
  }

  /** What a successful read holds: the title of line 1 and the lecture
      keywords of line 2 without stop words. */
  lemma {:induction false} ReadTreeHead(lines: seq<string>, n: nat, stop: set<string>)
    requires n <= |lines| && Readable(lines, n)
    ensures ReadTree(lines, n, stop).Ok?
    ensures ReadTree(lines, n, stop).value.title == if n >= 2 then TitleOf(lines[1]).value else ""
    ensures ReadTree(lines, n, stop).value.lecture == if n >= 3 then KeywordsOf(lines[2], stop) else []
  {
    ReadTreeOk(lines, n, stop);
    if n > 1 {
      ReadTreeHead(lines, n - 1, stop);
      ReadTreeLineFields(ReadTree(lines, n - 1, stop).value, lines[n - 1], n - 1, stop);
    }
  }

  /** A successful read enters the keywords of every line after line 2
      under the paragraph keys from `Paragraph 1 Keywords` on. */
  lemma {:induction false} ReadTreeParagraphs(lines: seq<string>, n: nat, stop: set<string>)
    requires n <= |lines| && Readable(lines, n)
    ensures ReadTree(lines, n, stop).Ok?
    ensures ReadTree(lines, n, stop).value.paragraphs == ByParagraph(ParagraphValues(lines, n, stop))
  {
    ReadTreeOk(lines, n, stop);
    if n > 1 {
      ReadTreeParagraphs(lines, n - 1, stop);
      var d := ReadTree(lines, n - 1, stop).value;
      ReadTreeStep(lines, n, stop);
      ReadTreeLineFields(d, lines[n - 1], n - 1, stop);
      if n > 3 {
        ParagraphValuesSnoc(lines, n, stop);
      }
    }
  }

  lemma ReadTreeStep(lines: seq<string>, n: nat, stop: set<string>)
    requires 2 <= n <= |lines| && ReadTree(lines, n - 1, stop).Ok?
    ensures ReadTree(lines, n, stop) == ReadTreeLine(ReadTree(lines, n - 1, stop).value, lines[n - 1], n - 1, stop)
  {
  }

  /** One more paragraph line adds one value, under the next key. */
  lemma ParagraphValuesSnoc(lines: seq<string>, n: nat, stop: set<string>)
    requires 3 < n <= |lines|
    ensures ByParagraph(ParagraphValues(lines, n, stop)) ==
            ByParagraph(ParagraphValues(lines, n - 1, stop))[ParagraphKey(n - 3) := ParagraphWords(lines[n - 1], stop)]
  {
    var vals := ParagraphValues(lines, n, stop);
    assert vals[..|vals| - 1] == ParagraphValues(lines, n - 1, stop);
  }

  /** The keys of `ByParagraph`: one per value, those of paragraphs 1 to
      the number of values. */
  lemma {:induction false} ByParagraphKeys<V>(vals: seq<V>)
    ensures ByParagraph(vals).Keys == ParagraphKeys(|vals|)
    ensures |ByParagraph(vals)| == |vals|
  {
    if vals == [] {
      assert ParagraphKeys(0) == {};
    } else {
      ByParagraphKeys(vals[..|vals| - 1]);
      ParagraphKeysSnoc(|vals|);
    }
  }

  /** The values of `ByParagraph`: paragraph `k` maps to the `k`-th value. */
  lemma {:induction false} ByParagraphValues<V>(vals: seq<V>, k: nat)
    requires 1 <= k <= |vals|
    ensures ParagraphKey(k) in ByParagraph(vals) && ByParagraph(vals)[ParagraphKey(k)] == vals[k - 1]
  {
    var n := |vals|;
    var prefix := vals[..n - 1];
    if k < n {
      ByParagraphValues(prefix, k);
      assert prefix[k - 1] == vals[k - 1];
      if ParagraphKey(k) == ParagraphKey(n) {
        ParagraphKeyInjective(k, n);
      }
    }
  }

  /** One more paragraph adds one new key. */
  lemma ParagraphKeysSnoc(n: nat)
    requires n >= 1
    ensures ParagraphKeys(n) == ParagraphKeys(n - 1) + {ParagraphKey(n)}
    ensures ParagraphKey(n) !in ParagraphKeys(n - 1)
  {
    if ParagraphKey(n) in ParagraphKeys(n - 1) {
      var k: nat :| 1 <= k <= n - 1 && ParagraphKey(k) == ParagraphKey(n);
      ParagraphKeyInjective(k, n);
    }
  }

  /** Distinct paragraphs have distinct keys. */
  lemma ParagraphKeyInjective(m: nat, n: nat)
    requires ParagraphKey(m) == ParagraphKey(n)
    ensures m == n
  {
    var a, b := NatToString(m), NatToString(n);
    assert |a| == |b|;
    assert a == ParagraphKey(m)[10..10 + |a|];
    assert b == ParagraphKey(n)[10..10 + |b|];
    NatToStringInjective(m, n);
  }

  // ---------------------------------------------------------------------
  // get_puzzle_dict

  /** The dictionary `get_puzzle_dict` builds: `'Lecture Title'` and
      `'Puzzle'`, which maps the cleaned text of each row to its line. */
  datatype PuzzleDict = PuzzleDict(title: string, puzzle: map<string, nat>)

  /** The title on the first line of a Puzzle file: the text before its
      first `-`, or the whole line when it has none. */
  function TitleBefore(line: string): (r: string)
    ensures '-' !in r
    ensures |r| <= |line| && r == line[..|r|]
    ensures '-' in line ==> line[|r|] == '-'
  {
    match SplitOnce(line, '-')
    case None => line
    case Some(h) => h.before
  }

  /** A row of a Puzzle file cleaned for display: a sentinel `*` is shown as
      `...`; the `#` separators, the bytes-literal quoting, the `up` and
      `down` tags and the newline are removed. */
  function Piece(row: string): string {
    var s := ReplaceAll(row, "*", "...");
    var s := ReplaceAll(s, "#", "");
    var s := ReplaceAll(s, "b'", "");
    var s := ReplaceAll(s, "'", "");
    var s := ReplaceAll(s, "up", "");
    var s := ReplaceAll(s, "down", "");
    ReplaceAll(s, "\n", "")
  }

  /** The pieces of all rows; the first line's is never used. */
  function CleanRows(lines: seq<string>): (r: seq<string>)
    ensures |r| == |lines|
  {
    seq(|lines|, i requires 0 <= i < |lines| => Piece(lines[i]))
  }

  /** Rows 1 to `n - 1` entered one after another, each under its text
      with its index as value. */
  function Collect(rows: seq<string>, n: nat): map<string, nat>
    requires n <= |rows|
  {
    if n <= 1 then map[] else Collect(rows, n - 1)[rows[n - 1] := n - 1]
  }

  /** `get_puzzle_dict`. */
  function ReadPuzzle(lines: seq<string>): PuzzleDict {
    PuzzleDict(if lines == [] then "" else TitleBefore(lines[0]), Collect(CleanRows(lines), |lines|))
  }

  /** The replacements `get_puzzle_dict` makes on a row. */
  method CleanRow(row: string) returns (piece: string)
    ensures piece == Piece(row)
  {
    piece := ReplaceAll(row, "*", "...");
    piece := ReplaceAll(piece, "#", "");
    piece := ReplaceAll(piece, "b'", "");
    piece := ReplaceAll(piece, "'", "");
    piece := ReplaceAll(piece, "up", "");
    piece := ReplaceAll(piece, "down", "");
    piece := ReplaceAll(piece, "\n", "");
  }

  /** `get_puzzle_dict`. */
  method GetPuzzleDict(lines: seq<string>) returns (r: PuzzleDict)
    ensures r == ReadPuzzle(lines)
  {
    var title, puzzle := "", map[];
    var rowNum: nat := 0;
    while rowNum < |lines|
      invariant rowNum <= |lines|
      invariant title == if rowNum == 0 then "" else TitleBefore(lines[0])
      invariant puzzle == Collect(CleanRows(lines), rowNum)
    {
      if rowNum == 0 {
        title := LectureTitle(lines[rowNum]);
      } else {
        puzzle := AddPiece(puzzle, lines, rowNum);
      }
      rowNum := rowNum + 1;
    }
    r := PuzzleDict(title, puzzle);
  }

  /** The title row: the text before its first `-`. */
  method LectureTitle(line: string) returns (title: string)
    ensures title == TitleBefore(line)
  {
    var halves := SplitOnce(line, '-');
    title := if halves.None? then line else halves.value.before;
  }

  /** One pass of the row loop after the title row: the cleaned row is
      entered with its line number. */
  method AddPiece(puzzle: map<string, nat>, lines: seq<string>, rowNum: nat) returns (p: map<string, nat>)
    requires 1 <= rowNum < |lines| && puzzle == Collect(CleanRows(lines), rowNum)
    ensures p == Collect(CleanRows(lines), rowNum + 1)
  {
    var piece := CleanRow(lines[rowNum]);
    CollectStep(CleanRows(lines), rowNum, piece);
    p := puzzle[piece := rowNum];
  }

  lemma CollectStep(rows: seq<string>, n: nat, row: string)
    requires 1 <= n < |rows| && rows[n] == row
    ensures Collect(rows, n + 1) == Collect(rows, n)[row := n]
  {
  }

  /** One key per distinct row text after the first row. */
  lemma {:induction false} CollectKeys(rows: seq<string>, n: nat)
    requires n <= |rows|
    ensures Collect(rows, n).Keys == set j | 1 <= j < n :: rows[j]
    ensures |Collect(rows, n)| <= if n == 0 then 0 else n - 1
  {
    if n > 1 {
      CollectKeys(rows, n - 1);
      assert (set j | 1 <= j < n :: rows[j]) == (set j | 1 <= j < n - 1 :: rows[j]) + {rows[n - 1]};
    }
  }

  /** Each text maps to the last row that shows it: identical rows collapse
      into one entry holding the index of the later row. */
  lemma {:induction false} CollectValues(rows: seq<string>, n: nat, key: string)
    requires n <= |rows| && key in Collect(rows, n)
    ensures var v := Collect(rows, n)[key];
            1 <= v < n && rows[v] == key && forall j :: v < j < n ==> rows[j] != key
  {
    if rows[n - 1] != key {
      CollectValues(rows, n - 1, key);
    }
  }

  /** What `get_puzzle_dict` reads: the title before the first `-` of the
      first line, and one entry per distinct piece of the later rows,
      holding the index of the last row that shows it. */
  lemma ReadPuzzleSpec(lines: seq<string>)
    ensures ReadPuzzle(lines).title == if lines == [] then "" else TitleBefore(lines[0])
    ensures ReadPuzzle(lines).puzzle.Keys == set j | 1 <= j < |lines| :: CleanRows(lines)[j]
    ensures |ReadPuzzle(lines).puzzle| < |lines| || lines == []
    ensures forall key :: key in ReadPuzzle(lines).puzzle ==>
              var v := ReadPuzzle(lines).puzzle[key];
              1 <= v < |lines| && CleanRows(lines)[v] == key &&
              forall j :: v < j < |lines| ==> CleanRows(lines)[j] != key
  {
    var rows := CleanRows(lines);
    CollectKeys(rows, |lines|);
    forall key | key in Collect(rows, |lines|)
      ensures var v := Collect(rows, |lines|)[key];
              1 <= v < |lines| && rows[v] == key && forall j :: v < j < |lines| ==> rows[j] != key
    {
      CollectValues(rows, |lines|, key);
    }
  }

  /** A piece shows no sentinel, separator, quote or newline. */
  lemma PieceClean(row: string)
    ensures '*' !in Piece(row) && '#' !in Piece(row) && '\'' !in Piece(row) && '\n' !in Piece(row)
  {
    var s1 := ReplaceAll(row, "*", "...");
    var s2 := ReplaceAll(s1, "#", "");
    var s3 := ReplaceAll(s2, "b'", "");
    var s4 := ReplaceAll(s3, "'", "");
    var s5 := ReplaceAll(s4, "up", "");
    var s6 := ReplaceAll(s5, "down", "");
    ReplaceAllRemoves(row, '*', "...");
    ReplaceAllKeepsAbsent(s1, "#", "", '*');
    ReplaceAllRemoves(s1, '#', "");
    ReplaceAllKeepsAbsent(s2, "b'", "", '*');
    ReplaceAllKeepsAbsent(s2, "b'", "", '#');
    ReplaceAllKeepsAbsent(s3, "'", "", '*');
    ReplaceAllKeepsAbsent(s3, "'", "", '#');
    ReplaceAllRemoves(s3, '\'', "");
    CleanKept(s4, s5, s6);
  }

  lemma CleanKept(s4: string, s5: string, s6: string)
    requires '*' !in s4 && '#' !in s4 && '\'' !in s4
    requires s5 == ReplaceAll(s4, "up", "") && s6 == ReplaceAll(s5, "down", "")
    ensures var r := ReplaceAll(s6, "\n", "");
            '*' !in r && '#' !in r && '\'' !in r && '\n' !in r
  {
    var r := ReplaceAll(s6, "\n", "");
    ReplaceAllKeepsAbsent(s4, "up", "", '*');
    ReplaceAllKeepsAbsent(s4, "up", "", '#');
    ReplaceAllKeepsAbsent(s4, "up", "", '\'');
    ReplaceAllKeepsAbsent(s5, "down", "", '*');
    ReplaceAllKeepsAbsent(s5, "down", "", '#');
    ReplaceAllKeepsAbsent(s5, "down", "", '\'');
    ReplaceAllKeepsAbsent(s6, "\n", "", '*');
    ReplaceAllKeepsAbsent(s6, "\n", "", '#');
    ReplaceAllKeepsAbsent(s6, "\n", "", '\'');
    ReplaceAllRemoves(s6, '\n', "");
  }

  // ---------------------------------------------------------------------
  // retrieve_tree_of_knowledge

  /** The kept keywords of paragraphs 1 to `n` of `ps`, in order; a missing
      paragraph key is a `KeyError`. */
  function CutParagraphs(ps: map<string, seq<string>>, n: nat, want: int): (r: Result<seq<seq<string>>>)
    ensures r.Ok? ==> |r.value| == n
    ensures r.Raise? ==> r.error == KeyError
  {
    if n == 0 then Ok([])
    else
      var vals :- CutParagraphs(ps, n - 1, want);
      var key := ParagraphKey(n);
      if key !in ps then Raise(KeyError) else Ok(vals + [Cut(ps[key], want)])
  }

  /** Each list of `vals` cut to `want` keywords. */
  function CutEach(vals: seq<seq<string>>, want: int): (r: seq<seq<string>>)
    ensures |r| == |vals|
    ensures forall k :: 0 <= k < |vals| ==> r[k] == Cut(vals[k], want)
  {
    if vals == [] then [] else CutEach(vals[..|vals| - 1], want) + [Cut(vals[|vals| - 1], want)]
  }

  /** `retrieve_tree_of_knowledge` on the tree `tok` read from the Tree
      file: the title, the first `kpl` lecture keywords and the first `kpp`
      keywords of each paragraph, for as many paragraphs as `tok` holds.
      Asking for more lecture keywords than there are is an `IndexError`. */
  function Retrieve(kpp: int, kpl: int, tok: TreeDict): Result<TreeDict> {
    if kpl > |tok.lecture| then Raise(IndexError)
    else
      var vals :- CutParagraphs(tok.paragraphs, |tok.paragraphs|, kpp);
      Ok(TreeDict(tok.title, Cut(tok.lecture, kpl), ByParagraph(vals)))
  }

  method RetrieveTreeOfKnowledge(kpp: int, kpl: int, tok: TreeDict) returns (r: Result<TreeDict>)
    ensures r == Retrieve(kpp, kpl, tok)
  {
    var lecture: seq<string> := [];
    var i := 0;
    while i < kpl
      invariant 0 <= i <= |tok.lecture| && (i == 0 || i <= kpl)
      invariant lecture == tok.lecture[..i]
    {
      if i == |tok.lecture| {
        return Raise(IndexError);
      }
      lecture := lecture + [tok.lecture[i]];
      i := i + 1;
    }
    assert lecture == Cut(tok.lecture, kpl);
    var paragraphs: map<string, seq<string>> := map[];
    i := 0;
    while i < |tok.paragraphs|
      invariant 0 <= i <= |tok.paragraphs|
      invariant CutParagraphs(tok.paragraphs, i, kpp).Ok?
      invariant paragraphs == ByParagraph(CutParagraphs(tok.paragraphs, i, kpp).value)
    {
      var key := ParagraphKey(i + 1);
      if key !in tok.paragraphs {
        CutParagraphsRaised(tok.paragraphs, i + 1, |tok.paragraphs|, kpp);
        return Raise(KeyError);
      }
      var words := tok.paragraphs[key];
      if kpp >= |words| {
        paragraphs := paragraphs[key := words];
      } else {
        paragraphs := CutParagraph(paragraphs, key, words, kpp);
      }
      i := i + 1;
    }
    return Ok(TreeDict(tok.title, lecture, paragraphs));
  }

  /** The paragraph under `key` is started empty and gets the first `want`
      of its keywords appended one by one. */
  method CutParagraph(paragraphs: map<string, seq<string>>, key: string, words: seq<string>, want: int)
    returns (p: map<string, seq<string>>)
    requires want < |words|
    ensures p == paragraphs[key := Cut(words, want)]
  {
    p := paragraphs[key := []];
    var j := 0;
    while j < want
      invariant 0 <= j <= |words| && (j == 0 || j <= want)
      invariant p == paragraphs[key := words[..j]]
    {
      assert words[..j + 1] == words[..j] + [words[j]];
      p := p[key := p[key] + [words[j]]];
      j := j + 1;
    }
  }

  /** Once a paragraph key is missing, every longer run of paragraphs
      fails too. */
  lemma {:induction false} CutParagraphsRaised(ps: map<string, seq<string>>, m: nat, n: nat, want: int)
    requires m <= n && CutParagraphs(ps, m, want).Raise?
    ensures CutParagraphs(ps, n, want).Raise?
    decreases n
  {
    if m < n {
      CutParagraphsRaised(ps, m, n - 1, want);
    }
  }

  /** The paragraphs are cut without error exactly when paragraphs 1 to `n`
      all have keys, and then paragraph `k` keeps the first keywords of its
      own list. */
  lemma {:induction false} CutParagraphsSpec(ps: map<string, seq<string>>, n: nat, want: int)
    ensures CutParagraphs(ps, n, want).Ok? <==> ParagraphKeys(n) <= ps.Keys
    ensures CutParagraphs(ps, n, want).Ok? ==>
              forall k :: 1 <= k <= n ==> CutParagraphs(ps, n, want).value[k - 1] == Cut(ps[ParagraphKey(k)], want)
  {
    if n == 0 {
      assert ParagraphKeys(0) == {};
    } else {
      CutParagraphsSpec(ps, n - 1, want);
      ParagraphKeysSnoc(n);
    }
  }

  /** Retrieving fails with an `IndexError` exactly when more lecture
      keywords are asked for than there are, and otherwise with a `KeyError`
      exactly when some paragraph from 1 to the number of paragraphs has no
      key. A retrieved tree keeps the title, the first `kpl` lecture keywords
      and, under the same keys, the first `kpp` keywords of each paragraph. */
  lemma RetrieveSpec(kpp: int, kpl: int, tok: TreeDict)
    ensures Retrieve(kpp, kpl, tok).Raise? && Retrieve(kpp, kpl, tok).error == IndexError <==> kpl > |tok.lecture|
    ensures Retrieve(kpp, kpl, tok).Ok? <==>
              kpl <= |tok.lecture| && ParagraphKeys(|tok.paragraphs|) <= tok.paragraphs.Keys
    ensures Retrieve(kpp, kpl, tok).Ok? ==> RetrievedFrom(Retrieve(kpp, kpl, tok).value, kpp, kpl, tok)
  {
    var n := |tok.paragraphs|;
    CutParagraphsSpec(tok.paragraphs, n, kpp);
    if Retrieve(kpp, kpl, tok).Ok? {
      var vals := CutParagraphs(tok.paragraphs, n, kpp).value;
      ByParagraphKeys(vals);
      forall k | 1 <= k <= n
        ensures ByParagraph(vals)[ParagraphKey(k)] == Cut(tok.paragraphs[ParagraphKey(k)], kpp)
      {
        ByParagraphValues(vals, k);
      }
    }
  }

  /** `t` is what retrieving `kpp` and `kpl` keywords from `tok` gives. */
  predicate RetrievedFrom(t: TreeDict, kpp: int, kpl: int, tok: TreeDict)
    requires ParagraphKeys(|tok.paragraphs|) <= tok.paragraphs.Keys
  {
    && t.title == tok.title
    && t.lecture == Cut(tok.lecture, kpl)
    && t.paragraphs.Keys == ParagraphKeys(|tok.paragraphs|)
    && forall k :: 1 <= k <= |tok.paragraphs| ==>
         ParagraphKey(k) in t.paragraphs && t.paragraphs[ParagraphKey(k)] == Cut(tok.paragraphs[ParagraphKey(k)], kpp)
  }

  /** The paragraphs of a tree entered under `Paragraph 1 Keywords` on, as
      `get_tree_dict` enters them, are all found: retrieving only fails when
      too many lecture keywords are asked for, and cuts every paragraph. */
  lemma RetrieveByParagraph(kpp: int, kpl: int, title: string, lecture: seq<string>, vals: seq<seq<string>>)
    ensures Retrieve(kpp, kpl, TreeDict(title, lecture, ByParagraph(vals))) ==
            if kpl > |lecture| then Raise(IndexError)
            else Ok(TreeDict(title, Cut(lecture, kpl), ByParagraph(CutEach(vals, kpp))))
  {
    ByParagraphKeys(vals);
    CutParagraphsOf(vals, |vals|, kpp);
    assert vals[..|vals|] == vals;
  }

  lemma {:induction false} CutParagraphsOf(vals: seq<seq<string>>, n: nat, want: int)
    requires n <= |vals|
    ensures CutParagraphs(ByParagraph(vals), n, want) == Ok(CutEach(vals[..n], want))
  {
    if n > 0 {
      CutParagraphsOf(vals, n - 1, want);
      ByParagraphValues(vals, n);
      assert vals[..n][..n - 1] == vals[..n - 1];
    }
  }

  /** Every tree `get_tree_dict` reads can be retrieved from whenever it has
      the lecture keywords asked for. */
  lemma RetrieveAfterRead(lines: seq<string>, stop: set<string>, kpp: int, kpl: int)
    requires Readable(lines, |lines|)
    ensures ReadTree(lines, |lines|, stop).Ok?
    ensures Retrieve(kpp, kpl, ReadTree(lines, |lines|, stop).value).Ok? <==>
              kpl <= |ReadTree(lines, |lines|, stop).value.lecture|
  {
    ReadTreeParagraphs(lines, |lines|, stop);
    var d := ReadTree(lines, |lines|, stop).value;
    RetrieveByParagraph(kpp, kpl, d.title, d.lecture, ParagraphValues(lines, |lines|, stop));
  }

  /** Retrieving the same numbers of keywords again changes nothing. */
  lemma {:induction false} RetrieveIdempotent(kpp: int, kpl: int, tok: TreeDict)
    requires Retrieve(kpp, kpl, tok).Ok?
    ensures Retrieve(kpp, kpl, Retrieve(kpp, kpl, tok).value) == Retrieve(kpp, kpl, tok)
  {
    var vals := CutParagraphs(tok.paragraphs, |tok.paragraphs|, kpp).value;
    var t := Retrieve(kpp, kpl, tok).value;
    assert t == TreeDict(tok.title, Cut(tok.lecture, kpl), ByParagraph(vals));
    RetrieveByParagraph(kpp, kpl, t.title, t.lecture, vals);
    CutIdempotent(tok.lecture, kpl);
    CutParagraphsSpec(tok.paragraphs, |tok.paragraphs|, kpp);
    var again := CutEach(vals, kpp);
    forall k | 0 <= k < |vals| ensures again[k] == vals[k] {
      CutIdempotent(tok.paragraphs[ParagraphKey(k + 1)], kpp);
    }
    assert again == vals;
  }

  // ---------------------------------------------------------------------
  // create_dict_from_two_list

  /** `create_dict_from_two_list` over the first `n` entries of `keys`: each
      key is paired with the title at its own position, or with `''` when
      there are no titles at all; a non-empty title list shorter than the
      key list runs out with an `IndexError`. */
  function PairLists<K(==)>(keys: seq<K>, titles: seq<string>, n: nat): (r: Result<Dict<K, string>>)
    requires n <= |keys|
    ensures r.Raise? ==> r.error == IndexError
  {
    if n == 0 then Ok([])
    else
      var d :- PairLists(keys, titles, n - 1);
      if titles == [] then Ok(Put(d, keys[n - 1], ""))
      else if n - 1 >= |titles| then Raise(IndexError)
      else Ok(Put(d, keys[n - 1], titles[n - 1]))
  }

  /** The title paired with the key at position `i`. */
  function TitleAt(titles: seq<string>, i: nat): string {
    if i < |titles| then titles[i] else ""
  }

  method CreateDictFromTwoList<K(==)>(list1: seq<K>, list2: seq<string>) returns (r: Result<Dict<K, string>>)
    ensures r == PairLists(list1, list2, |list1|)
  {
    var dictionary: Dict<K, string> := [];
    var i := 0;
    while i < |list1|
      invariant i <= |list1|
      invariant PairLists(list1, list2, i) == Ok(dictionary)
    {
      if |list2| == 0 {
        dictionary := Put(dictionary, list1[i], "");
      } else {
        if i >= |list2| {
          PairListsRaised(list1, list2, i + 1, |list1|);
          return Raise(IndexError);
        }
        dictionary := Put(dictionary, list1[i], list2[i]);
      }
      i := i + 1;
    }
    return Ok(dictionary);
  }

  lemma {:induction false} PairListsRaised<K>(keys: seq<K>, titles: seq<string>, m: nat, n: nat)
    requires m <= n <= |keys| && PairLists(keys, titles, m).Raise?
    ensures PairLists(keys, titles, n).Raise?
    decreases n
  {
    if m < n {
      PairListsRaised(keys, titles, m, n - 1);
    }
  }

  /** Pairing succeeds exactly when there are no titles or enough of them,
      and never repeats a key. */
  lemma {:induction false} PairListsOutcome<K(!new)>(keys: seq<K>, titles: seq<string>, n: nat)
    requires n <= |keys|
    ensures PairLists(keys, titles, n).Ok? <==> titles == [] || n <= |titles|
    ensures PairLists(keys, titles, n).Ok? ==> Unique(PairLists(keys, titles, n).value)
  {
    if n > 0 {
      PairListsOutcome(keys, titles, n - 1);
      var r := PairLists(keys, titles, n - 1);
      if r.Ok? && (titles == [] || n <= |titles|) {
        PutUnique(r.value, keys[n - 1], TitleAt(titles, n - 1));
      }
    }
  }

  /** With distinct keys, the dictionary holds them in their order, each
      with the title at its position, or `''` when there are no titles. */
  lemma {:induction false} PairListsPairs<K(!new)>(keys: seq<K>, titles: seq<string>, n: nat)
    requires n <= |keys| && NoDup(keys) && PairLists(keys, titles, n).Ok?
    ensures Keys(PairLists(keys, titles, n).value) == keys[..n]
    ensures forall i :: 0 <= i < n ==> Get(PairLists(keys, titles, n).value, keys[i]) == Some(TitleAt(titles, i))
  {
    if n > 0 {
      PairListsPairs(keys, titles, n - 1);
      var d := PairLists(keys, titles, n - 1).value;
      var k, v := keys[n - 1], TitleAt(titles, n - 1);
      assert PairLists(keys, titles, n) == Ok(Put(d, k, v));
      PairStep(keys, n, d, v);
    }
  }

  /** Entering the key at position `n - 1` after the distinct keys before
      it. */
  lemma PairStep<K(!new)>(keys: seq<K>, n: nat, d: Dict<K, string>, v: string)
    requires 1 <= n <= |keys| && NoDup(keys) && Keys(d) == keys[..n - 1]
    ensures Keys(Put(d, keys[n - 1], v)) == keys[..n]
    ensures Get(Put(d, keys[n - 1], v), keys[n - 1]) == Some(v)
    ensures forall i :: 0 <= i < n - 1 ==> Get(Put(d, keys[n - 1], v), keys[i]) == Get(d, keys[i])
  {
    var k := keys[n - 1];
    PutSpec(d, k, v);
    var before := keys[..n - 1];
    assert k !in Keys(d) by {
      forall i | 0 <= i < |before| ensures before[i] != k {
        assert before[i] == keys[i];
      }
    }
    assert keys[..n] == keys[..n - 1] + [k];
  }
}
