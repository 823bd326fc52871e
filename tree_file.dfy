/** Reading back the Tree file the django application writes: the lines of
    the text `TreeOfKnowledge.write_to_file` produces, read by `get_tree_dict`,
    give back the title, the lecture keywords and one entry per paragraph.
    Keywords written as bytes literals survive only when they do not end in
    `b`, because `get_tree_dict` removes every `b'` from the line. */
module TreeFile {
  import opened Lists
  import opened Strings
  import opened Exceptions
  import opened DjangoUtils
  import Tree

  /** A keyword that survives the trip: letters only, not ending in `b`. */
  predicate CleanWord(w: string) {
    IsAlpha(w) && w[|w| - 1] != 'b'
  }

  predicate CleanWords(ks: seq<string>) {
    forall i :: 0 <= i < |ks| ==> CleanWord(ks[i])
  }

  /** What `get_tree_dict` does to the text after the `:` before splitting
      it: every `b'` is removed, then every `'`. */
  function Unquote(s: string): string {
    ReplaceAll(ReplaceAll(s, "b'", ""), "'", "")
  }

  /** A keyword line without its newline: a lead, `: ` and the keywords as
      bytes literals. */
  function KeywordSeg(lead: string, ks: seq<string>): string {
    lead + ": " + Tree.QuotedWords(ks)
  }

  /** Lines joined with newlines between them. */
  function Joined(segs: seq<string>): string
    requires |segs| >= 1
  {
    if |segs| == 1 then segs[0] else segs[0] + "\n" + Joined(segs[1..])
  }

  /** The lines `readlines` gives for `Joined(segs)`: every line but the last
      keeps its newline. */
  function Lines(segs: seq<string>): (r: seq<string>)
    ensures |r| == |segs|
  {
    seq(|segs|, i requires 0 <= i < |segs| => segs[i] + if i < |segs| - 1 then "\n" else "")
  }

  /** The lines of the django Tree file without their newlines: an empty
      line, the name line, the lecture line, then one line per paragraph. */
  function TreeSegs(name: string, title: string, lecture: seq<string>, d: Tree.Keywords): (r: seq<string>)
    ensures |r| == |d| + 3
  {
    ["", name + "-" + title + ":", KeywordSeg("--------Lecture", lecture)] + BlockSegs(d)
  }

  function ParagraphLabel(p: nat): string {
    "--------" + NatToString(p) + " paragraph"
  }

  function BlockSegs(d: Tree.Keywords): (r: seq<string>)
    ensures |r| == |d|
  {
    seq(|d|, i requires 0 <= i < |d| => KeywordSeg(ParagraphLabel(d[i].0), d[i].1))
  }

  /** The paragraph values `get_tree_dict` keeps for the paragraphs of `d`. */
  function KeptParagraphs(d: Tree.Keywords, stop: set<string>): (r: seq<seq<string>>)
    ensures |r| == |d|
  {
    seq(|d|, i requires 0 <= i < |d| => LetterWords(NonStopWords(d[i].1, stop)))
  }

  // ---------------------------------------------------------------------
  // The round trip

  /** Writing a tree with the django writer and reading the file back with
      `get_tree_dict` gives the title, the lecture keywords that are not stop
      words, and the paragraphs in order under `Paragraph 1 Keywords`,
      `Paragraph 2 Keywords`, ... whatever numbers the writer printed. */
  lemma DjangoTreeRoundTrip(name: string, title: string, lecture: seq<string>, d: Tree.Keywords, stop: set<string>)
    requires '-' !in name && '\n' !in name && ':' !in title && '\n' !in title
    requires CleanWords(lecture) && forall i :: 0 <= i < |d| ==> CleanWords(d[i].1)
    ensures var lines := ReadLines(Tree.DjangoTreeText(name, title, lecture, d));
            |lines| == |d| + 3 &&
            ReadTree(lines, |lines|, stop) ==
              Ok(TreeDict(title, NonStopWords(lecture, stop), ByParagraph(KeptParagraphs(d, stop))))
  {
    var segs := TreeSegs(name, title, lecture, d);
    DjangoTextJoined(name, title, lecture, d);
    TreeSegsLines(name, title, lecture, d);
    ReadLinesJoined(segs);
    TreeLinesRead(name, title, lecture, d, stop);
  }

  /** The paragraphs read back: as many as written, each under its position. */
  lemma DjangoTreeParagraphs(name: string, title: string, lecture: seq<string>, d: Tree.Keywords, stop: set<string>)
    requires '-' !in name && '\n' !in name && ':' !in title && '\n' !in title
    requires CleanWords(lecture) && forall i :: 0 <= i < |d| ==> CleanWords(d[i].1)
    ensures var lines := ReadLines(Tree.DjangoTreeText(name, title, lecture, d));
            ReadTree(lines, |lines|, stop).Ok? &&
            KeptParagraphsRead(ReadTree(lines, |lines|, stop).value.paragraphs, d, stop)
  {
    DjangoTreeRoundTrip(name, title, lecture, d, stop);
    ByParagraphRead(d, stop);
  }

  /** One entry per paragraph of `d`, under its position. */
  predicate KeptParagraphsRead(ps: map<string, seq<string>>, d: Tree.Keywords, stop: set<string>) {
    ps.Keys == ParagraphKeys(|d|) && |ps| == |d| &&
    forall k :: 1 <= k <= |d| ==> ps[ParagraphKey(k)] == LetterWords(NonStopWords(d[k - 1].1, stop))
  }

  lemma ByParagraphRead(d: Tree.Keywords, stop: set<string>)
    ensures KeptParagraphsRead(ByParagraph(KeptParagraphs(d, stop)), d, stop)
  {
    var vals := KeptParagraphs(d, stop);
    var ps := ByParagraph(vals);
    ByParagraphKeys(vals);
    forall k | 1 <= k <= |d| ensures ps[ParagraphKey(k)] == LetterWords(NonStopWords(d[k - 1].1, stop)) {
      ByParagraphValues(vals, k);
    }
  }

  /** The trip loses the last letter of a keyword ending in `b`: `b'` is
      also the end of its bytes literal, so the keyword `club` is read back
      as `clu`. */
  lemma BEndingWordLoses(lead: string, w: string, end: string)
    requires ':' !in lead && (end == "" || end == "\n") && CleanWord(w)
    ensures LineWords(KeywordSeg(lead, [w + "b"]) + end) == Ok([w])
  {
    var q := Tree.QuotedWords([w + "b"]);
    QuotedSingle(w + "b");
    QuotedSingle(w);
    assert ':' !in q by {
      assert ':' !in w;
    }
    UnquoteBEnding(w);
    assert CleanWords([w]);
    SplitWsLine([w], end);
    LineOf(lead, q, w + " ", [w], end);
  }

  /** The trip cuts a title holding `:` at its first `:`, since the reader
      keeps only the text before it: the title `Intro: Minds` is read back
      as `Intro`. */
  lemma TitleColonCut(name: string, head: string, tail: string)
    requires '-' !in name && ':' !in head
    ensures TitleOf(name + "-" + (head + ":" + tail) + ":" + "\n") == Ok(head)
  {
    var after := head + ":" + tail + ":" + "\n";
    assert name + "-" + (head + ":" + tail) + ":" + "\n" == name + ['-'] + after;
    SplitOnceAt(name, '-', after);
    assert after == head + [':'] + (tail + ":" + "\n");
    SplitAtFirst(head, ':', tail + ":" + "\n");
  }

  /** A name holding `-` loses what follows its first `-` to the title: the
      name `t01-a` with title `Intro` reads back the title `a-Intro`. */
  lemma NameHyphenMoves(first: string, rest: string, title: string)
    requires '-' !in first && ':' !in rest && ':' !in title
    ensures TitleOf((first + "-" + rest) + "-" + title + ":" + "\n") == Ok(rest + "-" + title)
  {
    var after := rest + "-" + title + ":" + "\n";
    assert (first + "-" + rest) + "-" + title + ":" + "\n" == first + ['-'] + after;
    SplitOnceAt(first, '-', after);
    assert ':' !in rest + "-" + title;
    assert after == (rest + "-" + title) + [':'] + "\n";
    SplitAtFirst(rest + "-" + title, ':', "\n");
  }

  lemma QuotedSingle(w: string)
    ensures Tree.QuotedWords([w]) == Quoted(w) + " " && Tree.PlainWords([w]) == w + " "
  {
    assert [w][..0] == [];
  }

  /** The bytes literal of a word ending in `b` loses that `b`. */
  lemma UnquoteBEnding(w: string)
    requires CleanWord(w)
    ensures Unquote(Quoted(w + "b") + " ") == w + " "
  {
    var tail := "b' ";
    var s := Quoted(w + "b") + " ";
    assert s == "b'" + (w + tail);
    assert s[..2] == "b'" && s[2..] == w + tail;
    assert ReplaceAll(s, "b'", "") == ReplaceAll(w + tail, "b'", "");
    NoStraddlePair(w, "b'");
    ReplaceAllConcat(w, tail, "b'", "");
    ReplaceAllLastAbsent(w, "b'", "");
    StripTail(tail);
    assert ReplaceAll(s, "b'", "") == w + " ";
    NoStraddleSingle(w, '\'');
    ReplaceAllConcat(w, " ", "'", "");
    ReplaceAllAbsent(w, "'", "");
    ReplaceAllAbsent(" ", "'", "");
  }

  lemma StripTail(tail: string)
    requires tail == "b' "
    ensures ReplaceAll(tail, "b'", "") == " "
  {
    assert tail[..2] == "b'" && tail[2..] == " ";
    ReplaceAllAbsent(" ", "b'", "");
  }

  // ---------------------------------------------------------------------
  // One keyword line

  /** A keyword line whose text after `: ` unquotes to words. */
  lemma LineOf(lead: string, q: string, plain: string, ws: seq<string>, end: string)
    requires ':' !in lead && ':' !in q && (end == "" || end == "\n")
    requires q == [] || q[|q| - 1] == ' '
    requires Unquote(q) == plain && SplitWs(" " + plain + end) == ws
    ensures LineWords(lead + ": " + q + end) == Ok(ws)
  {
    var rest := " " + q + end;
    assert lead + ": " + q + end == lead + [':'] + rest;
    SplitAtFirst(lead, ':', rest);
    UnquoteRest(q, end);
  }

  lemma UnquoteRest(q: string, end: string)
    requires end == "" || end == "\n"
    requires q == [] || q[|q| - 1] == ' '
    ensures Unquote(" " + q + end) == " " + Unquote(q) + end
  {
    UnquoteConcat(" ", q);
    assert (" " + q)[|" " + q| - 1] == ' ';
    UnquoteConcat(" " + q, end);
    UnquoteBlank(" ");
    UnquoteBlank(end);
  }

  /** A keyword line of clean words reads back as its words. */
  lemma KeywordLine(lead: string, ks: seq<string>, end: string)
    requires ':' !in lead && (end == "" || end == "\n") && CleanWords(ks)
    ensures LineWords(KeywordSeg(lead, ks) + end) == Ok(ks)
  {
    var q := Tree.QuotedWords(ks);
    QuotedAvoids(ks, ':');
    QuotedEnd(ks);
    UnquoteQuoted(ks);
    SplitWsLine(ks, end);
    LineOf(lead, q, Tree.PlainWords(ks), ks, end);
  }

  lemma SplitWsLine(ks: seq<string>, end: string)
    requires CleanWords(ks) && (end == "" || end == "\n")
    ensures SplitWs(" " + Tree.PlainWords(ks) + end) == ks
  {
    SplitWsPlain(ks, end);
    assert " " + Tree.PlainWords(ks) + end == [' '] + (Tree.PlainWords(ks) + end);
    SplitWsSpace(' ', Tree.PlainWords(ks) + end);
  }

  /** `split()` recovers words written one after another with a space. */
  lemma {:induction false} SplitWsPlain(ks: seq<string>, end: string)
    requires CleanWords(ks) && (end == "" || end == "\n")
    ensures SplitWs(Tree.PlainWords(ks) + end) == ks
    decreases |ks|
  {
    if ks == [] {
      assert Tree.PlainWords(ks) + end == end;
      if end == "\n" {
        SplitWsSpace('\n', "");
      }
    } else {
      var w, rest := ks[0], ks[1..];
      assert ks == [w] + rest;
      assert CleanWords(rest) by {
        forall i | 0 <= i < |rest| ensures CleanWord(rest[i]) {
          assert rest[i] == ks[i + 1];
        }
      }
      assert CleanWord(ks[0]);
      PlainWordsCons(w, rest);
      SplitWsPlain(rest, end);
      assert Tree.PlainWords(ks) + end == w + [' '] + (Tree.PlainWords(rest) + end);
      SplitWsWord(w, ' ', Tree.PlainWords(rest) + end);
    }
  }

  /** The plain writer, seen from the front. */
  lemma {:induction false} PlainWordsCons(w: string, ks: seq<string>)
    ensures Tree.PlainWords([w] + ks) == w + " " + Tree.PlainWords(ks)
    decreases |ks|
  {
    var q := [w] + ks;
    if ks == [] {
      assert q[..0] == [];
    } else {
      var prefix, last := ks[..|ks| - 1], ks[|ks| - 1];
      assert q[..|q| - 1] == [w] + prefix;
      PlainWordsCons(w, prefix);
    }
  }

  /** Removing the quoting from the bytes literals of clean words leaves
      each word followed by its space. */
  lemma {:induction false} UnquoteQuoted(ks: seq<string>)
    requires CleanWords(ks)
    ensures Unquote(Tree.QuotedWords(ks)) == Tree.PlainWords(ks)
    decreases |ks|
  {
    if ks != [] {
      var prefix, w := ks[..|ks| - 1], ks[|ks| - 1];
      assert CleanWords(prefix) by {
        forall i | 0 <= i < |prefix| ensures CleanWord(prefix[i]) {
          assert prefix[i] == ks[i];
        }
      }
      assert CleanWord(ks[|ks| - 1]);
      UnquoteQuoted(prefix);
      QuotedEnd(prefix);
      var a, piece := Tree.QuotedWords(prefix), Quoted(w) + " ";
      Associative(a, Quoted(w), " ");
      UnquoteConcat(a, piece);
      UnquotePiece(w);
      Associative(Tree.PlainWords(prefix), w, " ");
    }
  }

  /** One bytes literal and its space lose their quoting. */
  lemma UnquotePiece(w: string)
    requires CleanWord(w)
    ensures Unquote(Quoted(w) + " ") == w + " "
  {
    var tail := "' ";
    var s := Quoted(w) + " ";
    assert s == "b'" + (w + tail);
    assert s[..2] == "b'" && s[2..] == w + tail;
    assert ReplaceAll(s, "b'", "") == ReplaceAll(w + tail, "b'", "");
    NoStraddlePair(w, "b'");
    ReplaceAllConcat(w, tail, "b'", "");
    ReplaceAllLastAbsent(w, "b'", "");
    ReplaceAllAbsent(tail, "b'", "");
    NoStraddleSingle(w, '\'');
    ReplaceAllConcat(w, tail, "'", "");
    ReplaceAllAbsent(w, "'", "");
    UnquoteTail(tail);
  }

  lemma UnquoteTail(tail: string)
    requires tail == "' "
    ensures ReplaceAll(tail, "'", "") == " "
  {
    assert tail[..1] == "'" && tail[1..] == " ";
    ReplaceAllAbsent(" ", "'", "");
  }

  /** Blanks are left alone. */
  lemma UnquoteBlank(s: string)
    requires s == "" || s == " " || s == "\n"
    ensures Unquote(s) == s
  {
    ReplaceAllAbsent(s, "b'", "");
    ReplaceAllAbsent(s, "'", "");
  }

  /** The unquoting of two texts is the unquoting of each, when the first
      does not end in `b`. */
  lemma UnquoteConcat(x: string, y: string)
    requires x == [] || x[|x| - 1] != 'b'
    ensures Unquote(x + y) == Unquote(x) + Unquote(y)
  {
    NoStraddlePair(x, "b'");
    ReplaceAllConcat(x, y, "b'", "");
    var x1, y1 := ReplaceAll(x, "b'", ""), ReplaceAll(y, "b'", "");
    NoStraddleSingle(x1, '\'');
    ReplaceAllConcat(x1, y1, "'", "");
  }

  /** The quoted writer ends every keyword with a space. */
  lemma QuotedEnd(ks: seq<string>)
    ensures Tree.QuotedWords(ks) == [] || Tree.QuotedWords(ks)[|Tree.QuotedWords(ks)| - 1] == ' '
  {
  }

  /** The quoted writer only writes letters, quotes and spaces. */
  lemma {:induction false} QuotedAvoids(ks: seq<string>, c: char)
    requires CleanWords(ks) && !IsAsciiLetter(c) && c != '\'' && c != ' '
    ensures c !in Tree.QuotedWords(ks)
    decreases |ks|
  {
    if ks != [] {
      var prefix, w := ks[..|ks| - 1], ks[|ks| - 1];
      assert CleanWords(prefix) by {
        forall i | 0 <= i < |prefix| ensures CleanWord(prefix[i]) {
          assert prefix[i] == ks[i];
        }
      }
      assert CleanWord(ks[|ks| - 1]);
      QuotedAvoids(prefix, c);
      assert c !in w;
    }
  }

  // ---------------------------------------------------------------------
  // The lines of the file

  /** The django writer's text is its segments joined with newlines. */
  lemma DjangoTextJoined(name: string, title: string, lecture: seq<string>, d: Tree.Keywords)
    ensures Tree.DjangoTreeText(name, title, lecture, d) == Joined(TreeSegs(name, title, lecture, d))
  {
    var first, q := name + "-" + title + ":", Tree.QuotedWords(lecture);
    var h := ["", first, KeywordSeg("--------Lecture", lecture)];
    assert Tree.DjangoTreeText(name, title, lecture, d) == "\n" + first + "\n--------Lecture: " + q + Tree.ParagraphBlocks(d);
    HeadJoined(first, "--------Lecture", q, h);
    BlocksJoined(h, d);
    assert TreeSegs(name, title, lecture, d) == h + BlockSegs(d);
  }

  /** The site writer's text is an empty line, the name line holding the
      lecture keywords, then one line per paragraph, as in the django file. */
  lemma SiteTreeLines(name: string, lecture: seq<string>, d: Tree.Keywords)
    requires '\n' !in name
    requires CleanWords(lecture) && forall i :: 0 <= i < |d| ==> CleanWords(d[i].1)
    ensures ReadLines(Tree.SiteTreeText(name, lecture, d)) ==
              Lines(["", name + ":" + Tree.PlainWords(lecture)] + BlockSegs(d))
  {
    var h := ["", name + ":" + Tree.PlainWords(lecture)];
    assert h[1..][1..] == [];
    assert Joined(h) == "\n" + name + ":" + Tree.PlainWords(lecture);
    BlocksJoined(h, d);
    PlainAvoids(lecture, '\n');
    BlockSegsLines(h, d);
    ReadLinesJoined(h + BlockSegs(d));
  }

  lemma BlockSegsLines(h: seq<string>, d: Tree.Keywords)
    requires |h| >= 1 && h[|h| - 1] != [] && forall i :: 0 <= i < |h| ==> '\n' !in h[i]
    requires forall i :: 0 <= i < |d| ==> CleanWords(d[i].1)
    ensures var segs := h + BlockSegs(d);
            segs[|segs| - 1] != [] && forall i :: 0 <= i < |segs| ==> '\n' !in segs[i]
  {
    var segs := h + BlockSegs(d);
    forall i | 0 <= i < |segs| ensures '\n' !in segs[i] {
      if i >= |h| {
        var p := d[i - |h|];
        QuotedAvoids(p.1, '\n');
        assert segs[i] == ParagraphLabel(p.0) + ": " + Tree.QuotedWords(p.1);
      }
    }
  }

  lemma {:induction false} PlainAvoids(ks: seq<string>, c: char)
    requires CleanWords(ks) && !IsAsciiLetter(c) && c != ' '
    ensures c !in Tree.PlainWords(ks)
    decreases |ks|
  {
    if ks != [] {
      var prefix := ks[..|ks| - 1];
      assert CleanWords(prefix) by {
        forall i | 0 <= i < |prefix| ensures CleanWord(prefix[i]) {
          assert prefix[i] == ks[i];
        }
      }
      PlainAvoids(prefix, c);
      assert CleanWord(ks[|ks| - 1]);
    }
  }

  lemma HeadJoined(first: string, lead: string, q: string, h: seq<string>)
    requires lead == "--------Lecture" && h == ["", first, lead + ": " + q]
    ensures "\n" + first + "\n--------Lecture: " + q == Joined(h)
  {
    assert h[1..][1..] == [lead + ": " + q];
    assert Joined(h[1..]) == first + "\n" + (lead + ": " + q);
    assert "\n--------Lecture: " == "\n" + lead + ": ";
  }

  /** Appending the paragraph blocks appends one segment per paragraph. */
  lemma {:induction false} BlocksJoined(h: seq<string>, d: Tree.Keywords)
    requires |h| >= 1
    ensures Joined(h) + Tree.ParagraphBlocks(d) == Joined(h + BlockSegs(d))
    decreases |d|
  {
    if d == [] {
      assert h + BlockSegs(d) == h;
    } else {
      var prefix, last := d[..|d| - 1], d[|d| - 1];
      var seg := KeywordSeg(ParagraphLabel(last.0), last.1);
      BlocksJoined(h, prefix);
      assert BlockSegs(d) == BlockSegs(prefix) + [seg];
      assert h + BlockSegs(d) == (h + BlockSegs(prefix)) + [seg];
      JoinedSnoc(h + BlockSegs(prefix), seg);
      HeaderSeg(last.0, Tree.QuotedWords(last.1), seg);
      BlockStep(Joined(h), Tree.ParagraphBlocks(prefix), Tree.ParagraphHeader(last.0), Tree.QuotedWords(last.1), seg);
    }
  }

  lemma BlockStep(a: string, b: string, header: string, q: string, seg: string)
    requires header + q == "\n" + seg
    ensures a + (b + header + q) == (a + b) + "\n" + seg
  {
    assert b + header + q == b + (header + q);
  }

  lemma HeaderSeg(p: nat, q: string, seg: string)
    requires seg == ParagraphLabel(p) + ": " + q
    ensures Tree.ParagraphHeader(p) + q == "\n" + seg
  {
  }

  lemma {:induction false} JoinedSnoc(segs: seq<string>, x: string)
    requires |segs| >= 1
    ensures Joined(segs + [x]) == Joined(segs) + "\n" + x
    decreases |segs|
  {
    var s := segs + [x];
    if |segs| == 1 {
      assert s[1..] == [x];
    } else {
      assert s[1..] == segs[1..] + [x];
      JoinedSnoc(segs[1..], x);
    }
  }

  /** `readlines` splits joined segments back into lines. */
  lemma {:induction false} ReadLinesJoined(segs: seq<string>)
    requires |segs| >= 1 && segs[|segs| - 1] != []
    requires forall i :: 0 <= i < |segs| ==> '\n' !in segs[i]
    ensures ReadLines(Joined(segs)) == Lines(segs)
    decreases |segs|
  {
    if |segs| == 1 {
      ReadLinesLast(segs[0]);
      assert segs[0] + "" == segs[0];
      assert Lines(segs) == [segs[0]];
    } else {
      ReadLinesJoined(segs[1..]);
      ReadLinesLine(segs[0], Joined(segs[1..]));
      var r := Lines(segs);
      assert r == [segs[0] + "\n"] + Lines(segs[1..]);
    }
  }

  /** The segments of a Tree file hold no newline and the last is not empty. */
  lemma TreeSegsLines(name: string, title: string, lecture: seq<string>, d: Tree.Keywords)
    requires '\n' !in name && '\n' !in title
    requires CleanWords(lecture) && forall i :: 0 <= i < |d| ==> CleanWords(d[i].1)
    ensures var segs := TreeSegs(name, title, lecture, d);
            segs[|segs| - 1] != [] && forall i :: 0 <= i < |segs| ==> '\n' !in segs[i]
  {
    var segs := TreeSegs(name, title, lecture, d);
    forall i | 0 <= i < |segs| ensures '\n' !in segs[i] {
      if i >= 3 {
        var p := d[i - 3];
        QuotedAvoids(p.1, '\n');
        assert segs[i] == ParagraphLabel(p.0) + ": " + Tree.QuotedWords(p.1);
      } else if i == 2 {
        QuotedAvoids(lecture, '\n');
      }
    }
  }

  /** Reading the lines of a Tree file. */
  lemma TreeLinesRead(name: string, title: string, lecture: seq<string>, d: Tree.Keywords, stop: set<string>)
    requires '-' !in name && ':' !in title
    requires CleanWords(lecture) && forall i :: 0 <= i < |d| ==> CleanWords(d[i].1)
    ensures var lines := Lines(TreeSegs(name, title, lecture, d));
            ReadTree(lines, |lines|, stop) ==
              Ok(TreeDict(title, NonStopWords(lecture, stop), ByParagraph(KeptParagraphs(d, stop))))
  {
    var segs := TreeSegs(name, title, lecture, d);
    var lines := Lines(segs);
    TitleLine(name, title, lines[1]);
    LectureLine(segs, lecture);
    ParagraphLines(name, title, lecture, d);
    PartsRead(lines, title, lecture, d, stop);
  }

  /** Lines holding a title, lecture keywords and paragraph keywords read
      back as those, without stop words, and with only the words of letters
      longer than one character in the paragraphs. */
  lemma PartsRead(lines: seq<string>, title: string, lecture: seq<string>, d: Tree.Keywords, stop: set<string>)
    requires |lines| == |d| + 3
    requires TitleOf(lines[1]) == Ok(title) && LineWords(lines[2]) == Ok(lecture)
    requires forall k :: 0 <= k < |d| ==> LineWords(lines[k + 3]) == Ok(d[k].1)
    ensures ReadTree(lines, |lines|, stop) ==
              Ok(TreeDict(title, NonStopWords(lecture, stop), ByParagraph(KeptParagraphs(d, stop))))
  {
    var n := |lines|;
    assert Readable(lines, n) by {
      forall k | 1 <= k < n ensures LineReadable(lines[k], k) {
        if k >= 3 {
          assert LineWords(lines[k - 3 + 3]) == Ok(d[k - 3].1);
        }
      }
    }
    ReadTreeHead(lines, n, stop);
    ReadTreeParagraphs(lines, n, stop);
    assert ParagraphValues(lines, n, stop) == KeptParagraphs(d, stop);
  }

  lemma LectureLine(segs: seq<string>, lecture: seq<string>)
    requires |segs| >= 3 && segs[2] == KeywordSeg("--------Lecture", lecture) && CleanWords(lecture)
    ensures LineWords(Lines(segs)[2]) == Ok(lecture)
  {
    KeywordLine("--------Lecture", lecture, if 2 < |segs| - 1 then "\n" else "");
  }

  lemma ParagraphLines(name: string, title: string, lecture: seq<string>, d: Tree.Keywords)
    requires forall i :: 0 <= i < |d| ==> CleanWords(d[i].1)
    ensures forall k :: 0 <= k < |d| ==> LineWords(Lines(TreeSegs(name, title, lecture, d))[k + 3]) == Ok(d[k].1)
  {
    forall k | 0 <= k < |d| ensures LineWords(Lines(TreeSegs(name, title, lecture, d))[k + 3]) == Ok(d[k].1) {
      ParagraphLine(TreeSegs(name, title, lecture, d), d, k);
    }
  }

  lemma ParagraphLine(segs: seq<string>, d: Tree.Keywords, k: nat)
    requires k < |d| && |segs| == |d| + 3 && segs[k + 3] == KeywordSeg(ParagraphLabel(d[k].0), d[k].1)
    requires CleanWords(d[k].1)
    ensures LineWords(Lines(segs)[k + 3]) == Ok(d[k].1)
  {
    LabelNoColon(d[k].0);
    KeywordLine(ParagraphLabel(d[k].0), d[k].1, if k + 3 < |segs| - 1 then "\n" else "");
  }

  lemma LabelNoColon(p: nat)
    ensures ':' !in ParagraphLabel(p)
  {
    var digits := NatToString(p);
    assert ':' !in digits by {
      forall i | 0 <= i < |digits| ensures digits[i] != ':' {
        assert '0' <= digits[i] <= '9';
      }
    }
  }

  /** The name line gives back the title. */
  lemma TitleLine(name: string, title: string, line: string)
    requires '-' !in name && ':' !in title && line == name + "-" + title + ":" + "\n"
    ensures TitleOf(line) == Ok(title)
  {
    var after := title + ":" + "\n";
    assert line == name + ['-'] + after;
    SplitOnceAt(name, '-', after);
    assert after == title + [':'] + "\n";
    SplitAtFirst(title, ':', "\n");
  }

  /** `split(c, 1)` cuts at the first `c`. */
  lemma SplitOnceAt(a: string, c: char, b: string)
    requires c !in a
    ensures SplitOnce(a + [c] + b, c) == Some(Halves(a, b))
  {
    var s := a + [c] + b;
    assert s[|a|] == c;
    var h := SplitOnce(s, c).value;
    assert h.before == s[..|a|] == a;
    assert h.after == s[|a| + 1..] == b;
  }

  // ---------------------------------------------------------------------
  // String helpers

  /** A pattern whose last character does not occur never matches. */
  lemma {:induction false} ReplaceAllLastAbsent(s: string, p: string, r: string)
    requires |p| > 0 && p[|p| - 1] !in s
    ensures ReplaceAll(s, p, r) == s
    decreases |s|
  {
    if |s| >= |p| {
      assert s[..|p|][|p| - 1] == s[|p| - 1];
      ReplaceAllLastAbsent(s[1..], p, r);
    }
  }

  /** A two-character pattern straddles only after its first character. */
  lemma NoStraddlePair(x: string, p: string)
    requires |p| == 2 && (x == [] || x[|x| - 1] != p[0])
    ensures NoStraddle(x, p)
  {
    if x != [] {
      assert x[|x| - 1..] == [x[|x| - 1]];
    }
  }
}
