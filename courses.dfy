/** The course helpers both `utils.py` copies share: the course number as it
    appears in download links, the download link of a course, and the check
    of a transcript number a user asks for. */
module Courses {
  import opened Lists
  import opened Strings
  import opened Exceptions

  /** The two fields of a course record the helpers read. */
  datatype Course = Course(number: string, season: string)

  /** The address every course archive is downloaded from. */
  const LinkPrefix: string := "http://openmedia.yale.edu/cgi-bin/open_yale/media_downloader.cgi?file=/courses/"

  predicate NoUpper(s: string) {
    forall i :: 0 <= i < |s| ==> !('A' <= s[i] <= 'Z')
  }

  /** `get_course_number_link_format`: `CHEM 125a` is `chem125`; any other
      number loses its spaces and is lower-cased. */
  function NumberLinkFormat(c: Course): (r: string)
    ensures ' ' !in r && NoUpper(r)
    ensures c.number != "CHEM 125a" ==> |r| <= |c.number|
    ensures c.number != "CHEM 125a" && ' ' !in c.number && NoUpper(c.number) ==> r == c.number
  {
    if c.number == "CHEM 125a" then "chem125"
    else
      var r := Lower(RemoveChar(c.number, ' '));
      LowerKeepsSpaces(RemoveChar(c.number, ' '));
      if ' ' !in c.number && NoUpper(c.number) then
        RemoveCharAbsent(c.number, ' ');
        LowerOfLower(c.number);
        r
      else r
  }

  /** The season part of a link: the first word of the season and its last
      two characters, lower-cased; a season without words has no first word. */
  function SeasonSegment(season: string): (r: Result<string>)
    ensures r.Raise? <==> SplitWs(season) == []
    ensures r.Raise? ==> r.error == IndexError
  {
    var words := SplitWs(season);
    if words == [] then Raise(IndexError) else Ok(Lower(words[0] + LastTwo(season)))
  }

  /** The archive name: the 2011 Financial Theory archive has its own name. */
  function ArchiveName(c: Course): string {
    if c.number == "ECON 252" && c.season == "Spring 2011" then "econ252_11" else NumberLinkFormat(c)
  }

  /** `get_course_link`. */
  function CourseLink(c: Course): (r: Result<string>)
    ensures r.Raise? <==> SplitWs(c.season) == []
    ensures r.Raise? ==> r.error == IndexError
    ensures r.Ok? ==> |r.value| > |LinkPrefix| && r.value[..|LinkPrefix|] == LinkPrefix
  {
    var season :- SeasonSegment(c.season);
    Ok(LinkPrefix + (season + "/" + NumberLinkFormat(c) + "/download/" + ArchiveName(c) + ".zip"))
  }

  /** `validate_transcript_num` once the number of transcripts is known. */
  function ValidTranscript(value: int, count: int): (r: bool)
    ensures r ==> 1 <= value < count
  {
    0 < value < count
  }

  /** The check the transcript form evidently intends: transcripts are
      numbered from 1 to their count, and every one of them exists. */
  function TranscriptExists(value: int, count: int): (r: bool)
    ensures r ==> 1 <= value <= count
  {
    0 < value <= count
  }

  // ---------------------------------------------------------------------
  // Lemmas

  /** The link format of a link format is itself. */
  lemma NumberLinkFormatIdempotent(c: Course, season: string)
    ensures NumberLinkFormat(Course(NumberLinkFormat(c), season)) == NumberLinkFormat(c)
  {
    var r := NumberLinkFormat(c);
    if |r| > 0 {
      assert !('A' <= r[0] <= 'Z');
    }
    assert "CHEM 125a"[0] == 'C';
  }

  /** After the prefix, a link is four `/`-separated parts: the season, the
      course number, `download` and the archive, whenever neither the
      number nor the season holds a `/`. */
  lemma CourseLinkParts(c: Course)
    requires '/' !in c.number && '/' !in c.season && SplitWs(c.season) != []
    ensures CourseLink(c).Ok?
    ensures Split(CourseLink(c).value[|LinkPrefix|..], '/') ==
            [SeasonSegment(c.season).value, NumberLinkFormat(c), "download", ArchiveName(c) + ".zip"]
  {
    var season, number, name := SeasonSegment(c.season).value, NumberLinkFormat(c), ArchiveName(c);
    assert CourseLink(c).value[|LinkPrefix|..] == season + "/" + number + "/download/" + name + ".zip";
    LinkShape(season, number, name);
    SeasonNoSlash(c.season);
    NumberNoSlash(c);
    ArchiveNoSlash(c);
    SplitFour(season, number, "download", name + ".zip", '/');
  }

  /** The tail of a link, with its separators written out. */
  lemma LinkShape(season: string, number: string, name: string)
    ensures season + "/" + number + "/download/" + name + ".zip" ==
            season + ['/'] + number + ['/'] + "download" + ['/'] + (name + ".zip")
    ensures '/' !in "download"
  {
  }

  lemma ArchiveNoSlash(c: Course)
    requires '/' !in c.number
    ensures '/' !in ArchiveName(c) + ".zip"
  {
    NumberNoSlash(c);
    assert '/' !in ".zip" && '/' !in "econ252_11";
  }

  lemma SeasonNoSlash(season: string)
    requires '/' !in season && SplitWs(season) != []
    ensures '/' !in SeasonSegment(season).value
  {
    SplitWsPart(season, 0);
    LowerKeepsSlash(SplitWs(season)[0] + LastTwo(season));
  }

  lemma NumberNoSlash(c: Course)
    requires '/' !in c.number
    ensures '/' !in NumberLinkFormat(c)
  {
    if c.number != "CHEM 125a" {
      LowerKeepsSlash(RemoveChar(c.number, ' '));
    } else {
      assert '/' !in "chem125";
    }
  }

  /** Four separator-free parts joined by the separator split back apart. */
  lemma SplitFour(a: string, b: string, c: string, d: string, sep: char)
    requires sep !in a && sep !in b && sep !in c && sep !in d
    ensures Split(a + [sep] + b + [sep] + c + [sep] + d, sep) == [a, b, c, d]
  {
    assert a + [sep] + b + [sep] + c + [sep] + d == a + [sep] + (b + [sep] + (c + [sep] + d));
    SplitAtFirst(a, sep, b + [sep] + (c + [sep] + d));
    SplitAtFirst(b, sep, c + [sep] + d);
    SplitAtFirst(c, sep, d);
  }

  /** The number of the course in the transcript form's test. */
  lemma AfamNumber(c: Course)
    requires c.number == "AFAM 162"
    ensures NumberLinkFormat(c) == "afam162"
  {
    AfamSpaceless(c.number);
    AfamLower("AFAM162");
  }

  lemma AfamSpaceless(number: string)
    requires number == "AFAM 162"
    ensures RemoveChar(number, ' ') == "AFAM162"
  {
    assert number == "AFAM" + [' '] + "162";
    assert ' ' !in "AFAM" && ' ' !in "162";
    SpaceDropped("AFAM", "162");
  }

  /** Dropping the one space between two words joins them. */
  lemma SpaceDropped(a: string, b: string)
    requires ' ' !in a && ' ' !in b
    ensures RemoveChar(a + [' '] + b, ' ') == a + b
  {
    assert a + [' '] + b == a + ([' '] + b);
    RemoveCharConcat(a, [' '] + b, ' ');
    assert ([' '] + b)[1..] == b;
    RemoveCharAbsent(a, ' ');
    RemoveCharAbsent(b, ' ');
  }

  lemma AfamLower(s: string)
    requires s == "AFAM162"
    ensures Lower(s) == "afam162"
  {
  }

  /** The season of the course in the transcript form's test. */
  lemma AfamSeason(season: string)
    requires season == "Spring 2010"
    ensures SeasonSegment(season) == Ok("spring10")
  {
    var w, rest := "Spring", "2010";
    SplitWsWord(w, ' ', rest);
    SpringWords(season);
    SpringLower(w + LastTwo(season));
  }

  lemma SpringWords(season: string)
    requires season == "Spring 2010"
    ensures season == "Spring" + [' '] + "2010" && LastTwo(season) == "10"
  {
  }

  lemma SpringLower(s: string)
    requires s == "Spring10"
    ensures Lower(s) == "spring10"
  {
  }

  /** The link of the course in the transcript form's test. */
  lemma AfamLink(c: Course)
    requires c == Course("AFAM 162", "Spring 2010")
    ensures CourseLink(c) == Ok(LinkPrefix + "spring10/afam162/download/afam162.zip")
  {
    AfamNumber(c);
    AfamSeason(c.season);
    AfamTail("spring10", "afam162");
  }

  lemma AfamTail(season: string, number: string)
    requires season == "spring10" && number == "afam162"
    ensures season + "/" + number + "/download/" + number + ".zip" == "spring10/afam162/download/afam162.zip"
  {
  }

  /** The check as written turns down the last transcript, which exists. */
  lemma LastTranscriptRejected(count: int)
    requires count >= 1
    ensures TranscriptExists(count, count) && !ValidTranscript(count, count)
  {
  }

  /** The intended check accepts exactly the transcript numbers 1 to count,
      and agrees with the check as written everywhere else. */
  lemma TranscriptExistsExactly(value: int, count: int)
    ensures TranscriptExists(value, count) <==> 1 <= value <= count
    ensures value != count ==> TranscriptExists(value, count) == ValidTranscript(value, count)
  {
  }

  // ---------------------------------------------------------------------
  // Helpers

  lemma {:induction false} RemoveCharAbsent(s: string, c: char)
    requires c !in s
    ensures RemoveChar(s, c) == s
  {
    if s != [] {
      RemoveCharAbsent(s[1..], c);
      assert [s[0]] + s[1..] == s;
    }
  }

  lemma RemoveCharConcat(a: string, b: string, c: char)
    ensures RemoveChar(a + b, c) == RemoveChar(a, c) + RemoveChar(b, c)
  {
    if a != [] {
      assert (a + b)[1..] == a[1..] + b;
      RemoveCharConcat(a[1..], b, c);
      if a[0] != c {
        Associative([a[0]], RemoveChar(a[1..], c), RemoveChar(b, c));
      }
    } else {
      assert a + b == b;
    }
  }

  lemma LowerConcat(a: string, b: string)
    ensures Lower(a + b) == Lower(a) + Lower(b)
  {
  }

  lemma LowerOfLower(s: string)
    requires NoUpper(s)
    ensures Lower(s) == s
  {
  }

  lemma LowerKeepsSpaces(s: string)
    ensures ' ' in Lower(s) <==> ' ' in s
    ensures NoUpper(Lower(s))
  {
    if ' ' in s {
      var i :| 0 <= i < |s| && s[i] == ' ';
      assert Lower(s)[i] == ' ';
    }
  }

  lemma LowerKeepsSlash(s: string)
    ensures '/' in Lower(s) <==> '/' in s
  {
    if '/' in s {
      var i :| 0 <= i < |s| && s[i] == '/';
      assert Lower(s)[i] == '/';
    }
  }
}
