/** The Python `str` operations the core relies on, with Python's semantics:
    `split(sep)`, `split(sep, 1)`, `split()`, `replace`, `lower`, `isalpha`,
    `readlines` on a file's text, and `str` of a natural number.
    Only ASCII is modelled: letters, case and whitespace are the ASCII ones. */
module Strings {
  import opened Lists

  predicate IsAsciiLetter(ch: char) {
    ('a' <= ch <= 'z') || ('A' <= ch <= 'Z')
  }

  /** `str.isalpha()`: non-empty and made of letters only. */
  predicate IsAlpha(s: string) {
    |s| > 0 && forall i :: 0 <= i < |s| ==> IsAsciiLetter(s[i])
  }

  /** The ASCII characters `str.split()` treats as whitespace: space, tab,
      line feed, vertical tab, form feed, carriage return and the four
      separators `\x1c` to `\x1f`. */
  predicate IsSpace(ch: char) {
    ch == ' ' || 9 <= ch as int <= 13 || 28 <= ch as int <= 31
  }

  predicate NoSpace(s: string) {
    forall i :: 0 <= i < |s| ==> !IsSpace(s[i])
  }

  function LowerChar(ch: char): (r: char)
    ensures 'A' <= ch <= 'Z' ==> 'a' <= r <= 'z'
    ensures !('A' <= ch <= 'Z') ==> r == ch
  {
    if 'A' <= ch <= 'Z' then (ch as int + 32) as char else ch
  }

  /** `str.lower()` on ASCII. */
  function Lower(s: string): (r: string)
    ensures |r| == |s|
    ensures forall i :: 0 <= i < |s| ==> r[i] == LowerChar(s[i])
  {
    seq(|s|, i requires 0 <= i < |s| => LowerChar(s[i]))
  }

  /** `s.replace(' ', '')`. */
  function RemoveChar(s: string, c: char): (r: string)
    ensures c !in r && |r| <= |s|
    ensures forall ch :: ch != c ==> (ch in r <==> ch in s)
  {
    if s == [] then []
    else if s[0] == c then RemoveChar(s[1..], c)
    else [s[0]] + RemoveChar(s[1..], c)
  }

  /** `s[-2:]`: the last two characters, or all of them when there are fewer. */
  function LastTwo(s: string): (r: string)
    ensures |r| == if |s| < 2 then |s| else 2
    ensures s == s[..|s| - |r|] + r
  {
    if |s| < 2 then s else s[|s| - 2..]
  }

  /** The concatenation of a list of strings, `''.join(parts)`. */
  function Concat(parts: seq<string>): string {
    if parts == [] then [] else parts[0] + Concat(parts[1..])
  }

  /** `s.replace(p, r)`: every occurrence of `p`, scanning left to right
      without overlap, is replaced by `r`. */
  function ReplaceAll(s: string, p: string, r: string): string
    requires |p| > 0
    decreases |s|
  {
    if |s| < |p| then s
    else if s[..|p|] == p then r + ReplaceAll(s[|p|..], p, r)
    else [s[0]] + ReplaceAll(s[1..], p, r)
  }

  /** `s.split(c)` for a one-character separator. */
  function Split(s: string, c: char): (r: seq<string>)
    ensures |r| >= 1
    ensures c !in s ==> r == [s]
  {
    if s == [] then [[]]
    else if s[0] == c then [[]] + Split(s[1..], c)
    else
      var rest := Split(s[1..], c);
      assert [s[0]] + s[1..] == s;
      [[s[0]] + rest[0]] + rest[1..]
  }

  /** The position of the first `c` in `s`. */
  function IndexOf(s: string, c: char): (i: nat)
    requires c in s
    ensures i < |s| && s[i] == c && c !in s[..i]
  {
    if s[0] == c then 0 else 1 + IndexOf(s[1..], c)
  }

  /** `s.split(c, 1)`: the text before the first `c` and the text after it;
      `None` when `c` does not occur (Python then returns a one-element list). */
  datatype Halves = Halves(before: string, after: string)

  function SplitOnce(s: string, c: char): (r: Option<Halves>)
    ensures r.None? <==> c !in s
    ensures r.Some? ==> s == r.value.before + [c] + r.value.after && c !in r.value.before
  {
    if c in s then
      var i := IndexOf(s, c);
      assert s == s[..i] + [c] + s[i + 1..];
      Some(Halves(s[..i], s[i + 1..]))
    else None
  }

  datatype Option<+T> = None | Some(value: T)

  /** `s.split()`: the maximal runs of non-whitespace characters, in order. */
  function SplitWs(s: string): (r: seq<string>)
    decreases |s|
  {
    if s == [] then []
    else if IsSpace(s[0]) then SplitWs(s[1..])
    else
      var n := WordLength(s);
      [s[..n]] + SplitWs(s[n..])
  }

  /** The length of the run of non-whitespace characters that starts `s`. */
  function WordLength(s: string): (n: nat)
    ensures n <= |s|
    ensures NoSpace(s[..n])
    ensures n < |s| ==> IsSpace(s[n])
  {
    if s == [] || IsSpace(s[0]) then 0 else 1 + WordLength(s[1..])
  }

  /** `f.readlines()` on text `s`: every line keeps its terminating newline;
      the last line has none when the text does not end in one. */
  function ReadLines(s: string): (r: seq<string>)
    ensures s == [] <==> r == []
  {
    if s == [] then []
    else if s[0] == '\n' then [['\n']] + ReadLines(s[1..])
    else
      var rest := ReadLines(s[1..]);
      if rest == [] then [[s[0]]] else [[s[0]] + rest[0]] + rest[1..]
  }

  function Digit(d: nat): (ch: char)
    requires d < 10
    ensures '0' <= ch <= '9'
  {
    ('0' as int + d) as char
  }

  predicate IsDigits(s: string) {
    forall i :: 0 <= i < |s| ==> '0' <= s[i] <= '9'
  }

  /** `str(n)` for a natural number: its decimal digits, no leading zero. */
  function NatToString(n: nat): (r: string)
    ensures |r| >= 1 && IsDigits(r)
    ensures n >= 10 <==> |r| >= 2
  {
    if n < 10 then [Digit(n)] else NatToString(n / 10) + [Digit(n % 10)]
  }

  /** `str(t.encode('utf-8'))`, the way a printable text without quotes or
      backslashes shows as a bytes literal. */
  function Quoted(t: string): string {
    "b'" + t + "'"
  }

  // ---------------------------------------------------------------------
  // Lemmas

  /** `str` is injective on natural numbers. */
  lemma {:induction false} NatToStringInjective(m: nat, n: nat)
    requires NatToString(m) == NatToString(n)
    ensures m == n
  {
    if m >= 10 && n >= 10 {
      var a, b := NatToString(m), NatToString(n);
      assert a[|a| - 1] == Digit(m % 10) && b[|b| - 1] == Digit(n % 10);
      assert NatToString(m / 10) == a[..|a| - 1] == b[..|b| - 1] == NatToString(n / 10);
      NatToStringInjective(m / 10, n / 10);
    }
  }

  /** Splitting a text that holds one separator after a separator-free prefix. */
  lemma {:induction false} SplitAtFirst(a: string, c: char, b: string)
    requires c !in a
    ensures Split(a + [c] + b, c) == [a] + Split(b, c)
  {
    if a == [] {
      assert a + [c] + b == [c] + b;
    } else {
      assert (a + [c] + b)[1..] == a[1..] + [c] + b;
      SplitAtFirst(a[1..], c, b);
      assert [a[0]] + a[1..] == a;
    }
  }

  /** No match of `p` can straddle the end of `x`: no non-empty suffix of `x`
      shorter than `p` is a prefix of `p`. */
  predicate NoStraddle(x: string, p: string) {
    forall k :: 0 < k < |p| && k <= |x| ==> x[|x| - k..] != p[..k]
  }

  /** `replace` distributes over a concatenation when no occurrence of the
      pattern straddles the seam. */
  lemma {:induction false} ReplaceAllConcat(x: string, y: string, p: string, r: string)
    requires |p| > 0 && NoStraddle(x, p)
    ensures ReplaceAll(x + y, p, r) == ReplaceAll(x, p, r) + ReplaceAll(y, p, r)
    decreases |x|
  {
    var s := x + y;
    if x == [] {
      assert s == y;
    } else if |s| < |p| {
      assert ReplaceAll(x, p, r) == x && ReplaceAll(y, p, r) == y;
    } else if s[..|p|] == p {
      ShortPrefixOfMatch(x, y, p);
      assert x[|x| - |x|..] == x;
      NoStraddleSuffix(x, |p|, p);
      ReplaceAllConcat(x[|p|..], y, p, r);
      MatchStep(x, y, p, r);
    } else {
      NoStraddleSuffix(x, 1, p);
      ReplaceAllConcat(x[1..], y, p, r);
      SkipStep(x, y, p, r);
    }
  }

  /** The step of `ReplaceAllConcat` where the pattern matches at the start. */
  lemma MatchStep(x: string, y: string, p: string, r: string)
    requires 0 < |p| <= |x| && x[..|p|] == p
    requires ReplaceAll(x[|p|..] + y, p, r) == ReplaceAll(x[|p|..], p, r) + ReplaceAll(y, p, r)
    ensures ReplaceAll(x + y, p, r) == ReplaceAll(x, p, r) + ReplaceAll(y, p, r)
  {
    var s := x + y;
    assert s[..|p|] == p;
    assert s[|p|..] == x[|p|..] + y;
  }

  /** The step of `ReplaceAllConcat` where the first character is kept. */
  lemma SkipStep(x: string, y: string, p: string, r: string)
    requires 0 < |p| && x != [] && |x + y| >= |p| && (x + y)[..|p|] != p
    requires ReplaceAll(x[1..] + y, p, r) == ReplaceAll(x[1..], p, r) + ReplaceAll(y, p, r)
    ensures ReplaceAll(x + y, p, r) == ReplaceAll(x, p, r) + ReplaceAll(y, p, r)
  {
    var s := x + y;
    assert s[1..] == x[1..] + y;
    var a, b := ReplaceAll(x[1..], p, r), ReplaceAll(y, p, r);
    assert ReplaceAll(s, p, r) == [x[0]] + (a + b);
    if |x| >= |p| {
      assert x[..|p|] == s[..|p|];
      assert ReplaceAll(x, p, r) == [x[0]] + a;
    } else {
      assert a == x[1..];
      assert ReplaceAll(x, p, r) == x == [x[0]] + a;
    }
    Associative([x[0]], a, b);
  }


  lemma ShortPrefixOfMatch(x: string, y: string, p: string)
    requires |x + y| >= |p| && (x + y)[..|p|] == p
    ensures |x| < |p| ==> x == p[..|x|]
  {
    if |x| < |p| {
      assert (x + y)[..|x|] == x;
    }
  }

  lemma NoStraddleSuffix(x: string, n: nat, p: string)
    requires n <= |x| && NoStraddle(x, p)
    ensures NoStraddle(x[n..], p)
  {
    forall k | 0 < k < |p| && k <= |x[n..]|
      ensures x[n..][|x[n..]| - k..] != p[..k]
    {
      assert x[n..][|x[n..]| - k..] == x[|x| - k..];
    }
  }

  /** A single character pattern never straddles. */
  lemma NoStraddleSingle(x: string, c: char)
    ensures NoStraddle(x, [c])
  {
  }

  /** Replacing a pattern whose first character does not occur changes nothing. */
  lemma {:induction false} ReplaceAllAbsent(s: string, p: string, r: string)
    requires |p| > 0 && p[0] !in s
    ensures ReplaceAll(s, p, r) == s
    decreases |s|
  {
    if |s| >= |p| {
      assert s[..|p|][0] == s[0] != p[0];
      ReplaceAllAbsent(s[1..], p, r);
    }
  }

  /** After replacing a one-character pattern by text without it, the character is gone. */
  lemma {:induction false} ReplaceAllRemoves(s: string, c: char, r: string)
    requires c !in r
    ensures c !in ReplaceAll(s, [c], r)
    decreases |s|
  {
    if |s| >= 1 {
      ReplaceAllRemoves(s[1..], c, r);
      if s[..1] == [c] {
        assert s[1..] == s[|[c]|..];
      }
    }
  }

  /** Replacing never introduces a character that neither the text nor the replacement has. */
  lemma {:induction false} ReplaceAllKeepsAbsent(s: string, p: string, r: string, c: char)
    requires |p| > 0 && c !in s && c !in r
    ensures c !in ReplaceAll(s, p, r)
    decreases |s|
  {
    if |s| >= |p| {
      if s[..|p|] == p {
        ReplaceAllKeepsAbsent(s[|p|..], p, r, c);
      } else {
        ReplaceAllKeepsAbsent(s[1..], p, r, c);
      }
    }
  }

  /** `split()` skips a leading whitespace character. */
  lemma SplitWsSpace(ch: char, s: string)
    requires IsSpace(ch)
    ensures SplitWs([ch] + s) == SplitWs(s)
  {
    assert ([ch] + s)[1..] == s;
  }

  /** `split()` of a word followed by whitespace yields the word first. */
  lemma {:induction false} SplitWsWord(w: string, ch: char, s: string)
    requires |w| > 0 && NoSpace(w) && IsSpace(ch)
    ensures SplitWs(w + [ch] + s) == [w] + SplitWs(s)
  {
    var rest := [ch] + s;
    var t := w + rest;
    assert w + [ch] + s == t;
    WordLengthOf(w, rest);
    assert t[0] == w[0] && !IsSpace(t[0]);
    assert SplitWs(t) == [t[..|w|]] + SplitWs(t[|w|..]);
    assert t[..|w|] == w && t[|w|..] == rest;
    SplitWsSpace(ch, s);
  }

  lemma {:induction false} WordLengthOf(w: string, rest: string)
    requires NoSpace(w) && (rest == [] || IsSpace(rest[0]))
    ensures WordLength(w + rest) == |w|
    decreases |w|
  {
    if w != [] {
      assert (w + rest)[1..] == w[1..] + rest;
      WordLengthOf(w[1..], rest);
    } else {
      assert w + rest == rest;
    }
  }

  /** `readlines` on a line followed by a newline and more text. */
  lemma {:induction false} ReadLinesLine(a: string, b: string)
    requires '\n' !in a
    ensures ReadLines(a + "\n" + b) == [a + "\n"] + ReadLines(b)
    decreases |a|
  {
    if a == [] {
      assert a + "\n" + b == "\n" + b;
      assert ("\n" + b)[1..] == b;
    } else {
      assert (a + "\n" + b)[1..] == a[1..] + "\n" + b;
      ReadLinesLine(a[1..], b);
      assert [a[0]] + (a[1..] + "\n") == a + "\n";
    }
  }

  /** `readlines` on a last line without a newline. */
  lemma {:induction false} ReadLinesLast(a: string)
    requires a != [] && '\n' !in a
    ensures ReadLines(a) == [a]
    decreases |a|
  {
    if |a| > 1 {
      ReadLinesLast(a[1..]);
      assert [a[0]] + a[1..] == a;
    } else {
      assert a[1..] == [] && [a[0]] == a;
    }
  }

  /** A word `split()` finds is non-empty, holds no whitespace, and is made
      of characters of the text. */
  lemma {:induction false} SplitWsPart(s: string, k: nat)
    requires k < |SplitWs(s)|
    ensures |SplitWs(s)[k]| > 0 && NoSpace(SplitWs(s)[k])
    ensures forall ch :: ch in SplitWs(s)[k] ==> ch in s
    decreases |s|
  {
    if IsSpace(s[0]) {
      SplitWsPart(s[1..], k);
    } else if k > 0 {
      var n := WordLength(s);
      SplitWsPart(s[n..], k - 1);
    }
  }

  /** No part of `s.split(c)` holds `c`. */
  lemma {:induction false} SplitPartFree(s: string, c: char, k: nat)
    requires k < |Split(s, c)|
    ensures c !in Split(s, c)[k]
    decreases |s|
  {
    if s != [] {
      if s[0] == c {
        if k > 0 {
          SplitPartFree(s[1..], c, k - 1);
        }
      } else {
        var rest := Split(s[1..], c);
        if k == 0 {
          SplitPartFree(s[1..], c, 0);
        } else {
          SplitPartFree(s[1..], c, k);
        }
      }
    }
  }
}
