/** The readers of the site application's `utils.py`. Its `get_tree_dict`
    numbers the lines of a Tree file, and `retrieve_tree_of_knowledge`
    rebuilds each numbered line as a dictionary key holding only the
    keywords a user asks for, through `build_tree_of_knowledge_dictionary`.
    Dictionaries keep their keys in insertion order, and the retrieval
    relies on it: the first key is the lecture line. */
module SiteUtils {
  import opened Lists
  import opened Strings
  import opened Exceptions
  import opened Dicts

  // ---------------------------------------------------------------------
  // get_tree_dict

  /** `get_tree_dict` on the first `n` lines: every line from line 1 on is a
      key whose value is its line number; a repeated line is numbered by its
      last occurrence, but keeps the place of its first. */
  function LineNumbers(lines: seq<string>, n: nat): Dict<string, string>
    requires n <= |lines|
  {
    if n <= 1 then [] else Put(LineNumbers(lines, n - 1), lines[n - 1], NatToString(n - 1))
  }

  /** The line a key came from: line `i` with no later repeat among the
      first `n` lines. */
  ghost predicate LastOccurrence(lines: seq<string>, n: nat, i: nat)
    requires i < n <= |lines|
  {
    forall j :: i < j < n ==> lines[j] != lines[i]
  }

  method GetTreeDict(treeList: seq<string>) returns (treeDict: Dict<string, string>)
    ensures treeDict == LineNumbers(treeList, |treeList|)
  {
    treeDict := [];
    var paragraphNum: nat := 1;
    while paragraphNum < |treeList|
      invariant 1 <= paragraphNum
      invariant treeDict == LineNumbers(treeList, if paragraphNum <= |treeList| then paragraphNum else |treeList|)
    {
      if paragraphNum == 1 {
        treeDict := Put(treeDict, treeList[paragraphNum], "transcript");
        TranscriptReplaced(treeList[paragraphNum]);
      }
      treeDict := Put(treeDict, treeList[paragraphNum], NatToString(paragraphNum));
      paragraphNum := paragraphNum + 1;
    }
  }

  /** The `'transcript'` entered for line 1 is replaced at once by `'1'`. */
  lemma TranscriptReplaced(line: string)
    ensures Put(Put([], line, "transcript"), line, NatToString(1)) == Put([], line, NatToString(1))
  {
    var once: Dict<string, string> := [(line, "transcript")];
    assert Put([], line, "transcript") == once;
    assert Keys(once) == [line];
    assert FirstIndex(Keys(once), line) == 0;
  }

  /** The numbered lines: no key twice, exactly the lines from line 1 on as
      keys, each numbered by its last occurrence, and every value a line
      number, so that no `'transcript'` is left. */
  lemma LineNumbersSpec(lines: seq<string>, n: nat)
    requires n <= |lines|
    ensures Unique(LineNumbers(lines, n))
    ensures forall i :: 1 <= i < n ==> lines[i] in Keys(LineNumbers(lines, n))
    ensures forall e :: e in LineNumbers(lines, n) ==> exists i :: 1 <= i < n && lines[i] == e.0
    ensures forall i :: 1 <= i < n && LastOccurrence(lines, n, i) ==>
              Get(LineNumbers(lines, n), lines[i]) == Some(NatToString(i))
    ensures forall e :: e in LineNumbers(lines, n) ==> IsDigits(e.1) && e.1 != "transcript"
  {
    LineNumbersKeys(lines, n);
    LineNumbersLast(lines, n);
    LineNumbersValues(lines, n);
  }

  lemma {:induction false} LineNumbersKeys(lines: seq<string>, n: nat)
    requires n <= |lines|
    ensures Unique(LineNumbers(lines, n))
    ensures forall i :: 1 <= i < n ==> lines[i] in Keys(LineNumbers(lines, n))
    ensures forall e :: e in LineNumbers(lines, n) ==> exists i :: 1 <= i < n && lines[i] == e.0
  {
    if n > 1 {
      LineNumbersKeys(lines, n - 1);
      var d, k, v := LineNumbers(lines, n - 1), lines[n - 1], NatToString(n - 1);
      PutSpec(d, k, v);
      PutUnique(d, k, v);
      PutEntries(d, k, v);
      forall i | 1 <= i < n ensures lines[i] in Keys(Put(d, k, v)) {
        assert Get(Put(d, k, v), lines[i]).Some?;
      }
    }
  }

  lemma {:induction false} LineNumbersLast(lines: seq<string>, n: nat)
    requires n <= |lines|
    ensures forall i :: 1 <= i < n && LastOccurrence(lines, n, i) ==>
              Get(LineNumbers(lines, n), lines[i]) == Some(NatToString(i))
  {
    if n > 1 {
      LineNumbersLast(lines, n - 1);
      var d, k, v := LineNumbers(lines, n - 1), lines[n - 1], NatToString(n - 1);
      PutGet(d, k, v);
      forall i | 1 <= i < n && LastOccurrence(lines, n, i)
        ensures Get(Put(d, k, v), lines[i]) == Some(NatToString(i))
      {
        if i < n - 1 {
          assert lines[i] != k;
          assert LastOccurrence(lines, n - 1, i);
        }
      }
    }
  }

  lemma {:induction false} LineNumbersValues(lines: seq<string>, n: nat)
    requires n <= |lines|
    ensures forall e :: e in LineNumbers(lines, n) ==> IsDigits(e.1) && e.1 != "transcript"
  {
    if n > 1 {
      LineNumbersValues(lines, n - 1);
      var d, k, v := LineNumbers(lines, n - 1), lines[n - 1], NatToString(n - 1);
      PutEntries(d, k, v);
      assert "transcript"[0] == 't';
    }
  }

  // ---------------------------------------------------------------------
  // build_tree_of_knowledge_dictionary

  /** The value of every rebuilt key: only the key is shown. */
  const NotUsed := "Not Used."

  /** A dictionary object that functions update in place. */
  class Dictionary {
    var entries: Dict<string, string>

    constructor ()
      ensures entries == []
    {
      entries := [];
    }
  }

  /** The keyword string: each word preceded by a space. */
  function Spaced(words: seq<string>): string {
    if words == [] then "" else Spaced(words[..|words| - 1]) + " " + words[|words| - 1]
  }

  /** The key `build_tree_of_knowledge_dictionary` enters. */
  function KeyString(metadata: string, words: seq<string>): string {
    metadata + ":" + Spaced(words)
  }

  /** Adds one key made of the metadata and the keywords, valued
      `'Not Used.'`, to the dictionary it is given, and returns that same
      dictionary. */
  method BuildTreeOfKnowledgeDictionary(newTok: Dictionary, metadata: string, lst: seq<string>)
    returns (r: Dictionary)
    modifies newTok
    ensures r == newTok
    ensures newTok.entries == Put(old(newTok.entries), KeyString(metadata, lst), NotUsed)
  {
    var keywordString := "";
    for i := 0 to |lst|
      invariant keywordString == Spaced(lst[..i])
    {
      assert lst[..i + 1][..i] == lst[..i];
      keywordString := keywordString + " " + lst[i];
    }
    assert lst[..|lst|] == lst;
    var keyString := metadata + ":" + keywordString;
    newTok.entries := Put(newTok.entries, keyString, NotUsed);
    return newTok;
  }

  // ---------------------------------------------------------------------
  // retrieve_tree_of_knowledge

  /** The key one key of the numbered tree becomes when `want` keywords are
      asked for: its text is cut at `:` into exactly two parts or the
      unpacking fails, and the words after the `:` must number at least
      `want`. */
  function RetrievedKey(key: string, want: int): Result<string> {
    var parts := Split(key, ':');
    if |parts| != 2 then Raise(ValueError)
    else
      var words := SplitWs(parts[1]);
      if want > |words| then Raise(IndexError) else Ok(KeyString(parts[0], Cut(words, want)))
  }

  /** Key `i` of the tree rebuilt: the first key keeps `kpl` words, every
      other one `kpp`. */
  function KeyAt(kpp: int, kpl: int, keys: seq<string>, i: nat): Result<string>
    requires i < |keys|
  {
    RetrievedKey(keys[i], if i == 0 then kpl else kpp)
  }

  /** Every key of the tree rebuilt, or the error it raises. */
  function RebuiltKeys(kpp: int, kpl: int, keys: seq<string>): (r: seq<Result<string>>)
    ensures |r| == |keys|
  {
    seq(|keys|, i requires 0 <= i < |keys| => KeyAt(kpp, kpl, keys, i))
  }

  /** The values of the first `n` results, in order, or the error of the
      first of them that failed. */
  function Gather(rs: seq<Result<string>>, n: nat): (r: Result<seq<string>>)
    requires n <= |rs|
    ensures r.Ok? ==> |r.value| == n
  {
    if n == 0 then Ok([])
    else
      var ks :- Gather(rs, n - 1);
      var key :- rs[n - 1];
      Ok(ks + [key])
  }

  /** A fresh dictionary with the keys entered in order, each valued `v`. */
  function EnterAll(ks: seq<string>, v: string): Dict<string, string> {
    if ks == [] then [] else Put(EnterAll(ks[..|ks| - 1], v), ks[|ks| - 1], v)
  }

  /** `retrieve_tree_of_knowledge` on the keys of the numbered tree. */
  function Retrieve(kpp: int, kpl: int, keys: seq<string>): Result<Dict<string, string>> {
    var ks :- Gather(RebuiltKeys(kpp, kpl, keys), |keys|);
    Ok(EnterAll(ks, NotUsed))
  }

  /** The body of the loop of `retrieve_tree_of_knowledge` up to the new
      entry: the metadata of a key and the first `want` of its words. */
  method KeyParts(key: string, want: int) returns (r: Result<(string, seq<string>)>)
    ensures r.Raise? ==> RetrievedKey(key, want) == Raise(r.error)
    ensures r.Ok? ==> RetrievedKey(key, want) == Ok(KeyString(r.value.0, r.value.1))
  {
    var parts := Split(key, ':');
    if |parts| != 2 {
      return Raise(ValueError);
    }
    var metadata, keywords := parts[0], parts[1];
    var keywordList := SplitWs(keywords);
    var taken := TakeWords(keywordList, want);
    if taken.Raise? {
      return Raise(IndexError);
    }
    return Ok((metadata, taken.value));
  }

  /** The first `want` words of `keywordList`, appended one by one. */
  method TakeWords(keywordList: seq<string>, want: int) returns (r: Result<seq<string>>)
    ensures want > |keywordList| ==> r == Raise(IndexError)
    ensures want <= |keywordList| ==> r == Ok(Cut(keywordList, want))
  {
    var updated: seq<string> := [];
    var j := 0;
    while j < want
      invariant 0 <= j <= |keywordList| && (j == 0 || j <= want)
      invariant updated == keywordList[..j]
    {
      if j == |keywordList| {
        return Raise(IndexError);
      }
      assert keywordList[..j + 1] == keywordList[..j] + [keywordList[j]];
      updated := updated + [keywordList[j]];
      j := j + 1;
    }
    return Ok(updated);
  }

  /** `retrieve_tree_of_knowledge` on the numbered tree `tok`: every key,
      in order, rebuilt with the keywords wanted, or the first error. */
  method RetrieveTreeOfKnowledge(kpp: int, kpl: int, tok: Dict<string, string>) returns (r: Result<Dict<string, string>>)
    ensures r == Retrieve(kpp, kpl, Keys(tok))
  {
    var keys := Keys(tok);
    ghost var rs := RebuiltKeys(kpp, kpl, keys);
    var newTok := new Dictionary();
    var i := 0;
    while i < |keys|
      invariant 0 <= i <= |keys|
      invariant fresh(newTok)
      invariant Gather(rs, i).Ok?
      invariant newTok.entries == EnterAll(Gather(rs, i).value, NotUsed)
    {
      GatherStep(rs, i + 1);
      assert rs[i] == RetrievedKey(keys[i], if i == 0 then kpl else kpp);
      var parts := KeyParts(keys[i], if i == 0 then kpl else kpp);
      if parts.Raise? {
        GatherRaised(rs, i + 1, |keys|);
        return Raise(parts.error);
      }
      newTok := BuildTreeOfKnowledgeDictionary(newTok, parts.value.0, parts.value.1);
      i := i + 1;
    }
    return Ok(newTok.entries);
  }

  /** One more result: its value entered, or its error. */
  lemma GatherStep(rs: seq<Result<string>>, n: nat)
    requires 1 <= n <= |rs| && Gather(rs, n - 1).Ok?
    ensures rs[n - 1].Raise? ==> Gather(rs, n) == Raise(rs[n - 1].error)
    ensures rs[n - 1].Ok? ==>
              && Gather(rs, n) == Ok(Gather(rs, n - 1).value + [rs[n - 1].value])
              && EnterAll(Gather(rs, n).value, NotUsed) == Put(EnterAll(Gather(rs, n - 1).value, NotUsed), rs[n - 1].value, NotUsed)
  {
    if rs[n - 1].Ok? {
      var ks := Gather(rs, n).value;
      assert ks[..|ks| - 1] == Gather(rs, n - 1).value;
    }
  }

  /** Once a result is an error, the error stays. */
  lemma {:induction false} GatherRaised(rs: seq<Result<string>>, m: nat, n: nat)
    requires m <= n <= |rs| && Gather(rs, m).Raise?
    ensures Gather(rs, n) == Gather(rs, m)
    decreases n
  {
    if m < n {
      GatherRaised(rs, m, n - 1);
    }
  }

  /** A keyword `build_tree_of_knowledge_dictionary` can write and `split`
      can find again. */
  predicate Word(w: string) {
    |w| > 0 && NoSpace(w) && ':' !in w
  }

  predicate Words(ws: seq<string>) {
    forall i :: 0 <= i < |ws| ==> Word(ws[i])
  }

  /** A key that `build_tree_of_knowledge_dictionary` wrote is read back by
      `retrieve_tree_of_knowledge` into the same metadata and words: asking
      for `want` of them keeps the first `want`, or fails when there are
      fewer. */
  lemma KeyStringRetrieved(metadata: string, words: seq<string>, want: int)
    requires ':' !in metadata && Words(words)
    ensures Split(KeyString(metadata, words), ':') == [metadata, Spaced(words)]
    ensures SplitWs(Spaced(words)) == words
    ensures RetrievedKey(KeyString(metadata, words), want) ==
            if want > |words| then Raise(IndexError) else Ok(KeyString(metadata, Cut(words, want)))
  {
    SpacedAvoids(words);
    SplitAtFirst(metadata, ':', Spaced(words));
    SplitWsSpaced(words);
  }

  /** Retrieving the same number of keywords from a retrieved key changes
      nothing. */
  lemma RetrievedKeyIdempotent(key: string, want: int)
    requires RetrievedKey(key, want).Ok?
    ensures RetrievedKey(RetrievedKey(key, want).value, want) == RetrievedKey(key, want)
  {
    var parts := Split(key, ':');
    var words := SplitWs(parts[1]);
    SplitPartFree(key, ':', 0);
    SplitPartFree(key, ':', 1);
    forall i | 0 <= i < |words| ensures Word(words[i]) {
      SplitWsPart(parts[1], i);
    }
    var kept := Cut(words, want);
    assert Words(kept) by {
      forall i | 0 <= i < |kept| ensures Word(kept[i]) {
        assert kept[i] == words[i];
      }
    }
    KeyStringRetrieved(parts[0], kept, want);
    CutIdempotent(words, want);
  }

  /** The results are gathered without error exactly when none of them is
      an error, and then in their order. */
  lemma {:induction false} GatherSpec(rs: seq<Result<string>>, n: nat)
    requires n <= |rs|
    ensures Gather(rs, n).Ok? <==> forall i :: 0 <= i < n ==> rs[i].Ok?
    ensures Gather(rs, n).Ok? ==> forall i :: 0 <= i < n ==> Gather(rs, n).value[i] == rs[i].value
  {
    if n > 0 {
      GatherSpec(rs, n - 1);
      if Gather(rs, n - 1).Ok? {
        GatherStep(rs, n);
      }
    }
  }

  /** Entering keys keeps each once, with `v`, and nothing else. */
  lemma {:induction false} EnterAllSpec(ks: seq<string>, v: string)
    ensures Unique(EnterAll(ks, v))
    ensures forall i :: 0 <= i < |ks| ==> Get(EnterAll(ks, v), ks[i]) == Some(v)
    ensures forall e :: e in EnterAll(ks, v) ==> e.1 == v && e.0 in ks
  {
    if ks != [] {
      var prefix, k := ks[..|ks| - 1], ks[|ks| - 1];
      EnterAllSpec(prefix, v);
      var d := EnterAll(prefix, v);
      PutSpec(d, k, v);
      PutUnique(d, k, v);
      PutEntries(d, k, v);
      forall i | 0 <= i < |ks| ensures Get(Put(d, k, v), ks[i]) == Some(v) {
        if i < |ks| - 1 {
          assert ks[i] == prefix[i];
        }
      }
      forall e | e in Put(d, k, v) ensures e.0 in ks {
        if e in d {
          var j :| 0 <= j < |prefix| && prefix[j] == e.0;
          assert ks[j] == e.0;
        }
      }
    }
  }

  /** Distinct keys are entered in their order. */
  lemma {:induction false} EnterAllOrder(ks: seq<string>, v: string)
    requires NoDup(ks)
    ensures Keys(EnterAll(ks, v)) == ks
  {
    if ks != [] {
      var prefix, k := ks[..|ks| - 1], ks[|ks| - 1];
      EnterAllOrder(prefix, v);
      PutSpec(EnterAll(prefix, v), k, v);
      assert k !in prefix;
      assert ks == prefix + [k];
    }
  }

  /** Retrieving succeeds exactly when every key can be rebuilt, the first
      with `kpl` words and the others with `kpp`; the retrieved tree then
      holds every rebuilt key once, valued `'Not Used.'`, and nothing else. */
  lemma RetrieveSpec(kpp: int, kpl: int, keys: seq<string>)
    ensures Retrieve(kpp, kpl, keys).Ok? <==> forall i :: 0 <= i < |keys| ==> RebuiltKeys(kpp, kpl, keys)[i].Ok?
    ensures Retrieve(kpp, kpl, keys).Ok? ==>
              && Unique(Retrieve(kpp, kpl, keys).value)
              && (forall i :: 0 <= i < |keys| ==>
                    Get(Retrieve(kpp, kpl, keys).value, RebuiltKeys(kpp, kpl, keys)[i].value) == Some(NotUsed))
              && (forall e :: e in Retrieve(kpp, kpl, keys).value ==>
                    e.1 == NotUsed && Ok(e.0) in RebuiltKeys(kpp, kpl, keys))
  {
    var rs := RebuiltKeys(kpp, kpl, keys);
    GatherSpec(rs, |keys|);
    if Gather(rs, |keys|).Ok? {
      GatheredEntries(rs, NotUsed);
    }
  }

  /** The dictionary entered from gathered results holds each value once,
      with `v`, and nothing else. */
  lemma GatheredEntries(rs: seq<Result<string>>, v: string)
    requires forall i :: 0 <= i < |rs| ==> rs[i].Ok?
    ensures Gather(rs, |rs|).Ok?
    ensures Unique(EnterAll(Gather(rs, |rs|).value, v))
    ensures forall i :: 0 <= i < |rs| ==> Get(EnterAll(Gather(rs, |rs|).value, v), rs[i].value) == Some(v)
    ensures forall e :: e in EnterAll(Gather(rs, |rs|).value, v) ==> e.1 == v && Ok(e.0) in rs
  {
    GatherSpec(rs, |rs|);
    var ks := Gather(rs, |rs|).value;
    EnterAllSpec(ks, v);
    forall e | e in EnterAll(ks, v)
      ensures Ok(e.0) in rs
    {
      var i :| 0 <= i < |ks| && ks[i] == e.0;
      assert rs[i] == Ok(e.0);
    }
  }

  /** With distinct rebuilt keys, the retrieved tree lists them in the
      order of the keys they came from. */
  lemma RetrieveOrder(kpp: int, kpl: int, keys: seq<string>)
    requires Retrieve(kpp, kpl, keys).Ok?
    requires NoDup(Gather(RebuiltKeys(kpp, kpl, keys), |keys|).value)
    ensures Keys(Retrieve(kpp, kpl, keys).value) == Gather(RebuiltKeys(kpp, kpl, keys), |keys|).value
  {
    EnterAllOrder(Gather(RebuiltKeys(kpp, kpl, keys), |keys|).value, NotUsed);
  }

  // ---------------------------------------------------------------------
  // Helpers

  /** The keyword string seen from the front. */
  lemma {:induction false} SpacedCons(w: string, words: seq<string>)
    ensures Spaced([w] + words) == " " + w + Spaced(words)
    decreases |words|
  {
    var all := [w] + words;
    if words == [] {
      assert all[..0] == [];
    } else {
      assert all[..|all| - 1] == [w] + words[..|words| - 1];
      SpacedCons(w, words[..|words| - 1]);
    }
  }

  /** `split()` finds the words of a keyword string again. */
  lemma {:induction false} SplitWsSpaced(words: seq<string>)
    requires Words(words)
    ensures SplitWs(Spaced(words)) == words
    decreases |words|
  {
    if words != [] {
      var w, rest := words[0], words[1..];
      assert words == [w] + rest;
      assert Words(rest) by {
        forall i | 0 <= i < |rest| ensures Word(rest[i]) {
          assert rest[i] == words[i + 1];
        }
      }
      assert Word(words[0]);
      SpacedCons(w, rest);
      SplitWsSpaced(rest);
      assert " " + w + Spaced(rest) == [' '] + (w + Spaced(rest));
      SplitWsSpace(' ', w + Spaced(rest));
      WordThenSpaced(w, rest);
    }
  }

  /** A word followed by a keyword string splits into the word and the
      words of the string. */
  lemma WordThenSpaced(w: string, rest: seq<string>)
    requires |w| > 0 && NoSpace(w)
    ensures SplitWs(w + Spaced(rest)) == [w] + SplitWs(Spaced(rest))
  {
    if rest == [] {
      assert w + Spaced(rest) == w;
      SplitWsOne(w);
    } else {
      var head, more := rest[0], rest[1..];
      assert rest == [head] + more;
      SpacedCons(head, more);
      var tail := head + Spaced(more);
      Associative(" ", head, Spaced(more));
      assert Spaced(rest) == [' '] + tail;
      Associative(w, [' '], tail);
      SplitWsWord(w, ' ', tail);
      SplitWsSpace(' ', tail);
    }
  }

  /** A single word splits into itself. */
  lemma SplitWsOne(w: string)
    requires |w| > 0 && NoSpace(w)
    ensures SplitWs(w) == [w]
  {
    WordLengthOf(w, []);
    assert w + [] == w;
    assert w[..|w|] == w && w[|w|..] == [];
  }

  /** A keyword string of words without `:` has no `:`. */
  lemma {:induction false} SpacedAvoids(words: seq<string>)
    requires Words(words)
    ensures ':' !in Spaced(words)
    decreases |words|
  {
    if words != [] {
      var prefix := words[..|words| - 1];
      assert Words(prefix) by {
        forall i | 0 <= i < |prefix| ensures Word(prefix[i]) {
          assert prefix[i] == words[i];
        }
      }
      assert Word(words[|words| - 1]);
      SpacedAvoids(prefix);
    }
  }
}
