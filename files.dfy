/** The files the writers leave behind, as a map from path to contents. */
module Files {
  import opened Lists
  import opened Exceptions

  type FileSystem = map<string, string>

  /** What is in the file at `path`: nothing when it does not exist yet. */
  function Contents(fs: FileSystem, path: string): string {
    if path in fs then fs[path] else ""
  }

  /** `open(path, "w")` followed by writes of `text`: the old contents go. */
  function Overwrite(fs: FileSystem, path: string, text: string): FileSystem {
    fs[path := text]
  }

  /** `open(path, "a")` followed by writes of `text`. */
  function Append(fs: FileSystem, path: string, text: string): FileSystem {
    fs[path := Contents(fs, path) + text]
  }

  /** One write a run makes: `text` written to `path`, either over the old
      contents or after them. */
  datatype Write = Write(path: string, text: string, append: bool)

  function Apply(fs: FileSystem, w: Write): FileSystem {
    if w.append then Append(fs, w.path, w.text) else Overwrite(fs, w.path, w.text)
  }

  /** The files after the writes `ws`, made in order. */
  function ApplyAll(fs: FileSystem, ws: seq<Write>): FileSystem {
    if ws == [] then fs else Apply(ApplyAll(fs, ws[..|ws| - 1]), ws[|ws| - 1])
  }

  /** The paths written to. */
  function Paths(ws: seq<Write>): set<string> {
    set w | w in ws :: w.path
  }

  /** The texts appended to `path`, in order. */
  function AppendedTo(ws: seq<Write>, path: string): seq<string> {
    if ws == [] then []
    else
      var w := ws[|ws| - 1];
      AppendedTo(ws[..|ws| - 1], path) + (if w.path == path then [w.text] else [])
  }

  /** No later write goes to the path of write `k`. */
  predicate LastTo(ws: seq<Write>, k: nat)
    requires k < |ws|
  {
    forall j :: k < j < |ws| ==> ws[j].path != ws[k].path
  }

  /** The writes one turn of a loop makes and how the turn ends. */
  datatype Turn = Turn(writes: seq<Write>, outcome: Outcome)

  /** A loop that makes its turns in order and stops after the first turn
      that raises: all the writes made, and how the loop ends. */
  function Run(turns: seq<Turn>): Turn {
    if turns == [] then Turn([], Completed)
    else
      var done := Run(turns[..|turns| - 1]);
      var last := turns[|turns| - 1];
      if done.outcome.Raised? then done else Turn(done.writes + last.writes, last.outcome)
  }

  /** The writes of all the turns, in order. */
  function Writes(turns: seq<Turn>): seq<Write> {
    if turns == [] then [] else Writes(turns[..|turns| - 1]) + turns[|turns| - 1].writes
  }

  /** `a[0], b[0], a[1], b[1], ...`. */
  function Interleave(a: seq<Write>, b: seq<Write>): (r: seq<Write>)
    requires |a| == |b|
    ensures |r| == 2 * |a|
  {
    if a == [] then [] else Interleave(a[..|a| - 1], b[..|b| - 1]) + [a[|a| - 1], b[|b| - 1]]
  }

  /** A turn that writes `first` and then, unless it raised, `second`. */
  function Pair(first: Write, second: Write, outcome: Outcome): Turn {
    Turn(if outcome.Raised? then [first] else [first, second], outcome)
  }

  /** One such turn per position of `a`, `b` and `os`. */
  function Paired(a: seq<Write>, b: seq<Write>, os: seq<Outcome>): (r: seq<Turn>)
    requires |a| == |b| == |os|
    ensures |r| == |a|
  {
    seq(|a|, k requires 0 <= k < |a| => Pair(a[k], b[k], os[k]))
  }

  // ---------------------------------------------------------------------
  // Lemmas

  lemma {:induction false} InterleaveAt(a: seq<Write>, b: seq<Write>, k: nat)
    requires |a| == |b| && k < |a|
    ensures Interleave(a, b)[2 * k] == a[k] && Interleave(a, b)[2 * k + 1] == b[k]
  {
    var n := |a| - 1;
    if k < n {
      InterleaveAt(a[..n], b[..n], k);
    }
  }

  /** A loop of turns ends without raising exactly when no turn raised, and
      then it made all the writes of all the turns. */
  lemma {:induction false} RunCompleted(turns: seq<Turn>)
    ensures Run(turns).outcome == Completed <==> forall k :: 0 <= k < |turns| ==> turns[k].outcome == Completed
    ensures Run(turns).outcome == Completed ==> Run(turns).writes == Writes(turns)
  {
    if turns != [] {
      var front := turns[..|turns| - 1];
      RunCompleted(front);
      if Run(front).outcome.Raised? {
        RunRaisedAt(front);
      }
    }
  }

  /** Turn `k` raised, the turns before it did not, and the loop made the
      writes of turns 0 to `k`. */
  predicate StoppedAt(turns: seq<Turn>, k: nat) {
    k < |turns| && turns[k].outcome == Run(turns).outcome &&
    (forall j :: 0 <= j < k ==> turns[j].outcome == Completed) &&
    Run(turns).writes == Writes(turns[..k + 1])
  }

  /** A loop that raised stopped at a turn that raised, after turns that
      did not, having made the writes of those turns only. */
  lemma {:induction false} RunRaisedAt(turns: seq<Turn>)
    requires Run(turns).outcome.Raised?
    ensures exists k :: StoppedAt(turns, k)
  {
    var front := turns[..|turns| - 1];
    if Run(front).outcome.Raised? {
      RunRaisedAt(front);
      var k: nat :| StoppedAt(front, k);
      assert Run(turns) == Run(front);
      assert front[..k + 1] == turns[..k + 1];
      assert turns[k] == front[k];
      assert forall j :: 0 <= j < k ==> turns[j] == front[j];
      assert StoppedAt(turns, k);
    } else {
      RunCompleted(front);
      var k := |turns| - 1;
      assert Run(turns) == Turn(Writes(front) + turns[k].writes, turns[k].outcome);
      assert turns[..k + 1] == turns;
      assert turns[..k + 1][..k] == front;
      assert Writes(turns[..k + 1]) == Writes(front) + turns[k].writes;
      assert forall j :: 0 <= j < k ==> turns[j] == front[j];
      assert StoppedAt(turns, k);
    }
  }

  /** One more turn after turns that did not raise. */
  lemma PairedSnoc(a: seq<Write>, b: seq<Write>, os: seq<Outcome>)
    requires |a| == |b| == |os| > 0
    ensures Paired(a, b, os) ==
            Paired(a[..|a| - 1], b[..|a| - 1], os[..|a| - 1]) + [Pair(a[|a| - 1], b[|a| - 1], os[|a| - 1])]
  {
  }

  /** Paired turns that did not raise made the writes of `a` and `b`
      alternately, and none of them raised. */
  lemma PairsCompleted(a: seq<Write>, b: seq<Write>, os: seq<Outcome>)
    requires |a| == |b| == |os|
    requires Run(Paired(a, b, os)).outcome == Completed
    ensures forall k :: 0 <= k < |os| ==> os[k] == Completed
    ensures Run(Paired(a, b, os)).writes == Interleave(a, b)
  {
    RunCompleted(Paired(a, b, os));
    assert forall k :: 0 <= k < |os| ==> Paired(a, b, os)[k].outcome == os[k];
    PairsWrites(a, b, os);
  }

  lemma {:induction false} PairsWrites(a: seq<Write>, b: seq<Write>, os: seq<Outcome>)
    requires |a| == |b| == |os|
    requires forall k :: 0 <= k < |os| ==> os[k] == Completed
    ensures Writes(Paired(a, b, os)) == Interleave(a, b)
  {
    if a != [] {
      var n := |a| - 1;
      PairsWrites(a[..n], b[..n], os[..n]);
      assert Paired(a, b, os)[..n] == Paired(a[..n], b[..n], os[..n]);
    }
  }

  /** Paired turns that raised stopped at the first `k` whose outcome
      raised, having written `a` and `b` alternately before it and then
      `a[k]`. */
  lemma PairsRaised(a: seq<Write>, b: seq<Write>, os: seq<Outcome>)
    requires |a| == |b| == |os|
    requires Run(Paired(a, b, os)).outcome.Raised?
    ensures exists k :: 0 <= k < |os| && os[k] == Run(Paired(a, b, os)).outcome &&
              (forall j :: 0 <= j < k ==> os[j] == Completed) &&
              Run(Paired(a, b, os)).writes == Interleave(a[..k], b[..k]) + [a[k]]
  {
    var turns := Paired(a, b, os);
    RunRaisedAt(turns);
    var k: nat :| StoppedAt(turns, k);
    forall j | 0 <= j <= k ensures turns[j].outcome == os[j] { }
    PairsUpTo(a, b, os, k);
  }

  lemma PairsUpTo(a: seq<Write>, b: seq<Write>, os: seq<Outcome>, k: nat)
    requires |a| == |b| == |os| && k < |a| && os[k].Raised?
    requires forall j :: 0 <= j < k ==> os[j] == Completed
    ensures Writes(Paired(a, b, os)[..k + 1]) == Interleave(a[..k], b[..k]) + [a[k]]
  {
    var done := Paired(a, b, os)[..k + 1];
    assert done[..k] == Paired(a[..k], b[..k], os[..k]);
    PairsWrites(a[..k], b[..k], os[..k]);
    assert done[k].writes == [a[k]];
  }

  /** The files interleaved writes touch. */
  lemma InterleavePaths(a: seq<Write>, b: seq<Write>)
    requires |a| == |b|
    ensures Paths(Interleave(a, b)) == Paths(a) + Paths(b)
  {
    var w := Interleave(a, b);
    forall p | p in Paths(w) ensures p in Paths(a) + Paths(b) {
      var x :| x in w && x.path == p;
      var j :| 0 <= j < |w| && w[j] == x;
      var k := j / 2;
      InterleaveAt(a, b, k);
      if j == 2 * k {
        assert a[k] in a;
      } else {
        assert j == 2 * k + 1;
        assert b[k] in b;
      }
    }
    forall p | p in Paths(a) + Paths(b) ensures p in Paths(w) {
      if p in Paths(a) {
        var x :| x in a && x.path == p;
        var k :| 0 <= k < |a| && a[k] == x;
        InterleaveAt(a, b, k);
        assert w[2 * k] in w;
      } else {
        var x :| x in b && x.path == p;
        var k :| 0 <= k < |b| && b[k] == x;
        InterleaveAt(a, b, k);
        assert w[2 * k + 1] in w;
      }
    }
  }

  /** Among interleaved writes, an overwrite `a[k]` that no later write of
      `a` and no write of `b` goes after decides what its file holds. */
  lemma InterleaveLast(fs: FileSystem, a: seq<Write>, b: seq<Write>, k: nat)
    requires |a| == |b| && k < |a| && !a[k].append
    requires forall j :: k < j < |a| ==> a[j].path != a[k].path
    requires forall j :: 0 <= j < |b| ==> b[j].path != a[k].path
    ensures a[k].path in ApplyAll(fs, Interleave(a, b))
    ensures ApplyAll(fs, Interleave(a, b))[a[k].path] == a[k].text
  {
    var w := Interleave(a, b);
    InterleaveAt(a, b, k);
    forall j | 2 * k < j < |w| ensures w[j].path != w[2 * k].path {
      InterleaveAt(a, b, j / 2);
    }
    ApplyAllLast(fs, w, 2 * k);
  }

  /** Among interleaved writes, `b[k]` decides alone what its file holds
      when no other write goes to that file. */
  lemma InterleaveOnly(fs: FileSystem, a: seq<Write>, b: seq<Write>, k: nat)
    requires |a| == |b| && k < |b|
    requires forall j :: 0 <= j < |b| && j != k ==> b[j].path != b[k].path
    requires forall j :: 0 <= j < |a| ==> a[j].path != b[k].path
    ensures Contents(ApplyAll(fs, Interleave(a, b)), b[k].path) == Contents(Apply(fs, b[k]), b[k].path)
  {
    var w := Interleave(a, b);
    InterleaveAt(a, b, k);
    forall j | 0 <= j < |w| && j != 2 * k + 1 ensures w[j].path != w[2 * k + 1].path {
      InterleaveAt(a, b, j / 2);
    }
    ApplyAllOnly(fs, w, 2 * k + 1);
  }

  lemma RunSnoc(fs: FileSystem, turns: seq<Turn>, t: Turn)
    requires Run(turns).outcome == Completed
    ensures Run(turns + [t]).outcome == t.outcome
    ensures ApplyAll(fs, Run(turns + [t]).writes) == ApplyAll(ApplyAll(fs, Run(turns).writes), t.writes)
  {
    assert (turns + [t])[..|turns|] == turns;
    ApplyAllConcat(fs, Run(turns).writes, t.writes);
  }

  /** After a turn that raised, later turns change nothing. */
  lemma {:induction false} RunStops(turns: seq<Turn>, i: nat)
    requires i <= |turns| && Run(turns[..i]).outcome.Raised?
    ensures Run(turns) == Run(turns[..i])
    decreases |turns| - i
  {
    if i < |turns| {
      assert turns[..i + 1][..i] == turns[..i];
      RunStops(turns, i + 1);
    } else {
      assert turns[..i] == turns;
    }
  }

  lemma ApplyAllSnoc(fs: FileSystem, ws: seq<Write>, w: Write)
    ensures ApplyAll(fs, ws + [w]) == Apply(ApplyAll(fs, ws), w)
  {
    assert (ws + [w])[..|ws|] == ws;
  }

  /** What the writes of one paired turn leave. */
  lemma PairApply(fs: FileSystem, first: Write, second: Write, outcome: Outcome)
    ensures outcome.Raised? ==> ApplyAll(fs, Pair(first, second, outcome).writes) == Apply(fs, first)
    ensures outcome.Completed? ==> ApplyAll(fs, Pair(first, second, outcome).writes) == Apply(Apply(fs, first), second)
  {
    assert [first][..0] == [];
    assert ApplyAll(fs, [first]) == Apply(fs, first);
    if outcome.Completed? {
      assert [first, second][..1] == [first];
      assert ApplyAll(fs, [first, second]) == Apply(ApplyAll(fs, [first]), second);
    }
  }

  /** Making `ws` and then `vs` is making `ws + vs`. */
  lemma {:induction false} ApplyAllConcat(fs: FileSystem, ws: seq<Write>, vs: seq<Write>)
    ensures ApplyAll(fs, ws + vs) == ApplyAll(ApplyAll(fs, ws), vs)
    decreases |vs|
  {
    if vs == [] {
      assert ws + vs == ws;
    } else {
      var front := vs[..|vs| - 1];
      var v := vs[|vs| - 1];
      assert ws + vs == (ws + front) + [v];
      assert vs == front + [v];
      ApplyAllSnoc(fs, ws + front, v);
      ApplyAllSnoc(ApplyAll(fs, ws), front, v);
      ApplyAllConcat(fs, ws, front);
    }
  }

  /** A path only one write goes to holds what that write left there. */
  lemma {:induction false} ApplyAllOnly(fs: FileSystem, ws: seq<Write>, k: nat)
    requires k < |ws|
    requires forall j :: 0 <= j < |ws| && j != k ==> ws[j].path != ws[k].path
    ensures Contents(ApplyAll(fs, ws), ws[k].path) == Contents(Apply(fs, ws[k]), ws[k].path)
  {
    var n := |ws| - 1;
    var front := ws[..n];
    if k < n {
      assert front[k] == ws[k];
      ApplyAllOnly(fs, front, k);
    } else {
      ApplyAllUntouched(fs, front, ws[k].path);
    }
  }

  /** Writes that avoid a path leave its contents alone. */
  lemma {:induction false} ApplyAllUntouched(fs: FileSystem, ws: seq<Write>, path: string)
    requires forall j :: 0 <= j < |ws| ==> ws[j].path != path
    ensures Contents(ApplyAll(fs, ws), path) == Contents(fs, path)
  {
    if ws != [] {
      ApplyAllUntouched(fs, ws[..|ws| - 1], path);
    }
  }

  /** The writes create exactly their paths and leave every other file as
      it was. */
  lemma {:induction false} ApplyAllFiles(fs: FileSystem, ws: seq<Write>)
    ensures ApplyAll(fs, ws).Keys == fs.Keys + Paths(ws)
    ensures forall p :: p in fs && p !in Paths(ws) ==> ApplyAll(fs, ws)[p] == fs[p]
  {
    if ws != [] {
      var front := ws[..|ws| - 1];
      ApplyAllFiles(fs, front);
      assert ws == front + [ws[|ws| - 1]];
      assert Paths(ws) == Paths(front) + {ws[|ws| - 1].path};
    }
  }

  /** A run of paired turns that did not raise creates the paths of both
      write lists and leaves every other file as it was. */
  lemma PairedFiles(fs: FileSystem, a: seq<Write>, b: seq<Write>, os: seq<Outcome>)
    requires |a| == |b| == |os|
    requires Run(Paired(a, b, os)).outcome == Completed
    ensures ApplyAll(fs, Run(Paired(a, b, os)).writes).Keys == fs.Keys + Paths(a) + Paths(b)
    ensures forall p :: p in fs && p !in Paths(a) && p !in Paths(b) ==> ApplyAll(fs, Run(Paired(a, b, os)).writes)[p] == fs[p]
  {
    PairsCompleted(a, b, os);
    InterleavePaths(a, b);
    ApplyAllFiles(fs, Interleave(a, b));
  }

  /** A path last written over holds what that write put there. */
  lemma {:induction false} ApplyAllLast(fs: FileSystem, ws: seq<Write>, k: nat)
    requires k < |ws| && !ws[k].append && LastTo(ws, k)
    ensures ws[k].path in ApplyAll(fs, ws)
    ensures ApplyAll(fs, ws)[ws[k].path] == ws[k].text
  {
    var n := |ws| - 1;
    if k < n {
      var front := ws[..n];
      assert front[k] == ws[k];
      ApplyAllLast(fs, front, k);
    }
  }

  lemma PathsConcat(a: seq<Write>, b: seq<Write>)
    ensures Paths(a + b) == Paths(a) + Paths(b)
  {
    forall p | p in Paths(a + b) ensures p in Paths(a) + Paths(b) {
      var w :| w in a + b && w.path == p;
    }
    forall p | p in Paths(a) + Paths(b) ensures p in Paths(a + b) {
      if p in Paths(a) {
        var w :| w in a && w.path == p;
        assert w in a + b;
      } else {
        var w :| w in b && w.path == p;
        assert w in a + b;
      }
    }
  }

  /** A path only ever appended to ends with its old contents followed by
      everything appended, in order. */
  lemma {:induction false} ApplyAllAppended(fs: FileSystem, ws: seq<Write>, path: string)
    requires forall w :: w in ws && w.path == path ==> w.append
    ensures Contents(ApplyAll(fs, ws), path) == Contents(fs, path) + Flatten(AppendedTo(ws, path))
  {
    if ws != [] {
      var front := ws[..|ws| - 1];
      var w := ws[|ws| - 1];
      assert forall v :: v in front ==> v in ws;
      ApplyAllAppended(fs, front, path);
      var added := if w.path == path then w.text else "";
      ApplyContents(ApplyAll(fs, front), w, path);
      AppendedStep(ws, path);
      var a, b := Contents(fs, path), Flatten(AppendedTo(front, path));
      Associative(a, b, added);
    }
  }

  /** One write adds its text to the contents of the path it appends to. */
  lemma ApplyContents(fs: FileSystem, w: Write, path: string)
    requires w.path == path ==> w.append
    ensures Contents(Apply(fs, w), path) == Contents(fs, path) + (if w.path == path then w.text else "")
  {
    if w.path != path {
      assert Contents(fs, path) + "" == Contents(fs, path);
    }
  }

  lemma AppendedStep(ws: seq<Write>, path: string)
    requires ws != []
    ensures Flatten(AppendedTo(ws, path)) ==
            Flatten(AppendedTo(ws[..|ws| - 1], path)) + (if ws[|ws| - 1].path == path then ws[|ws| - 1].text else "")
  {
    var earlier := AppendedTo(ws[..|ws| - 1], path);
    if ws[|ws| - 1].path == path {
      FlattenSnoc(earlier, ws[|ws| - 1].text);
    } else {
      assert earlier + [] == earlier;
      assert Flatten(earlier) + "" == Flatten(earlier);
    }
  }
}
