/** `PuzzleOfKnowledge.snail_road`: the path along which the puzzle grid is
    filled, in its two variants.

    Both copies walk the square ring by ring, from the outside in: the top row
    to the right, the right column down, the bottom row to the left and the
    left column up, then reverse the whole list so that the innermost cells
    come first. They differ in how the bottom and left segments are iterated.
    In the Python-3 copy the bottom row is produced by a `reversed(...)`
    iterator that the bottom-row loop exhausts, so the left-column loop over
    the same iterator appends nothing. In the Python-2 copy the same variable
    is a list reversed in place, which can be iterated twice.

    A cell `(line, column)` stands for the one-entry dictionary
    `{line: column}` of the source. */
module Snail {
  import opened Lists

  type Cell = (int, int)

  predicate InGrid(n: nat, x: Cell) {
    0 <= x.0 < n && 0 <= x.1 < n
  }

  /** Python's `range(a, b)`. */
  function Range(a: int, b: int): seq<int> {
    if a <= b then seq(b - a, j requires 0 <= j < b - a => a + j) else []
  }

  /** `range(a, b)` traversed backwards: `reversed(range(a, b))`, or the list
      `range(a, b)` after `reverse()`. */
  function RangeDown(a: int, b: int): seq<int> {
    if a <= b then seq(b - a, j requires 0 <= j < b - a => b - 1 - j) else []
  }

  /** The cells `{line: i}` for the values `i` of `xs`, in order. */
  function InRow(line: int, xs: seq<int>): seq<Cell> {
    seq(|xs|, j requires 0 <= j < |xs| => (line, xs[j]))
  }

  /** The cells `{i: column}` for the values `i` of `xs`, in order. */
  function InColumn(xs: seq<int>, column: int): seq<Cell> {
    seq(|xs|, j requires 0 <= j < |xs| => (xs[j], column))
  }

  // ---------------------------------------------------------------------
  // The four segments appended by the pass with `tmp == t` and
  // `lines == m`: the ring whose lines and columns run from `t` to `m - 1`.

  function Top(t: int, m: int): seq<Cell> {
    InRow(t, Range(t, m - 1))
  }

  function Right(t: int, m: int): seq<Cell> {
    InColumn(Range(t, m - 1), m - 1)
  }

  function Bottom(t: int, m: int): seq<Cell> {
    InRow(m - 1, RangeDown(t + 1, m))
  }

  function Left(t: int, m: int): seq<Cell> {
    InColumn(RangeDown(t + 1, m), t)
  }

  /** How often the while loop runs: `lines` starts at `n` and the loop goes
      on while it exceeds `n / 2`, read as a float in Python 3 and as an
      integer quotient in Python 2; both stop after this many passes. */
  function Passes(n: nat): nat {
    (n + 1) / 2
  }

  /** Both loop conditions hold exactly for the first `Passes(n)` values of
      `tmp`. */
  lemma PassBound(n: nat, tmp: nat)
    requires tmp <= Passes(n)
    ensures 2 * (n - tmp) > n <==> tmp < Passes(n)
    ensures n - tmp > n / 2 <==> tmp < Passes(n)
  {
  }

  /** The cell appended after the loop for an odd side. */
  function Centre(n: nat): seq<Cell> {
    if n % 2 == 1 then [(n / 2, n / 2)] else []
  }

  /** Python 3: the pass with `tmp == t` appends the top, right and bottom
      segments only. */
  function RingPy3(n: nat, t: nat): seq<Cell> {
    Top(t, n - t) + Right(t, n - t) + Bottom(t, n - t)
  }

  /** Python 2: the pass appends the whole ring. */
  function RingPy2(n: nat, t: nat): seq<Cell> {
    Top(t, n - t) + Right(t, n - t) + Bottom(t, n - t) + Left(t, n - t)
  }

  /** The list after the first `k` passes. */
  function SpiralPy3(n: nat, k: nat): seq<Cell> {
    Flatten(seq(k, t requires 0 <= t < k => RingPy3(n, t)))
  }

  function SpiralPy2(n: nat, k: nat): seq<Cell> {
    Flatten(seq(k, t requires 0 <= t < k => RingPy2(n, t)))
  }

  /** The list built before `snail.reverse()`. */
  function ForwardPy3(n: nat): seq<Cell> {
    SpiralPy3(n, Passes(n)) + Centre(n)
  }

  function ForwardPy2(n: nat): seq<Cell> {
    SpiralPy2(n, Passes(n)) + Centre(n)
  }

  /** The cells the Python-3 walk never reaches: the left column of every
      ring, apart from the ring's top-left corner. */
  predicate Skipped(x: Cell, n: nat) {
    x.1 < x.0 && x.0 + x.1 <= n - 1
  }

  // ---------------------------------------------------------------------
  // The loops

  /** `for i in xs: snail.append({line: i})`. A one-shot iterator is left
      exhausted, so `rest` is what remains of it afterwards. */
  method AppendInRow(snail: seq<Cell>, line: int, xs: seq<int>) returns (r: seq<Cell>, rest: seq<int>)
    ensures r == snail + InRow(line, xs)
    ensures rest == []
  {
    r, rest := snail, xs;
    while rest != []
      invariant |rest| <= |xs| && rest == xs[|xs| - |rest|..]
      invariant r == snail + InRow(line, xs[..|xs| - |rest|])
    {
      assert xs[..|xs| - |rest| + 1] == xs[..|xs| - |rest|] + [rest[0]];
      r := r + [(line, rest[0])];
      rest := rest[1..];
    }
    assert xs[..|xs|] == xs;
  }

  /** `for i in xs: snail.append({i: column})`, likewise. */
  method AppendInColumn(snail: seq<Cell>, xs: seq<int>, column: int) returns (r: seq<Cell>, rest: seq<int>)
    ensures r == snail + InColumn(xs, column)
    ensures rest == []
  {
    r, rest := snail, xs;
    while rest != []
      invariant |rest| <= |xs| && rest == xs[|xs| - |rest|..]
      invariant r == snail + InColumn(xs[..|xs| - |rest|], column)
    {
      assert xs[..|xs| - |rest| + 1] == xs[..|xs| - |rest|] + [rest[0]];
      r := r + [(rest[0], column)];
      rest := rest[1..];
    }
    assert xs[..|xs|] == xs;
  }

  /** One pass of the Python-3 loop body, with `tmp == t` and `lines == m`. */
  method PassPy3(snail: seq<Cell>, n: nat, t: nat, m: int) returns (r: seq<Cell>)
    requires m == n - t
    ensures r == snail + RingPy3(n, t)
  {
    var x := Range(t, m - 1);
    var unused;
    // a range object can be iterated twice
    r, unused := AppendInRow(snail, t, x);
    r, unused := AppendInColumn(r, x, m - 1);
    var it := RangeDown(t + 1, m);
    r, it := AppendInRow(r, m - 1, it);
    // `it` is exhausted now: the left column gets nothing
    r, it := AppendInColumn(r, it, t);
    Regroup(snail, Top(t, m), Right(t, m), Bottom(t, m));
  }

  /** One pass of the Python-2 loop body. */
  method PassPy2(snail: seq<Cell>, n: nat, t: nat, m: int) returns (r: seq<Cell>)
    requires m == n - t
    ensures r == snail + RingPy2(n, t)
  {
    var x := Range(t, m - 1);
    var unused;
    r, unused := AppendInRow(snail, t, x);
    r, unused := AppendInColumn(r, x, m - 1);
    // `x.reverse()` on a list, which both loops below traverse
    x := RangeDown(t + 1, m);
    r, unused := AppendInRow(r, m - 1, x);
    r, unused := AppendInColumn(r, x, t);
    Regroup5(snail, Top(t, m), Right(t, m), Bottom(t, m), Left(t, m));
  }

  /** `snail_road` of the Python-3 copy: the Python-3 spiral reversed
      (`RoadPy3Cells` says which cells it reaches). */
  method SnailRoadPy3(n: nat) returns (road: seq<Cell>)
    ensures road == Reverse(ForwardPy3(n))
  {
    var lines: int := n;
    var snail: seq<Cell> := [];
    var tmp: nat := 0;
    while 2 * lines > n
      invariant tmp <= Passes(n) && lines == n - tmp
      invariant snail == SpiralPy3(n, tmp)
    {
      PassBound(n, tmp);
      snail := PassPy3(snail, n, tmp, lines);
      SpiralPy3Snoc(n, tmp);
      lines := lines - 1;
      tmp := tmp + 1;
    }
    PassBound(n, tmp);
    if n % 2 == 1 {
      snail := snail + [(n / 2, n / 2)];
    }
    road := Reverse(snail);
  }

  /** `snail_road` of the Python-2 copy: the full spiral reversed
      (`RoadPy2Cells` says which cells it reaches). */
  method SnailRoadPy2(n: nat) returns (road: seq<Cell>)
    ensures road == Reverse(ForwardPy2(n))
  {
    var lines: int := n;
    var snail: seq<Cell> := [];
    var tmp: nat := 0;
    while lines > n / 2
      invariant tmp <= Passes(n) && lines == n - tmp
      invariant snail == SpiralPy2(n, tmp)
    {
      PassBound(n, tmp);
      snail := PassPy2(snail, n, tmp, lines);
      SpiralPy2Snoc(n, tmp);
      lines := lines - 1;
      tmp := tmp + 1;
    }
    PassBound(n, tmp);
    if n % 2 == 1 {
      snail := snail + [(n / 2, n / 2)];
    }
    road := Reverse(snail);
  }

  // ---------------------------------------------------------------------
  // Cells of one ring

  /** The ring a cell of the grid lies on: its distance to the nearest
      border. */
  function RingOf(n: nat, x: Cell): int {
    var a := if x.0 < x.1 then x.0 else x.1;
    var b := if n - 1 - x.0 < n - 1 - x.1 then n - 1 - x.0 else n - 1 - x.1;
    if a < b then a else b
  }

  lemma SegmentCells(t: int, m: int)
    requires t < m
    ensures forall x :: x in Top(t, m) <==> x.0 == t && t <= x.1 < m - 1
    ensures forall x :: x in Right(t, m) <==> x.1 == m - 1 && t <= x.0 < m - 1
    ensures forall x :: x in Bottom(t, m) <==> x.0 == m - 1 && t < x.1 <= m - 1
    ensures forall x :: x in Left(t, m) <==> x.1 == t && t < x.0 <= m - 1
  {
    var e := m - 1;
    forall x: Cell | x.0 == t && t <= x.1 < e ensures x in Top(t, m) {
      assert Top(t, m)[x.1 - t] == x;
    }
    forall x: Cell | x.1 == e && t <= x.0 < e ensures x in Right(t, m) {
      assert Right(t, m)[x.0 - t] == x;
    }
    forall x: Cell | x.0 == e && t < x.1 <= e ensures x in Bottom(t, m) {
      assert Bottom(t, m)[e - x.1] == x;
    }
    forall x: Cell | x.1 == t && t < x.0 <= e ensures x in Left(t, m) {
      assert Left(t, m)[e - x.0] == x;
    }
  }

  lemma SegmentsNoDup(t: int, m: int)
    ensures NoDup(Top(t, m)) && NoDup(Right(t, m)) && NoDup(Bottom(t, m)) && NoDup(Left(t, m))
  {
  }

  /** The cells on the border of the square from `t` to `e`, as the four
      segments cover them. */
  predicate OnBorder(x: Cell, t: int, e: int, left: bool) {
    (x.0 == t && t <= x.1 < e) || (x.1 == e && t <= x.0 < e) ||
    (x.0 == e && t < x.1 <= e) || (left && x.1 == t && t < x.0 <= e)
  }

  lemma BorderIsRing(n: nat, t: nat, x: Cell, skip: bool)
    requires 2 * t < n
    ensures OnRing(n, t, skip, x) <==> OnBorder(x, t, n - 1 - t, !skip)
  {
  }

  /** A Python-2 ring holds exactly the grid cells at its distance from the
      border, unless it has shrunk to the single centre cell. */
  lemma RingPy2Cells(n: nat, t: nat)
    requires 2 * t < n
    ensures Traces(RingPy2(n, t), n, t, false)
  {
    RingBorder(t, n - t);
    forall x ensures x in RingPy2(n, t) <==> OnRing(n, t, false, x) {
      BorderIsRing(n, t, x, false);
    }
  }

  /** A Python-3 ring is the Python-2 ring without its left column. */
  lemma RingPy3Cells(n: nat, t: nat)
    requires 2 * t < n
    ensures Traces(RingPy3(n, t), n, t, true)
  {
    RingBorder(t, n - t);
    forall x ensures x in RingPy3(n, t) <==> OnRing(n, t, true, x) {
      BorderIsRing(n, t, x, true);
    }
  }

  /** The segments of one pass cover the border of the square from `t` to
      `m - 1` without repeating a cell, with or without the left column. */
  lemma RingBorder(t: int, m: int)
    requires t < m
    ensures NoDup(Top(t, m) + Right(t, m) + Bottom(t, m))
    ensures NoDup(Top(t, m) + Right(t, m) + Bottom(t, m) + Left(t, m))
    ensures forall x :: x in Top(t, m) + Right(t, m) + Bottom(t, m) <==> OnBorder(x, t, m - 1, false)
    ensures forall x :: x in Top(t, m) + Right(t, m) + Bottom(t, m) + Left(t, m) <==> OnBorder(x, t, m - 1, true)
  {
    SegmentCells(t, m);
    SegmentsNoDup(t, m);
    NoDupConcat(Top(t, m), Right(t, m));
    NoDupConcat(Top(t, m) + Right(t, m), Bottom(t, m));
    NoDupConcat(Top(t, m) + Right(t, m) + Bottom(t, m), Left(t, m));
  }

  // ---------------------------------------------------------------------
  // The whole walk

  lemma Regroup<T>(a: seq<T>, b: seq<T>, c: seq<T>, d: seq<T>)
    ensures a + b + c + d == a + (b + c + d)
  {
  }

  lemma Regroup5<T>(a: seq<T>, b: seq<T>, c: seq<T>, d: seq<T>, e: seq<T>)
    ensures a + b + c + d + e == a + (b + c + d + e)
  {
  }

  /** The spiral after one more pass. */
  lemma SpiralPy2Snoc(n: nat, t: nat)
    ensures SpiralPy2(n, t + 1) == SpiralPy2(n, t) + RingPy2(n, t)
  {
    var rs := seq(t, i requires 0 <= i < t => RingPy2(n, i));
    assert seq(t + 1, i requires 0 <= i < t + 1 => RingPy2(n, i)) == rs + [RingPy2(n, t)];
    FlattenSnoc(rs, RingPy2(n, t));
  }

  lemma SpiralPy3Snoc(n: nat, t: nat)
    ensures SpiralPy3(n, t + 1) == SpiralPy3(n, t) + RingPy3(n, t)
  {
    var rs := seq(t, i requires 0 <= i < t => RingPy3(n, i));
    assert seq(t + 1, i requires 0 <= i < t + 1 => RingPy3(n, i)) == rs + [RingPy3(n, t)];
    FlattenSnoc(rs, RingPy3(n, t));
  }

  /** The cells a walk has reached after `t` passes (`skip` for the walk that
      misses the left columns). */
  predicate Reached(n: nat, t: int, skip: bool, x: Cell) {
    InGrid(n, x) && RingOf(n, x) < t && 2 * RingOf(n, x) + 1 < n && !(skip && Skipped(x, n))
  }

  /** The cells one pass reaches. */
  predicate OnRing(n: nat, t: int, skip: bool, x: Cell) {
    InGrid(n, x) && RingOf(n, x) == t && 2 * t + 1 < n && !(skip && Skipped(x, n))
  }

  /** `s` lists every cell reached after `t` passes exactly once. */
  ghost predicate Visits(s: seq<Cell>, n: nat, t: int, skip: bool) {
    NoDup(s) && forall x :: x in s <==> Reached(n, t, skip, x)
  }

  /** `s` lists every cell of ring `t` exactly once. */
  ghost predicate Traces(s: seq<Cell>, n: nat, t: int, skip: bool) {
    NoDup(s) && forall x :: x in s <==> OnRing(n, t, skip, x)
  }

  /** Appending ring `t` to the cells of the inner passes. */
  lemma JoinRing(a: seq<Cell>, b: seq<Cell>, n: nat, t: nat, k: nat, skip: bool)
    requires k == t + 1
    requires Visits(a, n, t, skip) && Traces(b, n, t, skip)
    ensures Visits(a + b, n, k, skip)
  {
    NoDupConcat(a, b);
    forall x | Reached(n, k, skip, x) ensures x in a + b {
      if RingOf(n, x) < t {
        assert x in a;
      } else {
        assert x in b;
      }
    }
  }

  /** Rings `0 .. |rs| - 1`, each listing its own cells once, flatten to a
      list of the cells reached after `|rs|` passes, each once. */
  lemma {:induction false} FlattenRings(rs: seq<seq<Cell>>, n: nat, skip: bool)
    requires forall t :: 0 <= t < |rs| ==> Traces(rs[t], n, t, skip)
    ensures Visits(Flatten(rs), n, |rs|, skip)
    decreases |rs|
  {
    if rs != [] {
      var k := |rs|;
      FlattenRings(rs[..k - 1], n, skip);
      JoinRing(Flatten(rs[..k - 1]), rs[k - 1], n, k - 1, k, skip);
    }
  }

  lemma SpiralPy2Cells(n: nat, k: nat)
    requires k <= Passes(n)
    ensures Visits(SpiralPy2(n, k), n, k, false)
  {
    var rs := seq(k, t requires 0 <= t < k => RingPy2(n, t));
    forall t | 0 <= t < k ensures Traces(rs[t], n, t, false) {
      RingPy2Cells(n, t);
    }
    FlattenRings(rs, n, false);
  }

  lemma SpiralPy3Cells(n: nat, k: nat)
    requires k <= Passes(n)
    ensures Visits(SpiralPy3(n, k), n, k, true)
  {
    var rs := seq(k, t requires 0 <= t < k => RingPy3(n, t));
    forall t | 0 <= t < k ensures Traces(rs[t], n, t, true) {
      RingPy3Cells(n, t);
    }
    FlattenRings(rs, n, true);
  }

  /** The only grid cell on no ring is the centre of an odd grid. */
  lemma CentreCell(n: nat, x: Cell)
    requires InGrid(n, x)
    ensures RingOf(n, x) < Passes(n)
    ensures 2 * RingOf(n, x) + 1 >= n <==> n % 2 == 1 && x == (n / 2, n / 2)
  {
  }

  /** The Python-2 walk visits every cell of the grid exactly once. */
  lemma ForwardPy2Cells(n: nat)
    ensures NoDup(ForwardPy2(n))
    ensures forall x :: x in ForwardPy2(n) <==> InGrid(n, x)
    ensures |ForwardPy2(n)| == n * n
  {
    SpiralPy2Cells(n, Passes(n));
    AddCentre(SpiralPy2(n, Passes(n)), n, false);
    SpiralPy2Length(n, Passes(n));
    GridArea(n);
  }

  /** The rings' `4k(n - k)` cells and the centre make up the grid. */
  lemma GridArea(n: nat)
    ensures 4 * (Passes(n) * (n - Passes(n))) + |Centre(n)| == n * n
  {
    var k := Passes(n);
    if n % 2 == 0 {
      assert n == 2 * k;
      assert 4 * (k * (n - k)) == (2 * k) * (2 * k);
    } else {
      assert n == 2 * k - 1;
      assert 4 * (k * (n - k)) + 1 == (2 * k - 1) * (2 * k - 1);
    }
  }

  /** The Python-3 walk visits exactly the cells that are not `Skipped`,
      each once. */
  lemma ForwardPy3Cells(n: nat)
    ensures NoDup(ForwardPy3(n))
    ensures forall x :: x in ForwardPy3(n) <==> InGrid(n, x) && !Skipped(x, n)
  {
    SpiralPy3Cells(n, Passes(n));
    AddCentre(SpiralPy3(n, Passes(n)), n, true);
  }

  /** After all passes only the centre of an odd grid is missing. */
  lemma AddCentre(s: seq<Cell>, n: nat, skip: bool)
    requires Visits(s, n, Passes(n), skip)
    ensures NoDup(s + Centre(n))
    ensures forall x :: x in s + Centre(n) <==> InGrid(n, x) && !(skip && Skipped(x, n))
  {
    forall x | InGrid(n, x) {
      CentreCell(n, x);
    }
    NoDupConcat(s, Centre(n));
  }

  /** The returned Python-2 path: every grid cell once, the centre of an
      odd grid first. */
  lemma RoadPy2Cells(n: nat)
    ensures NoDup(Reverse(ForwardPy2(n)))
    ensures forall x :: x in Reverse(ForwardPy2(n)) <==> InGrid(n, x)
    ensures |Reverse(ForwardPy2(n))| == n * n
    ensures n % 2 == 1 ==> Reverse(ForwardPy2(n))[0] == (n / 2, n / 2)
  {
    ForwardPy2Cells(n);
    ReverseElements(ForwardPy2(n));
  }

  /** The returned Python-3 path: the cells that are not `Skipped`, each
      once, the centre of an odd grid first. */
  lemma RoadPy3Cells(n: nat)
    ensures NoDup(Reverse(ForwardPy3(n)))
    ensures forall x :: x in Reverse(ForwardPy3(n)) <==> InGrid(n, x) && !Skipped(x, n)
    ensures n % 2 == 1 ==> Reverse(ForwardPy3(n))[0] == (n / 2, n / 2)
  {
    ForwardPy3Cells(n);
    ReverseElements(ForwardPy3(n));
  }

  /** A Python-2 ring of side `s = n - 2t` has `4(s - 1)` cells, so the first
      `k` rings have `4k(n - k)`. */
  lemma {:induction false} SpiralPy2Length(n: nat, k: nat)
    requires k <= Passes(n)
    ensures |SpiralPy2(n, k)| == 4 * (k * (n - k))
  {
    if k > 0 {
      SpiralPy2Length(n, k - 1);
      var p := (k - 1) * (n - k);
      assert (k - 1) * (n - (k - 1)) == p + (k - 1);
      assert k * (n - k) == p + (n - k);
      SpiralPy2Snoc(n, k - 1);
      assert |RingPy2(n, k - 1)| == 4 * (n - 1 - 2 * (k - 1));
    }
  }

  /** A Python-3 ring of side `s = n - 2t` has only `3(s - 1)` cells, so the
      first `k` rings have `3k(n - k)`. */
  lemma {:induction false} SpiralPy3Length(n: nat, k: nat)
    requires k <= Passes(n)
    ensures |SpiralPy3(n, k)| == 3 * (k * (n - k))
  {
    if k > 0 {
      SpiralPy3Length(n, k - 1);
      var p := (k - 1) * (n - k);
      assert (k - 1) * (n - (k - 1)) == p + (k - 1);
      assert k * (n - k) == p + (n - k);
      SpiralPy3Snoc(n, k - 1);
      assert |RingPy3(n, k - 1)| == 3 * (n - 1 - 2 * (k - 1));
    }
  }

  /** The Python-2 path of a 3×3 grid, as returned. */
  lemma RoadPy2OfThree()
    ensures Reverse(ForwardPy2(3)) ==
      [(1, 1), (1, 0), (2, 0), (2, 1), (2, 2), (1, 2), (0, 2), (0, 1), (0, 0)]
  {
    SpiralPy2Snoc(3, 0);
    SpiralPy2Snoc(3, 1);
    assert SpiralPy2(3, 0) == [];
    assert Range(0, 2) == [0, 1];
    assert RangeDown(1, 3) == [2, 1];
    assert RingPy2(3, 0) == [(0, 0), (0, 1), (0, 2), (1, 2), (2, 2), (2, 1), (2, 0), (1, 0)];
    assert RingPy2(3, 1) == [];
    assert ForwardPy2(3) ==
      [(0, 0), (0, 1), (0, 2), (1, 2), (2, 2), (2, 1), (2, 0), (1, 0), (1, 1)];
  }

  /** The Python-3 path of a 3×3 grid, as returned: `(1, 0)` and `(2, 0)` are
      never reached. */
  lemma RoadPy3OfThree()
    ensures Reverse(ForwardPy3(3)) ==
      [(1, 1), (2, 1), (2, 2), (1, 2), (0, 2), (0, 1), (0, 0)]
  {
    SpiralPy3Snoc(3, 0);
    SpiralPy3Snoc(3, 1);
    assert SpiralPy3(3, 0) == [];
    assert Range(0, 2) == [0, 1];
    assert RangeDown(1, 3) == [2, 1];
    assert RingPy3(3, 0) == [(0, 0), (0, 1), (0, 2), (1, 2), (2, 2), (2, 1)];
    assert RingPy3(3, 1) == [];
    assert ForwardPy3(3) == [(0, 0), (0, 1), (0, 2), (1, 2), (2, 2), (2, 1), (1, 1)];
  }
}
