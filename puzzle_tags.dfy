/** The shapes of the four sides of every piece that `write_to_file` lists
    for the Puzzle of Knowledge.

    A side facing the edge of the grid has no shape, a side facing an empty
    cell is `up`, and a side facing a word is `up` when the graph still holds
    the edge from the piece's word to that word and `down` otherwise. When
    both directions of such an edge are present the method removes the one
    pointing back at the piece, so the neighbour, visited later, sees its
    own edge gone and gets the matching `down`. The pieces are visited row
    by row, left to right; within a piece the sides go west, south, east,
    north.

    The model states the tags in closed form from the graph as it was before
    the file was written, and the graph after it as that graph without the
    removed edges. It assumes the empty-cell mark `"*"` is not a word of the
    graph and no word stands in two cells. */
module PuzzleTags {
  import opened Lists
  import opened Strings
  import opened WordGraph
  import opened Snail
  import opened Grids

  /** `p` is visited before `q`. */
  predicate Before(p: Cell, q: Cell) {
    p.0 < q.0 || (p.0 == q.0 && p.1 < q.1)
  }

  function West(p: Cell): Cell { (p.0, p.1 - 1) }
  function South(p: Cell): Cell { (p.0 + 1, p.1) }
  function East(p: Cell): Cell { (p.0, p.1 + 1) }
  function North(p: Cell): Cell { (p.0 - 1, p.1) }

  /** The tag of the side of the piece `x` that faces the word `y`, from the
      edges `e0` the graph held before any was removed; `earlier` says the
      neighbour was visited first. */
  function Tag(e0: set<Edge>, x: Token, y: Token, earlier: bool): string {
    if y == Blank then "up"
    else if (x, y) !in e0 then "down"
    else if earlier && (y, x) in e0 then "down"
    else "up"
  }

  /** The tag of the side of cell `p` facing cell `q`, empty off the grid. */
  function Side(e0: set<Edge>, grid: Grid, n: nat, p: Cell, q: Cell, earlier: bool): string
    requires Square(grid, n) && InGrid(n, p)
  {
    if InGrid(n, q) then Tag(e0, At(grid, n, p), At(grid, n, q), earlier) else ""
  }

  /** `specification` for the piece at `p`: west, south, east, north. */
  function Tags(e0: set<Edge>, grid: Grid, n: nat, p: Cell): (r: seq<string>)
    requires Square(grid, n) && InGrid(n, p)
    ensures |r| == 4
  {
    [Side(e0, grid, n, p, West(p), true), Side(e0, grid, n, p, South(p), false),
     Side(e0, grid, n, p, East(p), false), Side(e0, grid, n, p, North(p), true)]
  }

  /** `for spec in specification: file.write(spec + "#")`. */
  function Hashed(tags: seq<string>): string {
    if tags == [] then "" else Hashed(tags[..|tags| - 1]) + tags[|tags| - 1] + "#"
  }

  /** The word as written: django writes `str(text.encode(...))`, the site
      copy the text itself. */
  function Label(quote: bool, t: Token): string {
    if quote then Quoted(t) else t
  }

  /** The line entry of one piece: its word, `#`, its tags each followed by
      `#`, and a space. */
  function Piece(e0: set<Edge>, grid: Grid, n: nat, quote: bool, p: Cell): string
    requires Square(grid, n) && InGrid(n, p)
  {
    Label(quote, At(grid, n, p)) + "#" + Hashed(Tags(e0, grid, n, p)) + " "
  }

  /** The entries of the first `j` pieces of row `i`. */
  function Pieces(e0: set<Edge>, grid: Grid, n: nat, quote: bool, i: nat, j: nat): (r: seq<string>)
    requires Square(grid, n) && i < n && j <= n
    ensures |r| == j
  {
    seq(j, k requires 0 <= k < j => Piece(e0, grid, n, quote, (i, k)))
  }

  /** The first `j` pieces of row `i`, as written. */
  function Row(e0: set<Edge>, grid: Grid, n: nat, quote: bool, i: nat, j: nat): string
    requires Square(grid, n) && i < n && j <= n
  {
    Flatten(Pieces(e0, grid, n, quote, i, j))
  }

  /** The lines of the first `i` rows, each ended by a newline. */
  function Lines(e0: set<Edge>, grid: Grid, n: nat, quote: bool, i: nat): (r: seq<string>)
    requires Square(grid, n) && i <= n
    ensures |r| == i
  {
    seq(i, k requires 0 <= k < i => Row(e0, grid, n, quote, k, n) + "\n")
  }

  /** The first `i` rows, as written. */
  function Rows(e0: set<Edge>, grid: Grid, n: nat, quote: bool, i: nat): string
    requires Square(grid, n) && i <= n
  {
    Flatten(Lines(e0, grid, n, quote, i))
  }

  /** One more piece at the end of a row. */
  lemma RowStep(e0: set<Edge>, grid: Grid, n: nat, quote: bool, i: nat, j: nat)
    requires Square(grid, n) && i < n && j < n
    ensures Row(e0, grid, n, quote, i, j + 1) == Row(e0, grid, n, quote, i, j) + Piece(e0, grid, n, quote, (i, j))
  {
    Snoc(Pieces(e0, grid, n, quote, i, j + 1), Pieces(e0, grid, n, quote, i, j), Piece(e0, grid, n, quote, (i, j)));
    FlattenSnoc(Pieces(e0, grid, n, quote, i, j), Piece(e0, grid, n, quote, (i, j)));
  }

  /** A list that agrees with `b` and then holds `x` is `b + [x]`. */
  lemma Snoc<T>(a: seq<T>, b: seq<T>, x: T)
    requires |a| == |b| + 1 && a[|b|] == x
    requires forall k :: 0 <= k < |b| ==> a[k] == b[k]
    ensures a == b + [x]
  {
  }

  /** One more row at the end. */
  lemma RowsStep(e0: set<Edge>, grid: Grid, n: nat, quote: bool, i: nat)
    requires Square(grid, n) && i < n
    ensures Rows(e0, grid, n, quote, i + 1) == Rows(e0, grid, n, quote, i) + Row(e0, grid, n, quote, i, n) + "\n"
  {
    var a, b := Lines(e0, grid, n, quote, i + 1), Lines(e0, grid, n, quote, i);
    Snoc(a, b, Row(e0, grid, n, quote, i, n) + "\n");
    FlattenSnoc(Lines(e0, grid, n, quote, i), Row(e0, grid, n, quote, i, n) + "\n");
  }

  /** Both directions of the edge between the words of `p` and `q`. */
  predicate Mutual(e0: set<Edge>, grid: Grid, n: nat, p: Cell, q: Cell)
    requires Square(grid, n) && InGrid(n, p) && InGrid(n, q)
  {
    (At(grid, n, p), At(grid, n, q)) in e0 && (At(grid, n, q), At(grid, n, p)) in e0
  }

  /** The edges removed while visiting the cells before `p`: for each visited
      piece and its south and east neighbours, the edge pointing back at the
      piece when both directions are present. */
  function Dropped(e0: set<Edge>, grid: Grid, n: nat, p: Cell): set<Edge>
    requires Square(grid, n)
  {
    DroppedSouth(e0, grid, n, p) + DroppedEast(e0, grid, n, p)
  }

  function DroppedSouth(e0: set<Edge>, grid: Grid, n: nat, p: Cell): set<Edge>
    requires Square(grid, n)
  {
    set i, j | 0 <= i < n - 1 && 0 <= j < n && Before((i, j), p) && Mutual(e0, grid, n, (i, j), (i + 1, j))
      :: (grid[i + 1][j], grid[i][j])
  }

  function DroppedEast(e0: set<Edge>, grid: Grid, n: nat, p: Cell): set<Edge>
    requires Square(grid, n)
  {
    set i, j | 0 <= i < n && 0 <= j < n - 1 && Before((i, j), p) && Mutual(e0, grid, n, (i, j), (i, j + 1))
      :: (grid[i][j + 1], grid[i][j])
  }

  /** The edges the visit of `p` removes. */
  function DroppedAt(e0: set<Edge>, grid: Grid, n: nat, p: Cell): set<Edge>
    requires Square(grid, n) && InGrid(n, p)
  {
    PairDrop(e0, grid, n, p, South(p)) + PairDrop(e0, grid, n, p, East(p))
  }

  /** The edge the visit of `p` removes for its neighbour `q`, if any. */
  function PairDrop(e0: set<Edge>, grid: Grid, n: nat, p: Cell, q: Cell): set<Edge>
    requires Square(grid, n) && InGrid(n, p)
  {
    if InGrid(n, q) && Mutual(e0, grid, n, p, q) then {(At(grid, n, q), At(grid, n, p))} else {}
  }

  /** No edge of `e0` touches the empty-cell mark. */
  ghost predicate NoBlankEdge(e0: set<Edge>) {
    forall e :: e in e0 ==> e.0 != Blank && e.1 != Blank
  }

  // ---------------------------------------------------------------------
  // How the removed edges grow

  lemma DroppedStep(e0: set<Edge>, grid: Grid, n: nat, p: Cell)
    requires Square(grid, n) && InGrid(n, p)
    ensures Dropped(e0, grid, n, East(p)) == Dropped(e0, grid, n, p) + DroppedAt(e0, grid, n, p)
  {
    DroppedSouthStep(e0, grid, n, p);
    DroppedEastStep(e0, grid, n, p);
  }

  lemma DroppedSouthStep(e0: set<Edge>, grid: Grid, n: nat, p: Cell)
    requires Square(grid, n) && InGrid(n, p)
    ensures DroppedSouth(e0, grid, n, East(p)) == DroppedSouth(e0, grid, n, p) +
      (if InGrid(n, South(p)) && Mutual(e0, grid, n, p, South(p)) then {(At(grid, n, South(p)), At(grid, n, p))} else {})
  {
    var q := East(p);
    var old_, new_ := DroppedSouth(e0, grid, n, p), DroppedSouth(e0, grid, n, q);
    var s := if InGrid(n, South(p)) && Mutual(e0, grid, n, p, South(p)) then {(At(grid, n, South(p)), At(grid, n, p))} else {};
    forall d | d in new_ ensures d in old_ + s {
      var i, j :| 0 <= i < n - 1 && 0 <= j < n && Before((i, j), q) && Mutual(e0, grid, n, (i, j), (i + 1, j))
                  && d == (grid[i + 1][j], grid[i][j]);
      if (i, j) != p {
        assert Before((i, j), p);
        assert d in old_;
      }
    }
    forall d | d in old_ ensures d in new_ {
      var i, j :| 0 <= i < n - 1 && 0 <= j < n && Before((i, j), p) && Mutual(e0, grid, n, (i, j), (i + 1, j))
                  && d == (grid[i + 1][j], grid[i][j]);
      assert Before((i, j), q);
    }
    if s != {} {
      assert Before(p, q);
      assert (grid[p.0 + 1][p.1], grid[p.0][p.1]) in new_;
    }
  }

  lemma DroppedEastStep(e0: set<Edge>, grid: Grid, n: nat, p: Cell)
    requires Square(grid, n) && InGrid(n, p)
    ensures DroppedEast(e0, grid, n, East(p)) == DroppedEast(e0, grid, n, p) +
      (if InGrid(n, East(p)) && Mutual(e0, grid, n, p, East(p)) then {(At(grid, n, East(p)), At(grid, n, p))} else {})
  {
    var q := East(p);
    var old_, new_ := DroppedEast(e0, grid, n, p), DroppedEast(e0, grid, n, q);
    var s := if InGrid(n, East(p)) && Mutual(e0, grid, n, p, East(p)) then {(At(grid, n, East(p)), At(grid, n, p))} else {};
    forall d | d in new_ ensures d in old_ + s {
      var i, j :| 0 <= i < n && 0 <= j < n - 1 && Before((i, j), q) && Mutual(e0, grid, n, (i, j), (i, j + 1))
                  && d == (grid[i][j + 1], grid[i][j]);
      if (i, j) != p {
        assert Before((i, j), p);
        assert d in old_;
      }
    }
    forall d | d in old_ ensures d in new_ {
      var i, j :| 0 <= i < n && 0 <= j < n - 1 && Before((i, j), p) && Mutual(e0, grid, n, (i, j), (i, j + 1))
                  && d == (grid[i][j + 1], grid[i][j]);
      assert Before((i, j), q);
    }
    if s != {} {
      assert Before(p, q);
      assert (grid[p.0][p.1 + 1], grid[p.0][p.1]) in new_;
    }
  }

  lemma DroppedRowEnd(e0: set<Edge>, grid: Grid, n: nat, i: int)
    requires Square(grid, n)
    ensures Dropped(e0, grid, n, (i, n)) == Dropped(e0, grid, n, (i + 1, 0))
  {
    DroppedSouthSame(e0, grid, n, (i, n), (i + 1, 0));
    DroppedEastSame(e0, grid, n, (i, n), (i + 1, 0));
  }

  /** Two cells with the same cells of the grid before them have the same
      edges removed for south pairs. */
  lemma DroppedSouthSame(e0: set<Edge>, grid: Grid, n: nat, p: Cell, q: Cell)
    requires Square(grid, n)
    requires forall a, b :: 0 <= a < n && 0 <= b < n ==> (Before((a, b), p) <==> Before((a, b), q))
    ensures DroppedSouth(e0, grid, n, p) == DroppedSouth(e0, grid, n, q)
  {
    var s1, s2 := DroppedSouth(e0, grid, n, p), DroppedSouth(e0, grid, n, q);
    forall d | d in s1 ensures d in s2 {
      var a, b :| 0 <= a < n - 1 && 0 <= b < n && Before((a, b), p) && Mutual(e0, grid, n, (a, b), (a + 1, b))
                  && d == (grid[a + 1][b], grid[a][b]);
      assert Before((a, b), q);
    }
    forall d | d in s2 ensures d in s1 {
      var a, b :| 0 <= a < n - 1 && 0 <= b < n && Before((a, b), q) && Mutual(e0, grid, n, (a, b), (a + 1, b))
                  && d == (grid[a + 1][b], grid[a][b]);
      assert Before((a, b), p);
    }
  }

  /** The same for east pairs. */
  lemma DroppedEastSame(e0: set<Edge>, grid: Grid, n: nat, p: Cell, q: Cell)
    requires Square(grid, n)
    requires forall a, b :: 0 <= a < n && 0 <= b < n ==> (Before((a, b), p) <==> Before((a, b), q))
    ensures DroppedEast(e0, grid, n, p) == DroppedEast(e0, grid, n, q)
  {
    var e1, e2 := DroppedEast(e0, grid, n, p), DroppedEast(e0, grid, n, q);
    forall d | d in e1 ensures d in e2 {
      var a, b :| 0 <= a < n && 0 <= b < n - 1 && Before((a, b), p) && Mutual(e0, grid, n, (a, b), (a, b + 1))
                  && d == (grid[a][b + 1], grid[a][b]);
      assert Before((a, b), q);
    }
    forall d | d in e2 ensures d in e1 {
      var a, b :| 0 <= a < n && 0 <= b < n - 1 && Before((a, b), q) && Mutual(e0, grid, n, (a, b), (a, b + 1))
                  && d == (grid[a][b + 1], grid[a][b]);
      assert Before((a, b), p);
    }
  }

  /** Which removed edge joins the words of two cells: the one pointing back
      from the south or east neighbour of a visited piece, when both
      directions were present. */
  lemma DroppedPair(e0: set<Edge>, grid: Grid, n: nat, p: Cell, a: Cell, b: Cell)
    requires Square(grid, n) && Distinct(grid, n) && NoBlankEdge(e0)
    requires InGrid(n, a) && InGrid(n, b)
    ensures (At(grid, n, b), At(grid, n, a)) in Dropped(e0, grid, n, p) <==>
            Before(a, p) && (b == South(a) || b == East(a)) && Mutual(e0, grid, n, a, b)
  {
    DroppedSouthPair(e0, grid, n, p, a, b);
    DroppedEastPair(e0, grid, n, p, a, b);
  }

  lemma DroppedSouthPair(e0: set<Edge>, grid: Grid, n: nat, p: Cell, a: Cell, b: Cell)
    requires Square(grid, n) && Distinct(grid, n) && NoBlankEdge(e0)
    requires InGrid(n, a) && InGrid(n, b)
    ensures (At(grid, n, b), At(grid, n, a)) in DroppedSouth(e0, grid, n, p) <==>
            Before(a, p) && b == South(a) && Mutual(e0, grid, n, a, b)
  {
    var d := (At(grid, n, b), At(grid, n, a));
    if d in DroppedSouth(e0, grid, n, p) {
      var i, j :| 0 <= i < n - 1 && 0 <= j < n && Before((i, j), p) && Mutual(e0, grid, n, (i, j), (i + 1, j))
                  && d == (grid[i + 1][j], grid[i][j]);
      SameWordSameCell(grid, n, (i + 1, j), b);
      SameWordSameCell(grid, n, (i, j), a);
    } else if Before(a, p) && b == South(a) && Mutual(e0, grid, n, a, b) {
      DroppedSouthHas(e0, grid, n, p, a.0, a.1);
    }
  }

  lemma DroppedSouthHas(e0: set<Edge>, grid: Grid, n: nat, p: Cell, i: int, j: int)
    requires Square(grid, n) && 0 <= i < n - 1 && 0 <= j < n
    requires Before((i, j), p) && Mutual(e0, grid, n, (i, j), (i + 1, j))
    ensures (grid[i + 1][j], grid[i][j]) in DroppedSouth(e0, grid, n, p)
  {
  }

  lemma DroppedEastPair(e0: set<Edge>, grid: Grid, n: nat, p: Cell, a: Cell, b: Cell)
    requires Square(grid, n) && Distinct(grid, n) && NoBlankEdge(e0)
    requires InGrid(n, a) && InGrid(n, b)
    ensures (At(grid, n, b), At(grid, n, a)) in DroppedEast(e0, grid, n, p) <==>
            Before(a, p) && b == East(a) && Mutual(e0, grid, n, a, b)
  {
    var d := (At(grid, n, b), At(grid, n, a));
    if d in DroppedEast(e0, grid, n, p) {
      var i, j :| 0 <= i < n && 0 <= j < n - 1 && Before((i, j), p) && Mutual(e0, grid, n, (i, j), (i, j + 1))
                  && d == (grid[i][j + 1], grid[i][j]);
      SameWordSameCell(grid, n, (i, j + 1), b);
      SameWordSameCell(grid, n, (i, j), a);
    } else if Before(a, p) && b == East(a) && Mutual(e0, grid, n, a, b) {
      DroppedEastHas(e0, grid, n, p, a.0, a.1);
    }
  }

  lemma DroppedEastHas(e0: set<Edge>, grid: Grid, n: nat, p: Cell, i: int, j: int)
    requires Square(grid, n) && 0 <= i < n && 0 <= j < n - 1
    requires Before((i, j), p) && Mutual(e0, grid, n, (i, j), (i, j + 1))
    ensures (grid[i][j + 1], grid[i][j]) in DroppedEast(e0, grid, n, p)
  {
  }

  /** Two cells holding the same word are one cell. */
  lemma SameWordSameCell(grid: Grid, n: nat, x: Cell, y: Cell)
    requires Square(grid, n) && Distinct(grid, n) && InGrid(n, x) && InGrid(n, y)
    ensures At(grid, n, x) == At(grid, n, y) != Blank ==> x == y
  {
  }

  // ---------------------------------------------------------------------
  // The loop body of `write_to_file`

  /** The nested tests for one neighbour holding `y` of the piece holding
      `x`, on the graph as it stands: `up` for an empty neighbour or an edge
      from `x` to `y`, which loses its reverse if it has one; `down`
      otherwise. */
  method Shape(g: Graph, x: Token, y: Token) returns (tag: string, r: Graph)
    ensures tag == if y == Blank || (x, y) in g.edges then "up" else "down"
    ensures r.nodes == g.nodes
    ensures r.edges == if y != Blank && (x, y) in g.edges && (y, x) in g.edges then g.edges - {(y, x)} else g.edges
  {
    r := g;
    if y != Blank {
      if (x, y) in g.edges {
        if (y, x) in g.edges {
          r := RemoveEdge(g, y, x);
        }
        tag := "up";
      } else {
        tag := "down";
      }
    } else {
      tag := "up";
    }
  }

  /** The four sides of the piece at `p`, west, south, east and north, with
      the graph holding `e0` less the edges removed at the pieces before. */
  method CellTags(g: Graph, grid: Grid, n: nat, p: Cell, ghost e0: set<Edge>) returns (tags: seq<string>, r: Graph)
    requires Square(grid, n) && Distinct(grid, n) && InGrid(n, p) && NoBlankEdge(e0)
    requires g.edges == e0 - Dropped(e0, grid, n, p)
    ensures tags == Tags(e0, grid, n, p)
    ensures r.nodes == g.nodes && r.edges == e0 - Dropped(e0, grid, n, East(p))
  {
    var west, south, east, north: string;
    r := g;
    if p.1 > 0 {
      west, r := EarlierSide(r, grid, n, p, West(p), e0, {});
    } else {
      west := "";
    }
    assert west == Side(e0, grid, n, p, West(p), true);
    if p.0 < n - 1 {
      south, r := LaterSide(r, grid, n, p, South(p), e0, {});
    } else {
      south := "";
    }
    assert south == Side(e0, grid, n, p, South(p), false);
    ghost var gone := PairDrop(e0, grid, n, p, South(p));
    assert r.edges == e0 - Dropped(e0, grid, n, p) - gone;
    if p.1 < n - 1 {
      OtherNeighbour(e0, grid, n, p, South(p), East(p));
      east, r := LaterSide(r, grid, n, p, East(p), e0, gone);
    } else {
      east := "";
    }
    assert east == Side(e0, grid, n, p, East(p), false);
    gone := gone + PairDrop(e0, grid, n, p, East(p));
    assert r.edges == e0 - Dropped(e0, grid, n, p) - gone;
    if p.0 > 0 {
      OtherNeighbour(e0, grid, n, p, South(p), North(p));
      OtherNeighbour(e0, grid, n, p, East(p), North(p));
      north, r := EarlierSide(r, grid, n, p, North(p), e0, gone);
    } else {
      north := "";
    }
    tags := [west, south, east, north];
    DroppedStep(e0, grid, n, p);
    Subtract(e0, Dropped(e0, grid, n, p), gone);
  }

  lemma Subtract<T>(a: set<T>, b: set<T>, c: set<T>)
    ensures a - b - c == a - (b + c)
  {
  }

  /** Every edge in `gone` points at `x` and comes from a word other than `y`. */
  ghost predicate Aside(gone: set<Edge>, x: Token, y: Token) {
    forall e :: e in gone ==> e.1 == x && e.0 != y
  }

  /** The edge removed for one neighbour does not come from another. */
  lemma OtherNeighbour(e0: set<Edge>, grid: Grid, n: nat, p: Cell, q: Cell, o: Cell)
    requires Square(grid, n) && Distinct(grid, n) && InGrid(n, p) && InGrid(n, o) && q != o && NoBlankEdge(e0)
    ensures forall e :: e in PairDrop(e0, grid, n, p, q) ==> e.1 == At(grid, n, p) && e.0 != At(grid, n, o)
  {
  }

  /** The side facing a neighbour visited before the piece. */
  method EarlierSide(g: Graph, grid: Grid, n: nat, p: Cell, w: Cell, ghost e0: set<Edge>, ghost gone: set<Edge>)
    returns (t: string, r: Graph)
    requires Square(grid, n) && Distinct(grid, n) && NoBlankEdge(e0)
    requires InGrid(n, p) && InGrid(n, w) && (w == West(p) || w == North(p))
    requires Aside(gone, At(grid, n, p), At(grid, n, w))
    requires g.edges == e0 - Dropped(e0, grid, n, p) - gone
    ensures t == Side(e0, grid, n, p, w, true)
    ensures r == g
  {
    Earlier(e0, grid, n, p, w);
    SameWordSameCell(grid, n, p, w);
    t, r := Shape(g, grid[p.0][p.1], grid[w.0][w.1]);
  }

  /** The side facing a neighbour visited after the piece. */
  method LaterSide(g: Graph, grid: Grid, n: nat, p: Cell, q: Cell, ghost e0: set<Edge>, ghost gone: set<Edge>)
    returns (t: string, r: Graph)
    requires Square(grid, n) && Distinct(grid, n) && NoBlankEdge(e0)
    requires InGrid(n, p) && InGrid(n, q) && (q == South(p) || q == East(p))
    requires Aside(gone, At(grid, n, p), At(grid, n, q))
    requires g.edges == e0 - Dropped(e0, grid, n, p) - gone
    ensures t == Side(e0, grid, n, p, q, false)
    ensures r.nodes == g.nodes && r.edges == g.edges - PairDrop(e0, grid, n, p, q)
  {
    Later(e0, grid, n, p, q);
    SameWordSameCell(grid, n, p, q);
    t, r := Shape(g, grid[p.0][p.1], grid[q.0][q.1]);
  }

  /** A neighbour visited before the piece: the edge from the piece to it
      is gone exactly when both directions were present, and its reverse is
      still there. */
  lemma Earlier(e0: set<Edge>, grid: Grid, n: nat, p: Cell, w: Cell)
    requires Square(grid, n) && Distinct(grid, n) && NoBlankEdge(e0)
    requires InGrid(n, p) && InGrid(n, w) && (w == West(p) || w == North(p))
    ensures (At(grid, n, p), At(grid, n, w)) in Dropped(e0, grid, n, p) <==> Mutual(e0, grid, n, w, p)
    ensures (At(grid, n, w), At(grid, n, p)) !in Dropped(e0, grid, n, p)
  {
    DroppedPair(e0, grid, n, p, w, p);
    DroppedPair(e0, grid, n, p, p, w);
  }

  /** A neighbour visited after the piece: neither edge between them is
      gone yet. */
  lemma Later(e0: set<Edge>, grid: Grid, n: nat, p: Cell, q: Cell)
    requires Square(grid, n) && Distinct(grid, n) && NoBlankEdge(e0)
    requires InGrid(n, p) && InGrid(n, q) && (q == South(p) || q == East(p))
    ensures (At(grid, n, p), At(grid, n, q)) !in Dropped(e0, grid, n, p)
    ensures (At(grid, n, q), At(grid, n, p)) !in Dropped(e0, grid, n, p)
  {
    DroppedPair(e0, grid, n, p, q, p);
    DroppedPair(e0, grid, n, p, p, q);
  }

  /** The rows of the pieces, each followed by a newline, taking the graph
      to the edges left once every pair has been seen. */
  method WriteRows(g: Graph, grid: Grid, n: nat, quote: bool) returns (text: string, r: Graph)
    requires Square(grid, n) && Distinct(grid, n) && NoBlankEdge(g.edges)
    ensures text == Rows(g.edges, grid, n, quote, n)
    ensures r == Graph(g.nodes, Remaining(g.edges, grid, n))
  {
    ghost var e0 := g.edges;
    text, r := "", g;
    var i: nat := 0;
    while i < n
      invariant i <= n
      invariant text == Rows(e0, grid, n, quote, i)
      invariant r == Graph(g.nodes, e0 - Dropped(e0, grid, n, (i, 0)))
    {
      var line;
      line, r := WriteRow(r, grid, n, quote, i, e0);
      RowsStep(e0, grid, n, quote, i);
      DroppedRowEnd(e0, grid, n, i);
      text := text + line + "\n";
      i := i + 1;
    }
    assert i == n;
  }

  /** Row `i` of the pieces, taking the graph from the edges left by the
      rows before to those left after it. */
  method WriteRow(g: Graph, grid: Grid, n: nat, quote: bool, i: nat, ghost e0: set<Edge>) returns (line: string, r: Graph)
    requires Square(grid, n) && Distinct(grid, n) && NoBlankEdge(e0) && i < n
    requires g.edges == e0 - Dropped(e0, grid, n, (i, 0))
    ensures line == Row(e0, grid, n, quote, i, n)
    ensures r == Graph(g.nodes, e0 - Dropped(e0, grid, n, (i, n)))
  {
    line, r := "", g;
    var j: nat := 0;
    while j < n
      invariant j <= n
      invariant line == Row(e0, grid, n, quote, i, j)
      invariant r == Graph(g.nodes, e0 - Dropped(e0, grid, n, (i, j)))
    {
      var piece;
      piece, r := WritePiece(r, grid, n, quote, i, j, e0);
      RowStep(e0, grid, n, quote, i, j);
      line := line + piece;
      j := j + 1;
    }
    assert j == n;
  }

  /** The entry of one piece of `write_to_file`: its word, `#`, its tags
      each followed by `#`, and a space, dropping on the way the reverse
      edges of its south and east pairs. */
  method WritePiece(g: Graph, grid: Grid, n: nat, quote: bool, i: nat, j: nat, ghost e0: set<Edge>) returns (piece: string, r: Graph)
    requires Square(grid, n) && Distinct(grid, n) && i < n && j < n && NoBlankEdge(e0)
    requires g.edges == e0 - Dropped(e0, grid, n, (i, j))
    ensures piece == Piece(e0, grid, n, quote, (i, j))
    ensures r == Graph(g.nodes, e0 - Dropped(e0, grid, n, (i, j + 1)))
  {
    assert East((i, j)) == (i, j + 1);
    var tags;
    tags, r := CellTags(g, grid, n, (i, j), e0);
    piece := Label(quote, grid[i][j]) + "#";
    piece := WriteTags(piece, tags);
    piece := piece + " ";
  }

  /** `for spec in specification: file.write(spec + "#")`, on the text
      written so far. */
  method WriteTags(text: string, tags: seq<string>) returns (r: string)
    ensures r == text + Hashed(tags)
  {
    r := text;
    for k := 0 to |tags|
      invariant r == text + Hashed(tags[..k])
    {
      assert tags[..k + 1][..k] == tags[..k];
      Associative(text, Hashed(tags[..k]), tags[k] + "#");
      r := r + (tags[k] + "#");
    }
    assert tags[..|tags|] == tags;
  }

  // ---------------------------------------------------------------------
  // What the tags say

  /** Two placed neighbours, `p` first and `q` south or east of it: the side
      of `p` facing `q` is `up` exactly when the edge from `p`'s word to
      `q`'s exists, the side of `q` facing `p` is `up` exactly when only the
      edge back exists, so they are never both `up`, and one of them is
      `up` exactly when the graph joins the two words. */
  lemma SidesFit(e0: set<Edge>, grid: Grid, n: nat, p: Cell, q: Cell)
    requires Square(grid, n) && InGrid(n, p) && InGrid(n, q) && (q == South(p) || q == East(p))
    requires At(grid, n, p) != Blank && At(grid, n, q) != Blank
    ensures var x, y := At(grid, n, p), At(grid, n, q);
            var a, b := Side(e0, grid, n, p, q, false), Side(e0, grid, n, q, p, true);
            (a == "up" <==> (x, y) in e0) &&
            (b == "up" <==> (y, x) in e0 && (x, y) !in e0) &&
            !(a == "up" && b == "up") &&
            (a == "up" || b == "up" <==> (x, y) in e0 || (y, x) in e0)
  {
    if q == South(p) {
      assert North(q) == p;
    } else {
      assert West(q) == p;
    }
  }

  /** Facing an empty cell a piece's side is `up`; the empty cell's side
      facing a word is `down`, since no edge touches the mark. */
  lemma BlankSides(e0: set<Edge>, grid: Grid, n: nat, p: Cell, q: Cell, earlier: bool)
    requires Square(grid, n) && InGrid(n, p) && InGrid(n, q) && NoBlankEdge(e0)
    ensures At(grid, n, q) == Blank ==> Side(e0, grid, n, p, q, earlier) == "up"
    ensures At(grid, n, p) == Blank && At(grid, n, q) != Blank ==> Side(e0, grid, n, p, q, earlier) == "down"
  {
  }

  /** The edges left after a whole pass. */
  function Remaining(e0: set<Edge>, grid: Grid, n: nat): set<Edge>
    requires Square(grid, n)
  {
    e0 - Dropped(e0, grid, n, (n, 0))
  }

  /** Every side reads the same from the edges left after a pass as from
      the edges before it. */
  lemma SideSettles(e0: set<Edge>, grid: Grid, n: nat, p: Cell, q: Cell, earlier: bool)
    requires Square(grid, n) && Distinct(grid, n) && NoBlankEdge(e0) && InGrid(n, p)
    requires if earlier then q == West(p) || q == North(p) else q == South(p) || q == East(p)
    ensures Side(Remaining(e0, grid, n), grid, n, p, q, earlier) == Side(e0, grid, n, p, q, earlier)
  {
    if InGrid(n, q) {
      DroppedPair(e0, grid, n, (n, 0), p, q);
      DroppedPair(e0, grid, n, (n, 0), q, p);
    }
  }

  lemma TagsSettle(e0: set<Edge>, grid: Grid, n: nat, p: Cell)
    requires Square(grid, n) && Distinct(grid, n) && NoBlankEdge(e0) && InGrid(n, p)
    ensures Tags(Remaining(e0, grid, n), grid, n, p) == Tags(e0, grid, n, p)
  {
    SideSettles(e0, grid, n, p, West(p), true);
    SideSettles(e0, grid, n, p, South(p), false);
    SideSettles(e0, grid, n, p, East(p), false);
    SideSettles(e0, grid, n, p, North(p), true);
  }

  /** A second pass removes nothing more. */
  lemma SettledStays(e0: set<Edge>, grid: Grid, n: nat)
    requires Square(grid, n)
    ensures Dropped(Remaining(e0, grid, n), grid, n, (n, 0)) == {}
    ensures Remaining(Remaining(e0, grid, n), grid, n) == Remaining(e0, grid, n)
  {
    var e1 := Remaining(e0, grid, n);
    forall i, j | 0 <= i < n - 1 && 0 <= j < n
      ensures !Mutual(e1, grid, n, (i, j), (i + 1, j))
    {
      if Mutual(e0, grid, n, (i, j), (i + 1, j)) {
        DroppedSouthHas(e0, grid, n, (n, 0), i, j);
      }
    }
    forall i, j | 0 <= i < n && 0 <= j < n - 1
      ensures !Mutual(e1, grid, n, (i, j), (i, j + 1))
    {
      if Mutual(e0, grid, n, (i, j), (i, j + 1)) {
        DroppedEastHas(e0, grid, n, (n, 0), i, j);
      }
    }
  }

  /** Rows written from two edge sets that give every piece the same tags
      are the same. */
  lemma RowsAgree(e0: set<Edge>, e1: set<Edge>, grid: Grid, n: nat, quote: bool)
    requires Square(grid, n)
    requires forall p :: InGrid(n, p) ==> Tags(e1, grid, n, p) == Tags(e0, grid, n, p)
    ensures Rows(e1, grid, n, quote, n) == Rows(e0, grid, n, quote, n)
  {
    forall i | 0 <= i < n ensures Row(e1, grid, n, quote, i, n) == Row(e0, grid, n, quote, i, n) {
      forall k | 0 <= k < n
        ensures Pieces(e1, grid, n, quote, i, n)[k] == Pieces(e0, grid, n, quote, i, n)[k]
      {
        assert InGrid(n, (i, k));
      }
      assert Pieces(e1, grid, n, quote, i, n) == Pieces(e0, grid, n, quote, i, n);
    }
    assert Lines(e1, grid, n, quote, n) == Lines(e0, grid, n, quote, n);
  }

  /** Writing the puzzle a second time writes the same rows and removes no
      further edge. */
  lemma RowsSettle(e0: set<Edge>, grid: Grid, n: nat, quote: bool)
    requires Square(grid, n) && Distinct(grid, n) && NoBlankEdge(e0)
    ensures Rows(Remaining(e0, grid, n), grid, n, quote, n) == Rows(e0, grid, n, quote, n)
    ensures Remaining(Remaining(e0, grid, n), grid, n) == Remaining(e0, grid, n)
  {
    forall p | InGrid(n, p) ensures Tags(Remaining(e0, grid, n), grid, n, p) == Tags(e0, grid, n, p) {
      TagsSettle(e0, grid, n, p);
    }
    RowsAgree(e0, Remaining(e0, grid, n), grid, n, quote);
    SettledStays(e0, grid, n);
  }
}
