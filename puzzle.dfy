/** The Puzzle of Knowledge: a square grid filled along the snail road with
    the best-ranked words of the lecture, each word chosen to fit the words
    already placed around it, and the text file that lists every piece with
    the shape of its four sides.

    The two copies of the class differ only in the snail road they follow
    (the django copy runs on Python 3, the site copy on Python 2) and in the
    layout of the file they write. */
module Puzzle {
  import opened Lists
  import opened Strings
  import opened WordGraph
  import opened Exceptions
  import opened Files
  import opened Snail
  import opened Grids
  import opened PuzzleTags

  /** The starting value of `min` in `check`: words ranked this low are never
      chosen for a cell with neighbours. */
  const Limit: int := 100000

  // ---------------------------------------------------------------------
  // What `check` chooses

  /** The neighbours of `t` in `g.to_undirected()`. */
  function Adj(g: Graph, t: Token): set<Token> {
    set y | y in g.nodes && ((t, y) in g.edges || (y, t) in g.edges)
  }

  /** The word at `x` as a one-element list, or nothing when `x` is off the
      grid or blank. */
  function Filled(grid: Grid, n: nat, x: Cell): (r: seq<Token>)
    requires Square(grid, n)
    ensures |r| <= 1
  {
    if InGrid(n, x) && At(grid, n, x) != Blank then [At(grid, n, x)] else []
  }

  /** The words of the occupied cells east, west, north and south of
      `(l, c)`, in that order. */
  function Occupied(grid: Grid, n: nat, l: int, c: int): seq<Token>
    requires Square(grid, n)
  {
    Filled(grid, n, (l, c + 1)) + Filled(grid, n, (l, c - 1)) +
    Filled(grid, n, (l - 1, c)) + Filled(grid, n, (l + 1, c))
  }

  /** The words adjacent to every occupied neighbour. */
  function Candidates(g: Graph, ts: seq<Token>): set<Token> {
    set y | y in g.nodes && forall i :: 0 <= i < |ts| ==> y in Adj(g, ts[i])
  }

  /** The first of the `lim` best-ranked words that is in `p`, or the blank
      mark when there is none. */
  function FirstIn(k: seq<Token>, p: set<Token>, lim: int): Token {
    if k == [] || lim <= 0 then Blank
    else if k[0] in p then k[0]
    else FirstIn(k[1..], p, lim - 1)
  }

  /** What `check(k, a, l, c)` returns or raises: an occupied neighbour that
      is not a word of the graph fails the lookup of its position; a cell
      without neighbours takes the best remaining word; otherwise the best
      remaining word that is adjacent to all neighbours and not in `a`. */
  function Choose(g: Graph, grid: Grid, n: nat, k: seq<Token>, a: seq<Token>, l: int, c: int): Result<Token>
    requires Square(grid, n) && InGrid(n, (l, c))
  {
    var ts := Occupied(grid, n, l, c);
    if exists i :: 0 <= i < |ts| && ts[i] !in g.nodes then Raise(ValueError)
    else if ts == [] then (if k == [] then Raise(IndexError) else Ok(k[0]))
    else Ok(FirstIn(k, Candidates(g, ts) - Elems(a), Limit))
  }

  // ---------------------------------------------------------------------
  // Lemmas about the choice

  /** `q` lists the elements of `s`, each once. */
  ghost predicate Enumerates(q: seq<Token>, s: set<Token>) {
    NoDup(q) && forall y :: y in q <==> y in s
  }

  /** The choice is the best-ranked candidate: it is in `p` and in `k` within
      the limit, and no candidate is ranked higher. */
  lemma {:induction false} FirstInLeast(k: seq<Token>, p: set<Token>, lim: int, x: Token)
    requires x in p && x in k && FirstIndex(k, x) < lim
    requires forall y :: y in p && y in k ==> FirstIndex(k, x) <= FirstIndex(k, y)
    ensures FirstIn(k, p, lim) == x
  {
    if k[0] != x {
      assert FirstIndex(k, k[0]) == 0;
      forall y | y in p && y in k[1..] ensures FirstIndex(k[1..], x) <= FirstIndex(k[1..], y) {
        assert y != k[0];
      }
      FirstInLeast(k[1..], p, lim - 1, x);
    }
  }

  /** Without a candidate ranked within the limit the choice is blank. */
  lemma {:induction false} FirstInNone(k: seq<Token>, p: set<Token>, lim: int)
    requires forall y :: y in p && y in k ==> FirstIndex(k, y) >= lim
    ensures FirstIn(k, p, lim) == Blank
  {
    if k != [] && lim > 0 {
      assert FirstIndex(k, k[0]) == 0;
      forall y | y in p && y in k[1..] ensures FirstIndex(k[1..], y) >= lim - 1 {
        assert y != k[0];
      }
      FirstInNone(k[1..], p, lim - 1);
    }
  }

  /** A choice that is not blank is a candidate and a ranked word within the
      limit, and no candidate is ranked higher. */
  lemma {:induction false} FirstInMember(k: seq<Token>, p: set<Token>, lim: int)
    ensures FirstIn(k, p, lim) != Blank ==> FirstIn(k, p, lim) in p && FirstIn(k, p, lim) in k
    ensures FirstIn(k, p, lim) != Blank ==> FirstIndex(k, FirstIn(k, p, lim)) < lim
    ensures FirstIn(k, p, lim) != Blank ==>
              forall y :: y in p && y in k ==> FirstIndex(k, FirstIn(k, p, lim)) <= FirstIndex(k, y)
  {
    if k != [] && lim > 0 && k[0] !in p {
      FirstInMember(k[1..], p, lim - 1);
      var t := FirstIn(k, p, lim);
      if t != Blank {
        assert t != k[0];
        forall y | y in p && y in k ensures FirstIndex(k, t) <= FirstIndex(k, y) {
          assert y != k[0];
        }
      }
    }
  }

  /** The number of neighbour lists that hold `y`. */
  function Hits(lists: seq<seq<Token>>, y: Token): (h: nat)
    ensures h <= |lists|
  {
    if lists == [] then 0
    else Hits(lists[..|lists| - 1], y) + (if y in lists[|lists| - 1] then 1 else 0)
  }

  lemma NoDupCount<T>(q: seq<T>, y: T)
    requires NoDup(q)
    ensures multiset(q)[y] == if y in q then 1 else 0
  {
    if q != [] {
      assert q == [q[0]] + q[1..];
      NoDupCount(q[1..], y);
    }
  }

  /** `neigbors.count(y)` over the concatenated lists is the number of lists
      that hold `y`, as each list holds a word at most once. */
  lemma {:induction false} CountHits(lists: seq<seq<Token>>, y: Token)
    requires forall i :: 0 <= i < |lists| ==> NoDup(lists[i])
    ensures multiset(Flatten(lists))[y] == Hits(lists, y)
  {
    if lists != [] {
      var init, last := lists[..|lists| - 1], lists[|lists| - 1];
      CountHits(init, y);
      NoDupCount(last, y);
      assert multiset(Flatten(init) + last) == multiset(Flatten(init)) + multiset(last);
    }
  }

  /** A word is in every list exactly when all lists count it. */
  lemma {:induction false} HitsAll(lists: seq<seq<Token>>, y: Token)
    ensures Hits(lists, y) == |lists| <==> forall i :: 0 <= i < |lists| ==> y in lists[i]
  {
    if lists != [] {
      var init := lists[..|lists| - 1];
      HitsAll(init, y);
      assert forall i :: 0 <= i < |init| ==> init[i] == lists[i];
    }
  }

  // ---------------------------------------------------------------------
  // The steps of `check`

  /** Keeps the words counted `contor` times: the loop over
      `set(neigbors)`, whose order Python leaves open. */
  method Common(neighbors: seq<Token>, contor: nat) returns (possible: seq<Token>)
    ensures Enumerates(possible, set y | y in neighbors && multiset(neighbors)[y] == contor)
  {
    var rest := Elems(neighbors);
    possible := [];
    while rest != {}
      invariant rest <= Elems(neighbors)
      invariant NoDup(possible)
      invariant forall y :: y in possible <==> y in neighbors && y !in rest && multiset(neighbors)[y] == contor
      decreases |rest|
    {
      var node :| node in rest;
      if multiset(neighbors)[node] == contor {
        NoDupConcat(possible, [node]);
        possible := possible + [node];
      }
      rest := rest - {node};
    }
  }

  /** `for node in a: if node in possible_nodes: possible_nodes.remove(node)`. */
  method Discard(possible: seq<Token>, a: seq<Token>) returns (r: seq<Token>)
    requires NoDup(possible)
    ensures r == Without(possible, Elems(a))
  {
    r := possible;
    assert Without(possible, {}) == possible by {
      WithoutNothing(possible);
    }
    var i := 0;
    assert Elems(a[..i]) == {};
    while i < |a|
      invariant i <= |a|
      invariant r == Without(possible, Elems(a[..i]))
    {
      var node := a[i];
      var gone := Elems(a[..i]);
      assert Elems(a[..i + 1]) == gone + {node} by {
        assert a[..i + 1] == a[..i] + [node];
      }
      if node in r {
        RemoveFirstIsWithout(possible, gone, node);
        r := RemoveFirst(r, node);
      } else if node in gone {
        assert gone + {node} == gone;
      } else {
        WithoutAbsent(possible, gone, node);
      }
      i := i + 1;
    }
    assert a[..i] == a;
  }

  lemma {:induction false} WithoutNothing<T(!new)>(s: seq<T>)
    ensures Without(s, {}) == s
  {
    if s != [] {
      WithoutNothing(s[1..]);
    }
  }

  /** The loop that keeps the candidate with the smallest `k.index`. */
  method Best(possible: seq<Token>, k: seq<Token>) returns (tmp: Token)
    ensures tmp == FirstIn(k, Elems(possible), Limit)
  {
    tmp := Blank;
    var min := Limit;
    var j := 0;
    while j < |possible|
      invariant j <= |possible|
      invariant min <= Limit
      invariant min == Limit ==> tmp == Blank
      invariant min < Limit ==> tmp in possible[..j] && tmp in k && FirstIndex(k, tmp) == min
      invariant forall y :: y in possible[..j] && y in k ==> min <= FirstIndex(k, y)
    {
      var node := possible[j];
      assert possible[..j + 1] == possible[..j] + [node];
      if node in k && FirstIndex(k, node) < min {
        min := FirstIndex(k, node);
        tmp := node;
      }
      j := j + 1;
    }
    assert possible[..j] == possible;
    if min < Limit {
      FirstInLeast(k, Elems(possible), Limit, tmp);
    } else {
      FirstInNone(k, Elems(possible), Limit);
    }
  }

  /** The neighbour lists gathered so far: one list per occupied neighbour,
      each listing that word's neighbours in the undirected graph once. */
  ghost predicate Gathered(g: Graph, neighbors: seq<Token>, ts: seq<Token>, lists: seq<seq<Token>>) {
    |lists| == |ts| && neighbors == Flatten(lists) &&
    forall i :: 0 <= i < |ts| ==> ts[i] in g.nodes && Enumerates(lists[i], Adj(g, ts[i]))
  }

  /** With one occupied neighbour the candidates are its neighbours. */
  lemma OneNeighbour(g: Graph, neighbors: seq<Token>, ts: seq<Token>, lists: seq<seq<Token>>)
    requires Gathered(g, neighbors, ts, lists) && |ts| == 1
    ensures Enumerates(neighbors, Candidates(g, ts))
  {
    assert lists == [] + [lists[0]];
    FlattenSnoc([], lists[0]);
    forall y ensures y in Candidates(g, ts) <==> y in Adj(g, ts[0]) {
    }
  }

  /** With several occupied neighbours the words counted once per neighbour
      are the candidates. */
  lemma ManyNeighbours(g: Graph, neighbors: seq<Token>, ts: seq<Token>, lists: seq<seq<Token>>)
    requires Gathered(g, neighbors, ts, lists) && |ts| >= 1
    ensures (set y | y in neighbors && multiset(neighbors)[y] == |ts|) == Candidates(g, ts)
  {
    forall y ensures (y in neighbors && multiset(neighbors)[y] == |ts|) <==> y in Candidates(g, ts) {
      CountHits(lists, y);
      HitsAll(lists, y);
      if y in Candidates(g, ts) {
        assert y in Adj(g, ts[0]);
        assert y in lists[0];
      }
    }
  }

  /** Where the gathering stands: either an occupied neighbour so far is not
      a word of the graph and `ValueError` has been raised, or every one is
      and its neighbour list has been appended. */
  ghost predicate Progress(g: Graph, r: Result<seq<Token>>, contor: nat, ts: seq<Token>, lists: seq<seq<Token>>) {
    (r.Raise? ==> r.error == ValueError && exists i :: 0 <= i < |ts| && ts[i] !in g.nodes) &&
    (r.Ok? ==> contor == |ts| && Gathered(g, r.value, ts, lists))
  }

  /** At the end of the gathering, `ValueError` has been raised exactly when
      some occupied neighbour is not a word of the graph. */
  lemma Settled(g: Graph, r: Result<seq<Token>>, contor: nat, ts: seq<Token>, lists: seq<seq<Token>>)
    requires Progress(g, r, contor, ts, lists)
    ensures r.Raise? <==> exists i :: 0 <= i < |ts| && ts[i] !in g.nodes
  {
  }

  /** A candidate ranked within the limit rules out the blank mark. */
  lemma {:induction false} FirstInFinds(k: seq<Token>, p: set<Token>, lim: int, y: Token)
    requires y in p && y in k && FirstIndex(k, y) < lim && Blank !in p
    ensures FirstIn(k, p, lim) != Blank
  {
    if k[0] !in p {
      assert y != k[0];
      FirstInFinds(k[1..], p, lim - 1, y);
    }
  }

  /** What `check` promises for a cell with occupied neighbours that are all
      words of the graph: the best-ranked remaining word that is adjacent to
      all of them and not in `a`, and the blank mark only when no such word
      is ranked within the limit. */
  lemma ChooseFits(g: Graph, grid: Grid, n: nat, k: seq<Token>, a: seq<Token>, x: Cell)
    requires Square(grid, n) && InGrid(n, x) && Blank !in g.nodes
    requires Occupied(grid, n, x.0, x.1) != []
    requires forall i :: 0 <= i < |Occupied(grid, n, x.0, x.1)| ==> Occupied(grid, n, x.0, x.1)[i] in g.nodes
    ensures Choose(g, grid, n, k, a, x.0, x.1).Ok?
    ensures Choose(g, grid, n, k, a, x.0, x.1).value != Blank ==>
              var t := Choose(g, grid, n, k, a, x.0, x.1).value;
              t in k && t !in a && t in Candidates(g, Occupied(grid, n, x.0, x.1)) && FirstIndex(k, t) < Limit &&
              forall y :: y in k && y !in a && y in Candidates(g, Occupied(grid, n, x.0, x.1)) ==>
                FirstIndex(k, t) <= FirstIndex(k, y)
    ensures Choose(g, grid, n, k, a, x.0, x.1).value == Blank <==>
              forall y :: y in k && y !in a && y in Candidates(g, Occupied(grid, n, x.0, x.1)) ==> FirstIndex(k, y) >= Limit
  {
    var ts := Occupied(grid, n, x.0, x.1);
    var p := Candidates(g, ts) - Elems(a);
    FirstInMember(k, p, Limit);
    if FirstIn(k, p, Limit) == Blank {
      forall y | y in k && y !in a && y in Candidates(g, ts) ensures FirstIndex(k, y) >= Limit {
        if FirstIndex(k, y) < Limit {
          FirstInFinds(k, p, Limit, y);
        }
      }
    } else {
      forall y | y in k && y !in a && y in Candidates(g, ts) ensures FirstIndex(k, FirstIn(k, p, Limit)) <= FirstIndex(k, y) {
        assert y in p;
      }
    }
  }

  // ---------------------------------------------------------------------
  // Filling the grid along the road

  /** Where `create_puzzle` stands after part of the road: the grid, the
      ranked words not yet placed (`keywords`), what `added_keywords` holds,
      and whether an exception has ended the filling. */
  datatype Stage = Stage(grid: Grid, k: seq<Token>, a: seq<Token>, outcome: Outcome)

  /** `added_keywords.extend(name)` adds the characters of the word, each as a
      one-character string, not the word itself. */
  function Letters(t: Token): (r: seq<Token>)
    ensures |r| == |t| && forall i :: 0 <= i < |t| ==> r[i] == [t[i]]
  {
    seq(|t|, i requires 0 <= i < |t| => [t[i]])
  }

  /** A word chosen for a cell is one of the ranked words still available. */
  lemma ChosenIsAvailable(g: Graph, grid: Grid, n: nat, k: seq<Token>, a: seq<Token>, x: Cell)
    requires Square(grid, n) && InGrid(n, x)
    ensures Choose(g, grid, n, k, a, x.0, x.1).Ok? && Choose(g, grid, n, k, a, x.0, x.1).value != Blank ==>
            Choose(g, grid, n, k, a, x.0, x.1).value in k
  {
    var ts := Occupied(grid, n, x.0, x.1);
    FirstInMember(k, Candidates(g, ts) - Elems(a), Limit);
  }

  /** One turn of the loop over the road: `name = self.check(...)`, then, for
      a word, `keywords.remove(name)` and `added_keywords.extend(name)`, then
      `self.puzzle[line][column] = name`. */
  function Step(g: Graph, n: nat, s: Stage, x: Cell): (r: Stage)
    requires Square(s.grid, n) && InGrid(n, x)
    ensures Square(r.grid, n)
  {
    if s.outcome.Raised? then s
    else
      match Choose(g, s.grid, n, s.k, s.a, x.0, x.1)
      case Raise(e) => s.(outcome := Raised(e))
      case Ok(t) =>
        if t == Blank then s.(grid := Place(s.grid, n, x, t))
        else
          ChosenIsAvailable(g, s.grid, n, s.k, s.a, x);
          Stage(Place(s.grid, n, x, t), RemoveFirst(s.k, t), s.a + Letters(t), Completed)
  }

  /** The loop of `create_puzzle` over the cells of `road`, from a blank grid
      and the full ranking. */
  function Lay(g: Graph, n: nat, road: seq<Cell>, ranking: seq<Token>): (r: Stage)
    requires forall i :: 0 <= i < |road| ==> InGrid(n, road[i])
    ensures Square(r.grid, n)
  {
    if road == [] then Stage(BlankGrid(n), ranking, [], Completed)
    else Step(g, n, Lay(g, n, road[..|road| - 1], ranking), road[|road| - 1])
  }

  /** The words on the grid. */
  ghost function Placed(grid: Grid, n: nat): set<Token>
    requires Square(grid, n)
  {
    set i, j | 0 <= i < n && 0 <= j < n && grid[i][j] != Blank :: grid[i][j]
  }

  /** What holds of the grid after every turn of the loop: cells off the road
      so far are blank; every word on the grid is a ranked word and stands
      in one cell only; `keywords` is the ranking without the placed words;
      and the only exception is the `IndexError` of `k[0]` once every ranked
      word has been placed. */
  ghost predicate Laid(n: nat, road: seq<Cell>, ranking: seq<Token>, s: Stage) {
    Square(s.grid, n) &&
    (forall x :: InGrid(n, x) && x !in road ==> At(s.grid, n, x) == Blank) &&
    (forall x :: InGrid(n, x) && At(s.grid, n, x) != Blank ==> At(s.grid, n, x) in ranking) &&
    Distinct(s.grid, n) &&
    s.k == Without(ranking, Placed(s.grid, n)) &&
    (s.outcome.Raised? ==> s.outcome.error == IndexError && s.k == [])
  }

  /** A word is placed exactly when some cell holds it. */
  lemma PlacedAt(grid: Grid, n: nat, w: Token)
    requires Square(grid, n)
    ensures w in Placed(grid, n) <==> w != Blank && exists x :: InGrid(n, x) && At(grid, n, x) == w
  {
    if w != Blank && exists x :: InGrid(n, x) && At(grid, n, x) == w {
      var x :| InGrid(n, x) && At(grid, n, x) == w;
      assert grid[x.0][x.1] == w;
    }
    if w in Placed(grid, n) {
      var i, j :| 0 <= i < n && 0 <= j < n && grid[i][j] != Blank && grid[i][j] == w;
      assert At(grid, n, (i, j)) == w;
    }
  }

  /** Writing a word into a blank cell adds it to the placed words. */
  lemma PlaceAdds(grid: Grid, n: nat, x: Cell, t: Token)
    requires Square(grid, n) && InGrid(n, x) && At(grid, n, x) == Blank && t != Blank
    ensures Placed(Place(grid, n, x, t), n) == Placed(grid, n) + {t}
  {
    var after := Place(grid, n, x, t);
    forall w ensures w in Placed(after, n) <==> w in Placed(grid, n) + {t} {
      PlacedAt(after, n, w);
      PlacedAt(grid, n, w);
      if w in Placed(grid, n) {
        var y :| InGrid(n, y) && At(grid, n, y) == w;
        assert y != x;
      }
    }
  }

  /** Writing the blank mark into a blank cell changes nothing. */
  lemma PlaceBlank(grid: Grid, n: nat, x: Cell)
    requires Square(grid, n) && InGrid(n, x) && At(grid, n, x) == Blank
    ensures Place(grid, n, x, Blank) == grid
  {
    assert grid[x.0][x.1 := Blank] == grid[x.0];
  }

  /** Every occupied neighbour holds a ranked word, hence a node. */
  lemma NoLookupFails(g: Graph, n: nat, road: seq<Cell>, ranking: seq<Token>, s: Stage, x: Cell)
    requires Laid(n, road, ranking, s) && IsRanking(ranking, g) && InGrid(n, x)
    ensures forall i :: 0 <= i < |Occupied(s.grid, n, x.0, x.1)| ==> Occupied(s.grid, n, x.0, x.1)[i] in g.nodes
  {
  }

  /** One turn keeps the invariant, provided the cell is new to the road. */
  lemma StepLaid(g: Graph, n: nat, road: seq<Cell>, ranking: seq<Token>, s: Stage, x: Cell)
    requires Laid(n, road, ranking, s) && IsRanking(ranking, g)
    requires InGrid(n, x) && x !in road
    ensures Laid(n, road + [x], ranking, Step(g, n, s, x))
  {
    if s.outcome.Completed? {
      NoLookupFails(g, n, road, ranking, s, x);
      var choice := Choose(g, s.grid, n, s.k, s.a, x.0, x.1);
      assert choice.Raise? ==> choice.error == IndexError && s.k == [];
      if choice.Ok? {
        var t := choice.value;
        if t == Blank {
          PlaceBlank(s.grid, n, x);
        } else {
          ChosenIsAvailable(g, s.grid, n, s.k, s.a, x);
          var after := Place(s.grid, n, x, t);
          PlaceAdds(s.grid, n, x, t);
          PlacedAt(s.grid, n, t);
          RemoveFirstIsWithout(ranking, Placed(s.grid, n), t);
          forall y | InGrid(n, y) && y != x
            ensures At(after, n, y) != Blank ==> At(after, n, y) != t
          {
          }
        }
      }
    }
  }

  /** The invariant holds along any road of distinct cells. */
  lemma {:induction false} LayLaid(g: Graph, n: nat, road: seq<Cell>, ranking: seq<Token>)
    requires forall i :: 0 <= i < |road| ==> InGrid(n, road[i])
    requires NoDup(road) && IsRanking(ranking, g)
    ensures Laid(n, road, ranking, Lay(g, n, road, ranking))
  {
    if road == [] {
      WithoutNothing(ranking);
      assert Placed(BlankGrid(n), n) == {};
    } else {
      var init, x := road[..|road| - 1], road[|road| - 1];
      assert road == init + [x];
      LayLaid(g, n, init, ranking);
      StepLaid(g, n, init, ranking, Lay(g, n, init, ranking), x);
    }
  }

  /** The road up to cell `i` is laid by one more step. */
  lemma LayStep(g: Graph, n: nat, road: seq<Cell>, ranking: seq<Token>, i: nat)
    requires forall j :: 0 <= j < |road| ==> InGrid(n, road[j])
    requires i < |road|
    ensures Lay(g, n, road[..i + 1], ranking) == Step(g, n, Lay(g, n, road[..i], ranking), road[i])
  {
    assert road[..i + 1][..i] == road[..i];
  }

  /** Once an exception is raised the rest of the road is not visited. */
  lemma {:induction false} LayStops(g: Graph, n: nat, road: seq<Cell>, ranking: seq<Token>, i: nat)
    requires forall j :: 0 <= j < |road| ==> InGrid(n, road[j])
    requires i <= |road| && Lay(g, n, road[..i], ranking).outcome.Raised?
    ensures Lay(g, n, road, ranking) == Lay(g, n, road[..i], ranking)
    decreases |road| - i
  {
    if i < |road| {
      assert road[..i + 1][..i] == road[..i];
      LayStops(g, n, road, ranking, i + 1);
    } else {
      assert road[..i] == road;
    }
  }

  /** The finished grid: only cells of the road hold words, every word is a
      node of the graph and stands in one cell only, and `k[0]` fails only
      once every node has been placed. */
  lemma PuzzleFacts(g: Graph, n: nat, road: seq<Cell>, ranking: seq<Token>)
    requires forall i :: 0 <= i < |road| ==> InGrid(n, road[i])
    requires NoDup(road) && IsRanking(ranking, g)
    ensures forall x :: InGrid(n, x) && x !in road ==> At(Lay(g, n, road, ranking).grid, n, x) == Blank
    ensures forall x :: InGrid(n, x) && At(Lay(g, n, road, ranking).grid, n, x) != Blank ==>
              At(Lay(g, n, road, ranking).grid, n, x) in g.nodes
    ensures forall x, y :: InGrid(n, x) && InGrid(n, y) && x != y && At(Lay(g, n, road, ranking).grid, n, x) != Blank ==>
              At(Lay(g, n, road, ranking).grid, n, x) != At(Lay(g, n, road, ranking).grid, n, y)
    ensures Lay(g, n, road, ranking).outcome.Raised? ==>
              Lay(g, n, road, ranking).outcome.error == IndexError &&
              forall w :: w in g.nodes ==> w in Placed(Lay(g, n, road, ranking).grid, n)
  {
    LayLaid(g, n, road, ranking);
  }

  /** A puzzle laid from a ranking of a graph that does not hold the
      empty-cell mark as a word is one the writer can list: square, no word
      twice, and no edge touching the mark. */
  lemma ReadyToWrite(g: Graph, n: nat, road: seq<Cell>, ranking: seq<Token>)
    requires forall i :: 0 <= i < |road| ==> InGrid(n, road[i])
    requires NoDup(road) && IsRanking(ranking, g) && WordGraph.Valid(g) && Blank !in g.nodes
    ensures Square(Lay(g, n, road, ranking).grid, n)
    ensures Distinct(Lay(g, n, road, ranking).grid, n)
    ensures NoBlankEdge(g.edges)
  {
    PuzzleFacts(g, n, road, ranking);
  }

  /** On the Python-3 road the cells of the left columns that the walk
      misses stay blank in the django puzzle. */
  lemma SkippedStayBlank(g: Graph, n: nat, ranking: seq<Token>)
    requires IsRanking(ranking, g)
    ensures forall i :: 0 <= i < |Reverse(ForwardPy3(n))| ==> InGrid(n, Reverse(ForwardPy3(n))[i])
    ensures forall x :: InGrid(n, x) && Skipped(x, n) ==> At(Lay(g, n, Reverse(ForwardPy3(n)), ranking).grid, n, x) == Blank
  {
    RoadPy3Cells(n);
    PuzzleFacts(g, n, Reverse(ForwardPy3(n)), ranking);
  }

  /** The first cell of the road takes the best-ranked word, and keeps it. */
  lemma {:induction false} LayFirst(g: Graph, n: nat, road: seq<Cell>, ranking: seq<Token>)
    requires forall i :: 0 <= i < |road| ==> InGrid(n, road[i])
    requires NoDup(road) && road != [] && ranking != []
    ensures At(Lay(g, n, road, ranking).grid, n, road[0]) == ranking[0]
  {
    var init := road[..|road| - 1];
    if init == [] {
      assert Occupied(BlankGrid(n), n, road[0].0, road[0].1) == [];
    } else {
      assert NoDup(init);
      LayFirst(g, n, init, ranking);
      assert road[|road| - 1] != road[0];
    }
  }

  /** `sorted(page, key=page.get, reverse=True)` for the graph. */
  function Ranked(rank: Graph -> seq<Token>, g: Graph): seq<Token> {
    rank(g)
  }

  /** `for i in tmp_vector: list_of_words.extend(i)`. */
  method Join(paragraphs: seq<seq<Token>>) returns (words: seq<Token>)
    ensures words == Flatten(paragraphs)
  {
    words := [];
    var i := 0;
    while i < |paragraphs|
      invariant i <= |paragraphs|
      invariant words == Flatten(paragraphs[..i])
    {
      FlattenSnoc(paragraphs[..i], paragraphs[i]);
      assert paragraphs[..i + 1] == paragraphs[..i] + [paragraphs[i]];
      words := words + paragraphs[i];
      i := i + 1;
    }
    assert paragraphs[..i] == paragraphs;
  }

  class PuzzleOfKnowledge {
    var name: string
    var lectureTitle: Option<string>
    var dimension: nat
    var graph: Graph
    var puzzle: Grid

    /** `PuzzleOfKnowledge(name, path, puzzle_dimension, title)`; the grid only
        comes into being in `create_puzzle`, and stands empty until then. */
    constructor (name: string, dimension: nat, title: Option<string>)
      ensures this.name == name && this.dimension == dimension && lectureTitle == title
      ensures graph == Empty && puzzle == []
    {
      this.name := name;
      this.dimension := dimension;
      lectureTitle := title;
      graph := Empty;
      puzzle := [];
    }

    /** `graph.adjacency_list()[graph.nodes().index(t)]` on the undirected
        copy of the graph: the neighbours of `t` in the order networkx keeps
        them, which the model leaves open. */
    method AdjacencyList(t: Token) returns (r: Result<seq<Token>>)
      ensures r.Raise? <==> t !in graph.nodes
      ensures r.Raise? ==> r.error == ValueError
      ensures r.Ok? ==> Enumerates(r.value, Adj(graph, t))
    {
      if t !in graph.nodes {
        return Raise(ValueError);
      }
      var rest := Adj(graph, t);
      var q := [];
      while rest != {}
        invariant rest <= Adj(graph, t)
        invariant NoDup(q)
        invariant forall y :: y in q <==> y in Adj(graph, t) && y !in rest
        decreases |rest|
      {
        var y :| y in rest;
        NoDupConcat(q, [y]);
        q := q + [y];
        rest := rest - {y};
      }
      return Ok(q);
    }

    /** One `neigbors.extend(...)` with `contor += 1`; an exception raised
        by an earlier extension has already ended the gathering. */
    method Extend(t: Token, r: Result<seq<Token>>, contor: nat, ghost ts: seq<Token>, ghost lists: seq<seq<Token>>)
      returns (r': Result<seq<Token>>, contor': nat, ghost ts': seq<Token>, ghost lists': seq<seq<Token>>)
      requires Progress(graph, r, contor, ts, lists)
      ensures ts' == ts + [t]
      ensures Progress(graph, r', contor', ts', lists')
    {
      if r.Raise? {
        ghost var i :| 0 <= i < |ts| && ts[i] !in graph.nodes;
        assert (ts + [t])[i] == ts[i];
        return r, contor, ts + [t], lists;
      }
      var adj := AdjacencyList(t);
      if adj.Raise? {
        assert (ts + [t])[|ts|] == t;
        return Raise(ValueError), contor, ts + [t], lists;
      }
      FlattenSnoc(lists, adj.value);
      return Ok(r.value + adj.value), contor + 1, ts + [t], lists + [adj.value];
    }

    /** The first part of `check`: the neighbour lists of the occupied cells
        east, west, north and south. */
    method Neighbours(l: int, c: int) returns (r: Result<seq<Token>>, contor: nat, ghost lists: seq<seq<Token>>)
      requires Square(puzzle, dimension) && InGrid(dimension, (l, c))
      ensures r.Raise? <==> exists i :: 0 <= i < |Occupied(puzzle, dimension, l, c)| &&
                                       Occupied(puzzle, dimension, l, c)[i] !in graph.nodes
      ensures r.Raise? ==> r.error == ValueError
      ensures r.Ok? ==> contor == |Occupied(puzzle, dimension, l, c)| &&
                        Gathered(graph, r.value, Occupied(puzzle, dimension, l, c), lists)
    {
      r, contor, lists := Ok([]), 0, [];
      ghost var ts: seq<Token> := [];
      r, contor, ts, lists := Visit((l, c + 1), r, contor, ts, lists);
      r, contor, ts, lists := Visit((l, c - 1), r, contor, ts, lists);
      r, contor, ts, lists := Visit((l - 1, c), r, contor, ts, lists);
      r, contor, ts, lists := Visit((l + 1, c), r, contor, ts, lists);
      assert ts == Occupied(puzzle, dimension, l, c);
      Settled(graph, r, contor, ts, lists);
    }

    /** One of the four tests of `check`: `c < N - 1 and puzzle[l][c + 1] !=
        "*"` and its like say that the neighbouring cell is on the grid and
        holds a word. */
    method Visit(x: Cell, r: Result<seq<Token>>, contor: nat, ghost ts: seq<Token>, ghost lists: seq<seq<Token>>)
      returns (r': Result<seq<Token>>, contor': nat, ghost ts': seq<Token>, ghost lists': seq<seq<Token>>)
      requires Square(puzzle, dimension) && Progress(graph, r, contor, ts, lists)
      ensures ts' == ts + Filled(puzzle, dimension, x)
      ensures Progress(graph, r', contor', ts', lists')
    {
      if 0 <= x.0 < dimension && 0 <= x.1 < dimension && puzzle[x.0][x.1] != Blank {
        r', contor', ts', lists' := Extend(puzzle[x.0][x.1], r, contor, ts, lists);
      } else {
        r', contor', ts', lists' := r, contor, ts, lists;
        assert ts + [] == ts;
      }
    }

    /** `check(k, a, l, c)`: the word for cell `(l, c)` given the ranked
        words `k` still available and the entries `a` to keep out. */
    method Check(k: seq<Token>, a: seq<Token>, l: int, c: int) returns (r: Result<Token>)
      requires Square(puzzle, dimension) && InGrid(dimension, (l, c))
      ensures r == Choose(graph, puzzle, dimension, k, a, l, c)
    {
      ghost var ts := Occupied(puzzle, dimension, l, c);
      var found, contor, lists := Neighbours(l, c);
      if found.Raise? {
        return Raise(ValueError);
      }
      var neighbors := found.value;
      var possible: seq<Token>;
      if contor == 0 {
        if k == [] {
          return Raise(IndexError);
        }
        return Ok(k[0]);
      } else if contor == 1 {
        possible := neighbors;
        OneNeighbour(graph, neighbors, ts, lists);
      } else {
        possible := Common(neighbors, contor);
        ManyNeighbours(graph, neighbors, ts, lists);
      }
      ghost var candidates := Candidates(graph, ts);
      assert Enumerates(possible, candidates);
      possible := Discard(possible, a);
      assert Elems(possible) == candidates - Elems(a);
      if possible == [] {
        FirstInNone(k, candidates - Elems(a), Limit);
        return Ok(Blank);
      }
      var best := Best(possible, k);
      return Ok(best);
    }

    /** One turn of the loop of `create_puzzle`: the word `check` finds for
        the cell, if any, leaves the available words for the added entries
        and is placed on the grid. */
    method FillCell(x: Cell, keywords: seq<Token>, added: seq<Token>)
      returns (keywords': seq<Token>, added': seq<Token>, outcome: Outcome)
      modifies this
      requires Square(puzzle, dimension) && InGrid(dimension, x)
      ensures name == old(name) && lectureTitle == old(lectureTitle) && dimension == old(dimension)
      ensures graph == old(graph)
      ensures Stage(puzzle, keywords', added', outcome) == Step(graph, dimension, Stage(old(puzzle), keywords, added, Completed), x)
    {
      var choice := Check(keywords, added, x.0, x.1);
      if choice.Raise? {
        return keywords, added, Raised(choice.error);
      }
      var t := choice.value;
      keywords', added' := keywords, added;
      if t != Blank {
        ChosenIsAvailable(graph, puzzle, dimension, keywords, added, x);
        keywords' := RemoveFirst(keywords, t);
        added' := added + Letters(t);
      }
      puzzle := Place(puzzle, dimension, x, t);
      outcome := Completed;
    }

    /** The loop of `create_puzzle` over the road, from a blank grid. */
    method Fill(road: seq<Cell>, ranking: seq<Token>) returns (outcome: Outcome)
      modifies this
      requires puzzle == BlankGrid(dimension)
      requires forall i :: 0 <= i < |road| ==> InGrid(dimension, road[i])
      ensures name == old(name) && lectureTitle == old(lectureTitle) && dimension == old(dimension)
      ensures graph == old(graph)
      ensures puzzle == Lay(graph, dimension, road, ranking).grid
      ensures outcome == Lay(graph, dimension, road, ranking).outcome
    {
      var keywords := ranking;
      var added: seq<Token> := [];
      outcome := Completed;
      var i := 0;
      while i < |road|
        invariant i <= |road|
        invariant name == old(name) && lectureTitle == old(lectureTitle) && dimension == old(dimension)
        invariant graph == old(graph)
        invariant outcome == Completed
        invariant Lay(graph, dimension, road[..i], ranking) == Stage(puzzle, keywords, added, outcome)
      {
        keywords, added, outcome := FillCell(road[i], keywords, added);
        LayStep(graph, dimension, road, ranking, i);
        if outcome.Raised? {
          LayStops(graph, dimension, road, ranking, i + 1);
          return;
        }
        i := i + 1;
      }
      assert road[..i] == road;
    }

    /** The django `create_puzzle`: the paragraphs and the title come from the
        language pipeline, the words of all paragraphs are added to the graph,
        and the grid is filled along the Python-3 snail road with the words
        in ranking order. */
    method CreatePuzzle(paragraphs: seq<seq<Token>>, title: string, rank: Graph -> seq<Token>) returns (outcome: Outcome)
      modifies this
      requires WordGraph.Valid(graph)
      ensures name == old(name) && dimension == old(dimension) && lectureTitle == Some(title)
      ensures graph == BuildGraph(old(graph), Flatten(paragraphs))
      ensures forall i :: 0 <= i < |Reverse(ForwardPy3(dimension))| ==> InGrid(dimension, Reverse(ForwardPy3(dimension))[i])
      ensures puzzle == Lay(graph, dimension, Reverse(ForwardPy3(dimension)), Ranked(rank, graph)).grid
      ensures outcome == Lay(graph, dimension, Reverse(ForwardPy3(dimension)), Ranked(rank, graph)).outcome
    {
      puzzle := BlankGrid(dimension);
      lectureTitle := Some(title);
      var words := Join(paragraphs);
      graph := TextToGraph(graph, words);
      var road := SnailRoadPy3(dimension);
      RoadPy3Cells(dimension);
      outcome := Fill(road, rank(graph));
    }

    /** The site `create_puzzle`: as the django one, without a title and on
        the Python-2 snail road. */
    method CreatePuzzleSite(paragraphs: seq<seq<Token>>, rank: Graph -> seq<Token>) returns (outcome: Outcome)
      modifies this
      requires WordGraph.Valid(graph)
      ensures name == old(name) && dimension == old(dimension) && lectureTitle == old(lectureTitle)
      ensures graph == BuildGraph(old(graph), Flatten(paragraphs))
      ensures forall i :: 0 <= i < |Reverse(ForwardPy2(dimension))| ==> InGrid(dimension, Reverse(ForwardPy2(dimension))[i])
      ensures puzzle == Lay(graph, dimension, Reverse(ForwardPy2(dimension)), Ranked(rank, graph)).grid
      ensures outcome == Lay(graph, dimension, Reverse(ForwardPy2(dimension)), Ranked(rank, graph)).outcome
    {
      puzzle := BlankGrid(dimension);
      var words := Join(paragraphs);
      graph := TextToGraph(graph, words);
      var road := SnailRoadPy2(dimension);
      RoadPy2Cells(dimension);
      outcome := Fill(road, rank(graph));
    }

    /** The rows `write_to_file` writes after its header: the pieces row by
        row, each as its word, `#`, its four tags each followed by `#`, and
        a space, and a newline after each row. On the way the reverse of
        every edge that held in both directions between a piece and its
        south or east neighbour is removed from the graph. */
    method WritePieces(quote: bool) returns (text: string)
      modifies this
      requires Square(puzzle, dimension) && Distinct(puzzle, dimension) && NoBlankEdge(graph.edges)
      ensures name == old(name) && lectureTitle == old(lectureTitle) && dimension == old(dimension)
      ensures puzzle == old(puzzle)
      ensures text == Rows(old(graph.edges), puzzle, dimension, quote, dimension)
      ensures graph == Graph(old(graph.nodes), Remaining(old(graph.edges), puzzle, dimension))
    {
      text, graph := WriteRows(graph, puzzle, dimension, quote);
    }

    /** The django `write_to_file`: appends the title, `-`, the dimension
        and `:` on a line of their own, then the rows with every word written
        as its bytes literal. A puzzle without a title raises `TypeError`
        once the file is opened, having written nothing. */
    method WriteDjango(fs: FileSystem, path: string) returns (r: FileSystem, outcome: Outcome)
      modifies this
      requires Square(puzzle, dimension) && Distinct(puzzle, dimension) && NoBlankEdge(graph.edges)
      ensures name == old(name) && lectureTitle == old(lectureTitle) && dimension == old(dimension)
      ensures puzzle == old(puzzle)
      ensures lectureTitle == None ==> outcome == Raised(TypeError) && r == Append(fs, path, "") && graph == old(graph)
      ensures lectureTitle != None ==> outcome == Completed
      ensures lectureTitle != None ==>
                r == Append(fs, path, lectureTitle.value + "-" + NatToString(dimension) + ":\n" +
                                      Rows(old(graph.edges), puzzle, dimension, true, dimension))
      ensures lectureTitle != None ==> graph == Graph(old(graph.nodes), Remaining(old(graph.edges), puzzle, dimension))
    {
      if lectureTitle == None {
        return Append(fs, path, ""), Raised(TypeError);
      }
      var header := lectureTitle.value + "-" + NatToString(dimension) + ":\n";
      var text := WritePieces(true);
      r := Append(fs, path, header + text);
      outcome := Completed;
    }

    /** The site `write_to_file`: appends the dimension on a line of its own,
        then the rows with every word written as it is. */
    method WriteSite(fs: FileSystem, path: string) returns (r: FileSystem)
      modifies this
      requires Square(puzzle, dimension) && Distinct(puzzle, dimension) && NoBlankEdge(graph.edges)
      ensures name == old(name) && lectureTitle == old(lectureTitle) && dimension == old(dimension)
      ensures puzzle == old(puzzle)
      ensures r == Append(fs, path, NatToString(dimension) + "\n" + Rows(old(graph.edges), puzzle, dimension, false, dimension))
      ensures graph == Graph(old(graph.nodes), Remaining(old(graph.edges), puzzle, dimension))
    {
      var text := WritePieces(false);
      r := Append(fs, path, NatToString(dimension) + "\n" + text);
    }
  }
}
