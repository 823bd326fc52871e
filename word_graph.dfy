/** The word-adjacency graph of `Lecture.text_to_graph` and the ranking that
    stands in for `nx.pagerank` followed by a descending sort.

    A networkx `DiGraph` is modelled by its node set and its edge set. Every
    edge is added with `weight=1`, re-assigned on each add, so no weight is
    ever counted and the edge set carries all the information. */
module WordGraph {
  import opened Lists

  type Token = string
  type Edge = (Token, Token)

  datatype Graph = Graph(nodes: set<Token>, edges: set<Edge>)

  /** `nx.DiGraph()`. */
  const Empty: Graph := Graph({}, {})

  /** The sentence-terminator token that is pruned after every build. */
  const FullStop: Token := "."

  /** A networkx graph never holds an edge whose ends are not nodes. */
  ghost predicate Valid(g: Graph) {
    forall e :: e in g.edges ==> e.0 in g.nodes && e.1 in g.nodes
  }

  function Elems(ws: seq<Token>): set<Token> {
    set w | w in ws
  }

  /** The pair of the word before position `i` and the word at `i`. */
  function Link(ws: seq<Token>, i: int): Edge
    requires 1 <= i < |ws|
  {
    (ws[i - 1], ws[i])
  }

  /** The ordered pairs of consecutive tokens. */
  function Pairs(ws: seq<Token>): set<Edge> {
    set i | 1 <= i < |ws| :: Link(ws, i)
  }

  /** The graph `text_to_graph(ws)` leaves when it starts from `g`: the words
      become nodes, consecutive words become edges, and then the full stop and
      every edge touching it are gone; an empty list changes nothing. */
  function BuildGraph(g: Graph, ws: seq<Token>): Graph {
    if ws == [] then g
    else
      Graph((g.nodes + Elems(ws)) - {FullStop},
            set e | e in g.edges + Pairs(ws) && e.0 != FullStop && e.1 != FullStop)
  }

  function AddNode(g: Graph, w: Token): (r: Graph)
    ensures r.nodes == g.nodes + {w} && r.edges == g.edges
  {
    Graph(g.nodes + {w}, g.edges)
  }

  /** `add_edge(u, v, weight=1)`: adds both ends as nodes too. */
  function AddEdge(g: Graph, u: Token, v: Token): (r: Graph)
    ensures r.nodes == g.nodes + {u, v} && r.edges == g.edges + {(u, v)}
  {
    Graph(g.nodes + {u, v}, g.edges + {(u, v)})
  }

  /** `remove_node(w)`: the node and every edge that touches it. */
  function RemoveNode(g: Graph, w: Token): (r: Graph)
    ensures r.nodes == g.nodes - {w}
    ensures forall e :: e in r.edges <==> e in g.edges && e.0 != w && e.1 != w
  {
    Graph(g.nodes - {w}, set e | e in g.edges && e.0 != w && e.1 != w)
  }

  /** `remove_edge(u, v)`. */
  function RemoveEdge(g: Graph, u: Token, v: Token): (r: Graph)
    ensures r.nodes == g.nodes && r.edges == g.edges - {(u, v)}
  {
    Graph(g.nodes, g.edges - {(u, v)})
  }

  /** `Lecture.text_to_graph`: adds the words to the graph one by one. */
  method TextToGraph(g: Graph, words: seq<Token>) returns (r: Graph)
    requires Valid(g)
    ensures Valid(r)
    ensures words == [] ==> r == g
    ensures words != [] ==> r.nodes == (g.nodes + Elems(words)) - {FullStop}
    ensures words != [] ==> forall u, v :: (u, v) in r.edges <==>
              ((u, v) in g.edges || (u, v) in Pairs(words)) && u != FullStop && v != FullStop
    ensures r == BuildGraph(g, words)
  {
    r := g;
    if words != [] {
      r := AddNode(r, words[0]);
      var i := 1;
      while i < |words|
        invariant 1 <= i <= |words|
        invariant r.nodes == g.nodes + Elems(words[..i])
        invariant r.edges == g.edges + Pairs(words[..i])
      {
        PairsSnoc(words, i);
        assert Elems(words[..i + 1]) == Elems(words[..i]) + {words[i]} by {
          assert words[..i + 1] == words[..i] + [words[i]];
        }
        r := AddNode(r, words[i]);
        r := AddEdge(r, words[i - 1], words[i]);
        i := i + 1;
      }
      assert words[..i] == words;
      if FullStop in r.nodes {
        r := RemoveNode(r, FullStop);
      }
      ElemsPairs(words);
    }
  }

  /** Building keeps a networkx graph one: every edge joins two nodes. */
  lemma BuildGraphValid(g: Graph, ws: seq<Token>)
    requires Valid(g)
    ensures Valid(BuildGraph(g, ws))
  {
    ElemsPairs(ws);
  }

  lemma PairsSnoc(ws: seq<Token>, i: nat)
    requires 1 <= i < |ws|
    ensures Pairs(ws[..i + 1]) == Pairs(ws[..i]) + {(ws[i - 1], ws[i])}
  {
    var a, b := ws[..i + 1], ws[..i];
    forall e | e in Pairs(a) ensures e in Pairs(b) + {(ws[i - 1], ws[i])} {
      var k :| 1 <= k < |a| && e == Link(a, k);
      if k < i { assert e == Link(b, k); }
    }
    forall e | e in Pairs(b) ensures e in Pairs(a) {
      var k :| 1 <= k < |b| && e == Link(b, k);
      assert e == Link(a, k);
    }
    assert (ws[i - 1], ws[i]) == Link(a, i);
  }

  /** The ends of every consecutive pair are words of the list. */
  lemma ElemsPairs(ws: seq<Token>)
    ensures forall e :: e in Pairs(ws) ==> e.0 in Elems(ws) && e.1 in Elems(ws)
  {
    forall e | e in Pairs(ws) ensures e.0 in Elems(ws) && e.1 in Elems(ws) {
      var k :| 1 <= k < |ws| && e == Link(ws, k);
      assert ws[k - 1] in ws && ws[k] in ws;
    }
  }

  // ---------------------------------------------------------------------
  // Ranking

  /** `sorted(pagerank(g), key=..., reverse=True)` is some ordering of the
      graph's nodes with every node exactly once. */
  ghost predicate IsRanking(r: seq<Token>, g: Graph) {
    NoDup(r) && forall w :: w in r <==> w in g.nodes
  }

  /** The ranking procedure is a total function on graphs that always yields
      an ordering of the nodes; its scores are not modelled. */
  ghost predicate RankOracle(rank: Graph -> seq<Token>) {
    forall g :: IsRanking(rank(g), g)
  }

  /** The keywords kept from a ranking, `sorted(...)[:d]`, are distinct nodes
      of the graph, and there are `min(d, #nodes)` of them. */
  lemma {:induction false} KeywordsOfRanking(r: seq<Token>, g: Graph, d: int)
    requires IsRanking(r, g)
    ensures NoDup(Head(r, d))
    ensures forall w :: w in Head(r, d) ==> w in g.nodes
    ensures 0 <= d ==> |Head(r, d)| == if d < |g.nodes| then d else |g.nodes|
  {
    HeadNoDup(r, d);
    NoDupCardinality(r);
    assert (set w | w in r) == g.nodes;
  }

  // ---------------------------------------------------------------------
  // Paragraph and lecture graphs

  /** Every edge of a paragraph's own graph is an edge of the lecture graph
      built over all paragraphs concatenated, and so is every node. */
  lemma {:induction false} ParagraphGraphWithinLecture(ps: seq<seq<Token>>, i: nat)
    requires i < |ps|
    ensures BuildGraph(Empty, ps[i]).nodes <= BuildGraph(Empty, Flatten(ps)).nodes
    ensures BuildGraph(Empty, ps[i]).edges <= BuildGraph(Empty, Flatten(ps)).edges
  {
    var pre, post := Flatten(ps[..i]), Flatten(ps[i + 1..]);
    FlattenAround(ps, i);
    var all := Flatten(ps);
    assert all == pre + ps[i] + post;
    forall w | w in ps[i] ensures w in all {
      var k :| 0 <= k < |ps[i]| && ps[i][k] == w;
      assert all[|pre| + k] == w;
    }
    forall e | e in Pairs(ps[i]) ensures e in Pairs(all) {
      var k :| 1 <= k < |ps[i]| && e == Link(ps[i], k);
      assert e == Link(all, |pre| + k);
    }
    if ps[i] != [] {
      assert all != [];
    }
  }

  /** The lecture graph links each paragraph's last word to the next
      paragraph's first word, unless one of them is the full stop. */
  lemma {:induction false} LectureGraphBridgesParagraphs(ps: seq<seq<Token>>, i: nat)
    requires i + 1 < |ps| && ps[i] != [] && ps[i + 1] != []
    requires ps[i][|ps[i]| - 1] != FullStop && ps[i + 1][0] != FullStop
    ensures (ps[i][|ps[i]| - 1], ps[i + 1][0]) in BuildGraph(Empty, Flatten(ps)).edges
  {
    var pre := Flatten(ps[..i]);
    FlattenAround(ps, i);
    FlattenAround(ps, i + 1);
    var all := Flatten(ps);
    assert Flatten(ps[..i + 1]) == pre + ps[i] by {
      assert ps[..i + 1] == ps[..i] + [ps[i]];
      FlattenSnoc(ps[..i], ps[i]);
    }
    var k := |pre| + |ps[i]|;
    assert all[k - 1] == ps[i][|ps[i]| - 1];
    assert all[k] == ps[i + 1][0];
    assert Link(all, k) in Pairs(all);
  }
}
