/**
 * The undirected graph that `MetaPathGenerator` keeps in `self.G` (a networkx `Graph`):
 * nodes in insertion order, each with its neighbours in insertion order. A node is a
 * string `"<T>_<id>"` whose first character is its type: `Q` (question), `R` (asker)
 * or `A` (answerer).
 */
module Graph {

  datatype Graph = Graph(nodes: seq<string>, adj: map<string, seq<string>>)

  const EMPTY: Graph := Graph([], map[])

  predicate Distinct<T(==)>(s: seq<T>)
  {
    forall i, j :: 0 <= i < j < |s| ==> s[i] != s[j]
  }

  /** Nodes are listed once each, and exactly the listed nodes have adjacency lists. */
  ghost predicate NodesListed(g: Graph)
  {
    Distinct(g.nodes) && forall u :: u in g.adj <==> u in g.nodes
  }

  /** Neighbour lists have no repeats, and every node has a neighbour (nodes only enter through edges). */
  ghost predicate NeighboursListed(g: Graph)
  {
    forall u | u in g.adj :: Distinct(g.adj[u]) && |g.adj[u]| > 0
  }

  /** Adjacency is symmetric and only relates nodes of the graph. */
  ghost predicate Symmetric(g: Graph)
  {
    forall u, v | Adjacent(g, u, v) :: Adjacent(g, v, u)
  }

  /** The graph invariant. */
  ghost predicate Valid(g: Graph)
  {
    NodesListed(g) && NeighboursListed(g) && Symmetric(g)
  }

  predicate Adjacent(g: Graph, u: string, v: string)
  {
    u in g.adj && v in g.adj[u]
  }

  /** networkx's `add_node` step of `add_edge`: a new node enters with no neighbours. */
  function AddNode(g: Graph, u: string): (r: Graph)
    ensures r.adj.Keys == g.adj.Keys + {u}
    ensures forall x :: x in g.adj ==> r.adj[x] == g.adj[x]
  {
    if u in g.adj then g else Graph(g.nodes + [u], g.adj[u := []])
  }

  /** `adj[u][v] = ...`: appends `v` to the neighbours of `u` unless it is already there. */
  function Link(g: Graph, u: string, v: string): (r: Graph)
    requires u in g.adj
    ensures r.nodes == g.nodes && r.adj.Keys == g.adj.Keys
    ensures forall x :: x in g.adj && x != u ==> r.adj[x] == g.adj[x]
    ensures forall y :: y in r.adj[u] <==> y in g.adj[u] || y == v
    ensures Distinct(g.adj[u]) ==> Distinct(r.adj[u])
  {
    if v in g.adj[u] then g else g.(adj := g.adj[u := g.adj[u] + [v]])
  }

  /** The three steps of networkx's `add_edge(u, v)`: add `u`, add `v`, link both ways. */
  function Connect(g: Graph, u: string, v: string): (r: Graph)
    ensures r.adj.Keys == g.adj.Keys + {u, v}
  {
    var g1 := AddNode(AddNode(g, u), v);
    Link(Link(g1, u, v), v, u)
  }

  lemma ConnectAdjacency(g: Graph, u: string, v: string)
    ensures forall x, y :: Adjacent(Connect(g, u, v), x, y) <==> Adjacent(g, x, y) || (x == u && y == v) || (x == v && y == u)
  {
    var g1 := AddNode(AddNode(g, u), v);
    var g2 := Link(g1, u, v);
    var r := Link(g2, v, u);
    assert r == Connect(g, u, v);
    forall x, y
      ensures Adjacent(r, x, y) <==> Adjacent(g, x, y) || (x == u && y == v) || (x == v && y == u)
    {
      if x != u && x != v {
        if x in g.adj {
          assert r.adj[x] == g2.adj[x] == g1.adj[x] == g.adj[x];
        }
      } else if x == v {
        assert y in r.adj[v] <==> y in g2.adj[v] || y == u;
        if u != v {
          assert g2.adj[v] == g1.adj[v];
        }
      } else {
        assert x == u && x != v;
        assert r.adj[u] == g2.adj[u];
      }
    }
  }

  lemma ConnectNodesListed(g: Graph, u: string, v: string)
    ensures NodesListed(g) ==> NodesListed(Connect(g, u, v))
  {
    var g0 := AddNode(g, u);
    var g1 := AddNode(g0, v);
    assert Connect(g, u, v).nodes == g1.nodes;
    if NodesListed(g) {
      assert NodesListed(g0);
      assert NodesListed(g1);
    }
  }

  lemma ConnectNeighboursListed(g: Graph, u: string, v: string)
    ensures NeighboursListed(g) ==> NeighboursListed(Connect(g, u, v))
  {
    var g0 := AddNode(g, u);
    var g1 := AddNode(g0, v);
    var g2 := Link(g1, u, v);
    var r := Link(g2, v, u);
    assert r == Connect(g, u, v);
    if NeighboursListed(g) {
      forall x | x in r.adj
        ensures Distinct(r.adj[x]) && |r.adj[x]| > 0
      {
        if x == v {
          assert u in r.adj[v];
          if u != v {
            assert g2.adj[v] == g1.adj[v];
          }
          assert Distinct(g1.adj[v]);
        } else if x == u {
          assert r.adj[u] == g2.adj[u];
          assert v in r.adj[u];
          assert Distinct(g1.adj[u]);
        } else {
          assert r.adj[x] == g.adj[x];
        }
      }
    }
  }

  lemma ConnectSymmetric(g: Graph, u: string, v: string)
    ensures Symmetric(g) ==> Symmetric(Connect(g, u, v))
  {
    var r := Connect(g, u, v);
    ConnectAdjacency(g, u, v);
    if Symmetric(g) {
      forall x, y | Adjacent(r, x, y)
        ensures Adjacent(r, y, x)
      {
        if Adjacent(g, x, y) {
          assert Adjacent(g, y, x);
        }
      }
    }
  }

  lemma ConnectExisting(g: Graph, u: string, v: string)
    ensures Symmetric(g) && Adjacent(g, u, v) ==> Connect(g, u, v) == g
  {
    if Symmetric(g) && Adjacent(g, u, v) {
      assert Adjacent(g, v, u);
    }
  }

  /**
   * `G.add_edge(u, v)`. On a valid graph the result is valid, the new adjacency is the old
   * one plus the undirected edge `u`-`v`, and re-adding an edge that is present changes
   * nothing.
   */
  function AddEdge(g: Graph, u: string, v: string): (r: Graph)
    ensures r.adj.Keys == g.adj.Keys + {u, v}
    ensures Valid(g) ==> Valid(r)
    ensures forall x, y :: Adjacent(r, x, y) <==> Adjacent(g, x, y) || (x == u && y == v) || (x == v && y == u)
    ensures Valid(g) && Adjacent(g, u, v) ==> r == g
  {
    ConnectAdjacency(g, u, v);
    ConnectNodesListed(g, u, v);
    ConnectNeighboursListed(g, u, v);
    ConnectSymmetric(g, u, v);
    ConnectExisting(g, u, v);
    Connect(g, u, v)
  }

  /** `G.add_edges_from(es)`: the edges are added one after another. */
  function AddEdges(g: Graph, es: seq<(string, string)>): Graph
  {
    if |es| == 0 then g else AddEdge(AddEdges(g, es[..|es| - 1]), es[|es| - 1].0, es[|es| - 1].1)
  }

  /** The edge `x`-`y` is among `es`, in either direction. */
  predicate Listed(es: seq<(string, string)>, x: string, y: string)
  {
    exists i :: 0 <= i < |es| && (es[i] == (x, y) || es[i] == (y, x))
  }

  /**
   * After `add_edges_from`, two nodes are adjacent exactly when they were before or the
   * edge between them is listed; the graph stays valid, so adjacency stays symmetric.
   */
  lemma {:induction false} AddEdgesAdjacency(g: Graph, es: seq<(string, string)>)
    requires Valid(g)
    ensures Valid(AddEdges(g, es))
    ensures forall x, y :: Adjacent(AddEdges(g, es), x, y) <==> Adjacent(g, x, y) || Listed(es, x, y)
    decreases |es|
  {
    if |es| > 0 {
      var front := es[..|es| - 1];
      var last := es[|es| - 1];
      var h := AddEdges(g, front);
      AddEdgesAdjacency(g, front);
      assert AddEdges(g, es) == AddEdge(h, last.0, last.1);
      forall x, y
        ensures Adjacent(AddEdges(g, es), x, y) <==> Adjacent(g, x, y) || Listed(es, x, y)
      {
        ListedSnoc(es, x, y);
      }
    }
  }

  lemma ListedSnoc(es: seq<(string, string)>, x: string, y: string)
    requires |es| > 0
    ensures Listed(es, x, y) <==> Listed(es[..|es| - 1], x, y) || es[|es| - 1] == (x, y) || es[|es| - 1] == (y, x)
  {
    var front := es[..|es| - 1];
    if Listed(front, x, y) {
      var i :| 0 <= i < |front| && (front[i] == (x, y) || front[i] == (y, x));
      assert es[i] == front[i];
    }
    if Listed(es, x, y) {
      var i :| 0 <= i < |es| && (es[i] == (x, y) || es[i] == (y, x));
      if i < |es| - 1 {
        assert front[i] == es[i];
      }
    }
  }

  /** The nodes whose first character is `t`, in graph order. */
  function OfType(nodes: seq<string>, t: char): (r: seq<string>)
    ensures |r| <= |nodes|
  {
    if |nodes| == 0 then []
    else (if |nodes[0]| > 0 && nodes[0][0] == t then [nodes[0]] else []) + OfType(nodes[1..], t)
  }

  /** `OfType` keeps exactly the nodes of type `t`. */
  lemma {:induction false} OfTypeMembers(nodes: seq<string>, t: char)
    ensures forall x :: x in OfType(nodes, t) <==> x in nodes && |x| > 0 && x[0] == t
  {
    if |nodes| > 0 {
      OfTypeMembers(nodes[1..], t);
      assert forall x :: x in nodes <==> x == nodes[0] || x in nodes[1..];
    }
  }

  /** `OfType` of a list without repetitions has none either. */
  lemma {:induction false} OfTypeDistinct(nodes: seq<string>, t: char)
    requires Distinct(nodes)
    ensures Distinct(OfType(nodes, t))
  {
    if |nodes| > 0 {
      var rest := OfType(nodes[1..], t);
      OfTypeDistinct(nodes[1..], t);
      OfTypeMembers(nodes[1..], t);
      if |nodes[0]| > 0 && nodes[0][0] == t {
        var r := [nodes[0]] + rest;
        assert nodes[0] !in nodes[1..];
        forall i, j | 0 <= i < j < |r|
          ensures r[i] != r[j]
        {
          if i == 0 {
            assert r[j] == rest[j - 1];
          } else {
            assert r[i] == rest[i - 1] && r[j] == rest[j - 1];
          }
        }
      }
    }
  }

  /** `G.number_of_edges() > 0`. */
  predicate HasEdge(g: Graph)
  {
    exists u | u in g.adj :: |g.adj[u]| > 0
  }

  /** On a valid graph "no edges" and "no nodes" coincide. */
  lemma EdgesIffNodes(g: Graph)
    requires Valid(g)
    ensures HasEdge(g) <==> |g.nodes| > 0
  {
    if |g.nodes| > 0 {
      assert g.nodes[0] in g.adj;
    }
  }
}
