/** The vertex container of Graph.java: an id-keyed arena with directed, de-duplicated
    adjacency lists. */
module Graphs {
  import opened Seqs
  import opened Vertices

  type Graph = map<int, Vertex>

  /** Every vertex is stored under its own id, its list has no repeats, and every listed
      neighbour is a vertex of the graph. Every graph the loaders build has this shape. */
  predicate WellFormed(g: Graph) {
    forall k :: k in g ==>
      && g[k].id == k
      && NoDup(g[k].neighbors)
      && (forall n :: n in g[k].neighbors ==> n in g)
  }

  /** There is a directed edge `u -> v`. */
  predicate HasEdge(g: Graph, u: int, v: int) {
    u in g && v in g[u].neighbors
  }

  /** `getNeighbors(v)`, called by the partitioner but not defined in Graph.java: the
      neighbour ids of `v`. */
  function Neighbors(g: Graph, v: int): (ns: seq<int>)
    requires v in g
    ensures forall n :: n in ns <==> HasEdge(g, v, n)
  {
    g[v].neighbors
  }

  /** `addVertex`: first writer wins. */
  function AddVertex(g: Graph, id: int, v: Vertex): (r: Graph)
    ensures id in g ==> r == g
    ensures id !in g ==> r.Keys == g.Keys + {id} && r[id] == v
    ensures forall k :: k in g ==> k in r && r[k] == g[k]
  {
    if id in g then g else g[id := v]
  }

  lemma AddVertexWellFormed(g: Graph, v: Vertex)
    requires WellFormed(g)
    requires |v.neighbors| == 0
    ensures WellFormed(AddVertex(g, v.id, v))
  {
  }

  /** `addEdge(a, b)`: only `a`'s list can change, gaining `b`; nothing happens when either
      end is missing, and no reverse edge is created. */
  function AddEdge(g: Graph, a: int, b: int): (r: Graph)
    ensures r.Keys == g.Keys
    ensures a !in g || b !in g ==> r == g
    ensures forall k :: k in g && k != a ==> r[k] == g[k]
    ensures forall u, w :: HasEdge(r, u, w) <==> HasEdge(g, u, w) || (u == a && w == b && a in g && b in g)
    ensures forall k :: k in g ==>
      r[k].id == g[k].id && r[k].x == g[k].x && r[k].y == g[k].y && r[k].color == g[k].color
    ensures WellFormed(g) ==> WellFormed(r)
  {
    if a in g && b in g then g[a := AddNeighbor(g[a], b)] else g
  }

  /** `get(k).setColor(c)`: only the colour of `k` changes. */
  function SetColorOf(g: Graph, k: int, c: int): (r: Graph)
    requires k in g
    ensures r.Keys == g.Keys
    ensures r[k].color == c
    ensures forall j :: j in g && j != k ==> r[j] == g[j]
    ensures forall j :: j in g ==>
      r[j].id == g[j].id && r[j].x == g[j].x && r[j].y == g[j].y && r[j].neighbors == g[j].neighbors
    ensures forall u, w :: HasEdge(r, u, w) <==> HasEdge(g, u, w)
    ensures WellFormed(g) ==> WellFormed(r)
  {
    g[k := SetColor(g[k], c)]
  }

  /** `addEdge` for each pair in order. */
  function AddEdges(g: Graph, pairs: seq<(int, int)>): (r: Graph)
    ensures r.Keys == g.Keys
    ensures forall u, w :: HasEdge(r, u, w) <==> HasEdge(g, u, w) || ((u, w) in pairs && u in g && w in g)
    ensures forall k :: k in g ==>
      r[k].id == g[k].id && r[k].x == g[k].x && r[k].y == g[k].y && r[k].color == g[k].color
    ensures WellFormed(g) ==> WellFormed(r)
  {
    if |pairs| == 0 then g
    else
      var last := pairs[|pairs| - 1];
      assert pairs == pairs[..|pairs| - 1] + [last];
      AddEdge(AddEdges(g, pairs[..|pairs| - 1]), last.0, last.1)
  }
}
