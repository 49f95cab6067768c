/** A vertex of the arena: Vertices.java with neighbour references replaced by neighbour ids. */
module Vertices {
  import opened Seqs

  /** `color` is the subgraph/partition tag; `neighbors` is the ordered list of outgoing edges. */
  datatype Vertex = Vertex(id: int, x: int, y: int, color: int, neighbors: seq<int>)

  /** The constructor `Vertices(id, x, y, color)`. */
  function NewVertex(id: int, x: int, y: int, color: int): (v: Vertex)
    ensures v.id == id && v.x == x && v.y == y && v.color == color
    ensures |v.neighbors| == 0
  {
    Vertex(id, x, y, color, [])
  }

  /** `setColor`: only the colour changes. */
  function SetColor(v: Vertex, c: int): (r: Vertex)
    ensures r.color == c
    ensures r.id == v.id && r.x == v.x && r.y == v.y && r.neighbors == v.neighbors
  {
    v.(color := c)
  }

  /** `addNeighbor`: append `n` unless it is already listed. */
  function AddNeighbor(v: Vertex, n: int): (r: Vertex)
    ensures n in r.neighbors
    ensures forall m :: m in r.neighbors <==> m in v.neighbors || m == n
    ensures NoDup(v.neighbors) ==> NoDup(r.neighbors)
    ensures n in v.neighbors ==> r == v
    ensures n !in v.neighbors ==> |r.neighbors| == |v.neighbors| + 1 && r.neighbors[..|v.neighbors|] == v.neighbors
    ensures r.id == v.id && r.x == v.x && r.y == v.y && r.color == v.color
  {
    if n in v.neighbors then v else v.(neighbors := v.neighbors + [n])
  }

  /** `addNeighbor` called once per element of `ns`, in order. */
  function AddNeighbors(v: Vertex, ns: seq<int>): Vertex {
    if |ns| == 0 then v else AddNeighbor(AddNeighbors(v, ns[..|ns| - 1]), ns[|ns| - 1])
  }

  /** Adding a duplicate-free list one by one to a vertex without neighbours rebuilds the list
      exactly: de-duplication never reorders. */
  lemma {:induction false} AddNeighborsRebuilds(v: Vertex, ns: seq<int>)
    requires |v.neighbors| == 0
    requires NoDup(ns)
    ensures AddNeighbors(v, ns).neighbors == ns
    ensures AddNeighbors(v, ns).id == v.id && AddNeighbors(v, ns).x == v.x
    ensures AddNeighbors(v, ns).y == v.y && AddNeighbors(v, ns).color == v.color
  {
    if |ns| > 0 {
      var init := ns[..|ns| - 1];
      NoDupInit(ns);
      AddNeighborsRebuilds(v, init);
      assert init + [ns[|ns| - 1]] == ns;
    }
  }
}
