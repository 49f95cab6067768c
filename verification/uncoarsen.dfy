/** `GraphPartitioner.findCorrespondingCoarseVertex` and `uncoarsenAndRefine`: each fine
    vertex takes the part of the coarse vertex nearest to it. Distances are compared squared,
    which orders them as the source's `sqrt` does; the coarse graph's iteration order is the
    parameter `order`, and `random.nextInt(k)` for vertex `v` is `draw(v) % k`. */
module Uncoarsening {
  import opened JavaInt
  import opened Seqs
  import opened Vertices
  import opened Graphs
  import opened Parts

  /** Squared distance between two vertices. The coordinate differences are Java `int`
      subtractions, so they wrap. */
  function SqDist(a: Vertex, b: Vertex): nat {
    var dx := Wrap32(a.x - b.x);
    var dy := Wrap32(a.y - b.y);
    dx * dx + dy * dy
  }

  /** Coarse vertex `c` is at minimal distance from `f`. */
  ghost predicate IsNearest(f: Vertex, coarse: Graph, c: int) {
    c in coarse && forall d :: d in coarse ==> SqDist(f, coarse[c]) <= SqDist(f, coarse[d])
  }

  /** The distances from `f` to the coarse vertices, in iteration order. */
  function Distances(f: Vertex, coarse: Graph, order: seq<int>): (ds: seq<nat>)
    ensures |ds| == |order|
    ensures forall j :: 0 <= j < |order| && order[j] in coarse ==> ds[j] == SqDist(f, coarse[order[j]])
  {
    seq(|order|, j requires 0 <= j < |order| => if order[j] in coarse then SqDist(f, coarse[order[j]]) else 0)
  }

  /** Position `i` holds the minimum of `ds` and no earlier position does. */
  predicate FirstAtMin(ds: seq<nat>, i: int) {
    && 0 <= i < |ds|
    && (forall j :: 0 <= j < |ds| ==> ds[i] <= ds[j])
    && (forall j :: 0 <= j < i ==> ds[i] < ds[j])
  }

  /** The scan with a running minimum that starts above every distance: the position of the
      first minimum, or -1 for no positions. */
  function FirstMin(ds: seq<nat>): (i: int)
    ensures i == -1 <==> |ds| == 0
    ensures i != -1 ==> FirstAtMin(ds, i)
  {
    if |ds| == 0 then -1
    else
      var i := FirstMin(ds[..|ds| - 1]);
      var last := |ds| - 1;
      if i == -1 || ds[last] < ds[i] then last else i
  }

  /** `findCorrespondingCoarseVertex`: the id of the first nearest coarse vertex in iteration
      order, or -1 for an empty coarse graph. */
  function FindCorresponding(f: Vertex, coarse: Graph, order: seq<int>): (r: int)
    requires WellFormed(coarse) && IsOrderOf(order, coarse.Keys)
    ensures |coarse| == 0 ==> r == -1
    ensures |coarse| > 0 ==> IsNearest(f, coarse, r)
    ensures |coarse| > 0 ==>
      exists i :: FirstAtMin(Distances(f, coarse, order), i) && order[i] == r
  {
    var ds := Distances(f, coarse, order);
    var i := FirstMin(ds);
    if i == -1 then
      assert forall d :: d in coarse ==> d in order;
      -1
    else
      assert forall x :: x in order ==> x in coarse.Keys;
      assert order[i] in order;
      var c := coarse[order[i]].id;
      assert forall d :: d in coarse ==> exists j :: 0 <= j < |order| && order[j] == d;
      c
  }

  /** The part one fine vertex `f` receives; `dr` is the random draw for it. */
  function Project(f: Vertex, coarse: Graph, coarsePart: map<int, int>, order: seq<int>, k: int, dr: nat): (p: int)
    requires WellFormed(coarse) && IsOrderOf(order, coarse.Keys)
    requires k > 0
    ensures InRange(coarsePart, k) ==> 0 <= p < k
    ensures |coarse| > 0 ==>
      (exists c :: IsNearest(f, coarse, c) && c in coarsePart && p == coarsePart[c]) || p == dr % k
    ensures |coarse| == 0 ==> p == if -1 in coarsePart then coarsePart[-1] else dr % k
  {
    var c := FindCorresponding(f, coarse, order);
    if c in coarsePart then coarsePart[c] else dr % k
  }

  /** `uncoarsenAndRefine`: the fine partition. Every fine vertex is assigned, to the part of
      a nearest coarse vertex when that vertex is partitioned and to a random part
      otherwise. */
  function Uncoarsen(fine: Graph, coarse: Graph, coarsePart: map<int, int>, order: seq<int>, k: int, draw: int -> nat): (r: map<int, int>)
    requires WellFormed(coarse) && IsOrderOf(order, coarse.Keys)
    requires k > 0
    ensures r.Keys == fine.Keys
    ensures InRange(coarsePart, k) ==> InRange(r, k)
    ensures |coarse| > 0 ==> forall v :: v in fine ==>
      (exists c :: IsNearest(fine[v], coarse, c) && c in coarsePart && r[v] == coarsePart[c]) ||
      r[v] == draw(v) % k
  {
    map v | v in fine :: Project(fine[v], coarse, coarsePart, order, k, draw(v))
  }

  /** When the coarse partition covers a non-empty coarse graph, the random fallback is never
      taken: every fine vertex takes the part of its nearest coarse vertex. */
  lemma NoFallback(fine: Graph, coarse: Graph, coarsePart: map<int, int>, order: seq<int>, k: int, draw: int -> nat)
    requires WellFormed(coarse) && IsOrderOf(order, coarse.Keys)
    requires k > 0
    requires |coarse| > 0 && coarse.Keys <= coarsePart.Keys
    ensures var r := Uncoarsen(fine, coarse, coarsePart, order, k, draw);
      forall v :: v in fine ==> r[v] == coarsePart[FindCorresponding(fine[v], coarse, order)]
  {
  }
}
