/** `GraphPartitioner.coarsenGraph`: one level of randomized matching and contraction. The
    shuffle is the visiting order `order`; `random.nextInt(size)` for vertex `v` is
    `pick(v) % size`. */
module Coarsening {
  import opened JavaInt
  import opened Seqs
  import opened Vertices
  import opened Graphs

  /** The loop's state: the coarse graph built so far, the fine-to-coarse map and the set of
      vertices taken by a pair. */
  datatype MatchState = MatchState(coarse: Graph, matching: map<int, int>, matched: set<int>)

  /** `(a + b) / 2` on Java `int`s. */
  function Midpoint(a: int, b: int): int {
    Div(Wrap32(a + b), 2)
  }

  function Min(a: int, b: int): int {
    if a <= b then a else b
  }

  /** The neighbours not yet taken by a pair, in list order. */
  function FreeNeighbors(ns: seq<int>, matched: set<int>): (r: seq<int>)
    ensures forall n :: n in r <==> n in ns && n !in matched
  {
    Select(ns, n => n !in matched)
  }

  /** A coarse graph that has uncoloured vertices but no edges yet. */
  ghost predicate EdgelessArena(c: Graph) {
    forall k :: k in c ==> c[k].id == k && c[k].color == 0 && |c[k].neighbors| == 0
  }

  /** What holds after visiting the vertices in `visited`: each has a coarse vertex no
      larger than its own id, and so has every vertex a pair has taken. */
  ghost predicate MatchInv(g: Graph, st: MatchState, visited: seq<int>) {
    && EdgelessArena(st.coarse)
    && st.coarse.Keys <= g.Keys
    && st.matched <= st.matching.Keys <= g.Keys
    && (forall w :: w in visited ==> w in st.matching)
    && (forall w :: w in st.matching ==> st.matching[w] in st.coarse && st.matching[w] <= w)
  }

  /** One iteration of the matching loop for vertex `v`. */
  function MatchVertex(g: Graph, st: MatchState, v: int, pick: nat): MatchState
    requires WellFormed(g) && v in g
  {
    if v in st.matched then st
    else
      var free := FreeNeighbors(g[v].neighbors, st.matched);
      if |free| > 0 then
        var u := free[pick % |free|];
        var c := Min(v, u);
        var cv := NewVertex(c, Midpoint(g[v].x, g[u].x), Midpoint(g[v].y, g[u].y), 0);
        MatchState(AddVertex(st.coarse, c, cv), st.matching[v := c][u := c], st.matched + {v, u})
      else
        MatchState(AddVertex(st.coarse, v, NewVertex(v, g[v].x, g[v].y, 0)), st.matching[v := v], st.matched)
  }

  /** One iteration for an unmatched `v`: with a free neighbour `u` (the draw `pick` picks
      it), both map to the supervertex `min(v, u)`, which, unless that id is already a coarse
      vertex, sits at the truncated midpoints of the two; with none, `v` maps to a coarse
      vertex of its own id. A vertex a pair has taken is skipped. */
  lemma MatchVertexMerges(g: Graph, st: MatchState, v: int, pick: nat)
    requires WellFormed(g) && v in g
    ensures v in st.matched ==> MatchVertex(g, st, v, pick) == st
    ensures v !in st.matched && |FreeNeighbors(g[v].neighbors, st.matched)| > 0 ==>
      var free := FreeNeighbors(g[v].neighbors, st.matched);
      var u := free[pick % |free|];
      var c := if v <= u then v else u;
      var r := MatchVertex(g, st, v, pick);
      && HasEdge(g, v, u) && u !in st.matched
      && r.matching == st.matching[v := c][u := c]
      && r.matched == st.matched + {v, u}
      && (c in st.coarse ==> r.coarse == st.coarse)
      && (c !in st.coarse ==> r.coarse == st.coarse[c := Vertex(c, Midpoint(g[v].x, g[u].x), Midpoint(g[v].y, g[u].y), 0, [])])
    ensures v !in st.matched && |FreeNeighbors(g[v].neighbors, st.matched)| == 0 ==>
      var r := MatchVertex(g, st, v, pick);
      && (forall n :: HasEdge(g, v, n) ==> n in st.matched)
      && r.matching == st.matching[v := v] && r.matched == st.matched
      && (v in st.coarse ==> r.coarse == st.coarse)
      && (v !in st.coarse ==> r.coarse == st.coarse[v := Vertex(v, g[v].x, g[v].y, 0, [])])
  {
    var free := FreeNeighbors(g[v].neighbors, st.matched);
    if v !in st.matched && |free| > 0 {
      assert free[pick % |free|] in free;
    }
  }

  /** Pairing `v` with `u` under the smaller id keeps the invariant. */
  lemma PairKeepsInv(g: Graph, st: MatchState, visited: seq<int>, v: int, u: int, cv: Vertex)
    requires v in g && u in g && MatchInv(g, st, visited)
    requires cv.id == Min(v, u) && cv.color == 0 && |cv.neighbors| == 0
    ensures var c := Min(v, u);
      MatchInv(g, MatchState(AddVertex(st.coarse, c, cv), st.matching[v := c][u := c], st.matched + {v, u}), visited + [v])
  {
    assert forall w :: w in visited + [v] ==> w in visited || w == v;
  }

  /** Making `v` a coarse vertex of its own keeps the invariant. */
  lemma SingleKeepsInv(g: Graph, st: MatchState, visited: seq<int>, v: int, cv: Vertex)
    requires v in g && MatchInv(g, st, visited)
    requires cv.id == v && cv.color == 0 && |cv.neighbors| == 0
    ensures MatchInv(g, MatchState(AddVertex(st.coarse, v, cv), st.matching[v := v], st.matched), visited + [v])
  {
    assert forall w :: w in visited + [v] ==> w in visited || w == v;
  }

  /** One iteration keeps the invariant and adds `v` to the visited vertices. */
  lemma MatchVertexKeepsInv(g: Graph, st: MatchState, visited: seq<int>, v: int, pick: nat)
    requires WellFormed(g) && v in g
    requires MatchInv(g, st, visited)
    ensures MatchInv(g, MatchVertex(g, st, v, pick), visited + [v])
  {
    if v in st.matched {
      assert forall w :: w in visited + [v] ==> w in visited || w == v;
    } else {
      var free := FreeNeighbors(g[v].neighbors, st.matched);
      if |free| > 0 {
        var u := free[pick % |free|];
        assert u in g[v].neighbors;
        PairKeepsInv(g, st, visited, v, u, NewVertex(Min(v, u), Midpoint(g[v].x, g[u].x), Midpoint(g[v].y, g[u].y), 0));
      } else {
        SingleKeepsInv(g, st, visited, v, NewVertex(v, g[v].x, g[v].y, 0));
      }
    }
  }

  /** The matching loop over a prefix of the shuffled order. */
  function MatchAll(g: Graph, order: seq<int>, pick: int -> nat): (r: MatchState)
    requires WellFormed(g)
    requires forall v :: v in order ==> v in g
    ensures MatchInv(g, r, order)
  {
    if |order| == 0 then MatchState(map[], map[], {})
    else
      var v := order[|order| - 1];
      var init := order[..|order| - 1];
      var st := MatchAll(g, init, pick);
      MatchVertexKeepsInv(g, st, init, v, pick(v));
      assert init + [v] == order;
      MatchVertex(g, st, v, pick(v))
  }

  /** The coarse edges contributed by vertex `v` with list `ns`: the images of its edges,
      dropping those that would be self-loops. */
  function EdgeImages(m: map<int, int>, v: int, ns: seq<int>): (ps: seq<(int, int)>)
    requires v in m && forall n :: n in ns ==> n in m
    ensures forall a, b :: (a, b) in ps <==> a != b && a == m[v] && exists n :: n in ns && m[n] == b
  {
    if |ns| == 0 then []
    else
      var n := ns[|ns| - 1];
      var rest := EdgeImages(m, v, ns[..|ns| - 1]);
      assert forall x :: x in ns <==> x in ns[..|ns| - 1] || x == n;
      rest + (if m[v] != m[n] then [(m[v], m[n])] else [])
  }

  /** `a -> b` is the image of an edge leaving one of `vs`, and is not a self-loop. */
  ghost predicate ImageFrom(g: Graph, m: map<int, int>, vs: seq<int>, a: int, b: int)
    requires WellFormed(g) && g.Keys <= m.Keys
  {
    a != b && exists v, n :: v in vs && HasEdge(g, v, n) && m[v] == a && m[n] == b
  }

  /** `a -> b` is the image of some fine edge, and is not a self-loop. */
  ghost predicate ContractedEdge(g: Graph, m: map<int, int>, a: int, b: int)
    requires WellFormed(g) && g.Keys <= m.Keys
  {
    a != b && exists v, n :: HasEdge(g, v, n) && m[v] == a && m[n] == b
  }

  lemma ImageFromSplit(g: Graph, m: map<int, int>, vs: seq<int>, a: int, b: int)
    requires WellFormed(g) && g.Keys <= m.Keys && |vs| > 0 && vs[|vs| - 1] in g
    ensures ImageFrom(g, m, vs, a, b) <==>
      ImageFrom(g, m, vs[..|vs| - 1], a, b) ||
      (a != b && a == m[vs[|vs| - 1]] && exists n :: HasEdge(g, vs[|vs| - 1], n) && m[n] == b)
  {
    var last := vs[|vs| - 1];
    assert forall x :: x in vs <==> x in vs[..|vs| - 1] || x == last;
    if ImageFrom(g, m, vs, a, b) {
      var v, n :| v in vs && HasEdge(g, v, n) && m[v] == a && m[n] == b;
      if v != last {
        assert v in vs[..|vs| - 1];
      }
    }
    if a != b && a == m[last] && exists n :: HasEdge(g, last, n) && m[n] == b {
      var n :| HasEdge(g, last, n) && m[n] == b;
      assert last in vs;
    }
  }

  /** The coarse edge pairs in the order the fine vertices `vs` are visited. */
  function AllEdgeImages(g: Graph, m: map<int, int>, vs: seq<int>): (ps: seq<(int, int)>)
    requires WellFormed(g) && g.Keys <= m.Keys
    requires forall v :: v in vs ==> v in g
    ensures forall a, b :: (a, b) in ps <==> ImageFrom(g, m, vs, a, b)
  {
    if |vs| == 0 then []
    else
      var v := vs[|vs| - 1];
      var rest := AllEdgeImages(g, m, vs[..|vs| - 1]);
      var mine := EdgeImages(m, v, g[v].neighbors);
      assert forall a, b :: (a, b) in rest + mine <==> ImageFrom(g, m, vs, a, b) by {
        forall a, b ensures (a, b) in rest + mine <==> ImageFrom(g, m, vs, a, b) {
          ImageFromSplit(g, m, vs, a, b);
        }
      }
      rest + mine
  }

  /** Replaying the edge images onto the matched vertices gives exactly the contracted
      edges. */
  lemma ContractedEdges(g: Graph, st: MatchState, keyOrder: seq<int>, pairs: seq<(int, int)>)
    requires WellFormed(g)
    requires g.Keys <= st.matching.Keys
    requires forall v :: v in g ==> v in keyOrder
    requires forall w :: w in st.matching ==> st.matching[w] in st.coarse
    requires EdgelessArena(st.coarse)
    requires forall a, b :: (a, b) in pairs <==> ImageFrom(g, st.matching, keyOrder, a, b)
    ensures forall a, b :: HasEdge(AddEdges(st.coarse, pairs), a, b) <==> ContractedEdge(g, st.matching, a, b)
  {
    var m := st.matching;
    var c := AddEdges(st.coarse, pairs);
    forall a, b
      ensures HasEdge(c, a, b) <==> ContractedEdge(g, m, a, b)
    {
      assert !HasEdge(st.coarse, a, b);
      if ContractedEdge(g, m, a, b) {
        var v, n :| HasEdge(g, v, n) && m[v] == a && m[n] == b;
        assert ImageFrom(g, m, keyOrder, a, b);
      }
    }
  }

  /** After the matching pass every fine vertex has a coarse vertex whose id is at most its
      own. */
  lemma MatchCovers(g: Graph, order: seq<int>, pick: int -> nat)
    requires WellFormed(g) && IsOrderOf(order, g.Keys)
    ensures var st := MatchAll(g, order, pick);
      && MatchInv(g, st, [])
      && g.Keys <= st.matching.Keys
  {
    var st := MatchAll(g, order, pick);
    forall v | v in g
      ensures v in st.matching
    {
      assert v in order;
    }
  }

  /** `coarsenGraph`. Every fine vertex is mapped to a coarse vertex whose id is at most its
      own. `keyOrder` is the iteration order of the fine graph's values and only fixes the
      order inside the coarse lists. */
  function Coarsen(g: Graph, order: seq<int>, pick: int -> nat, keyOrder: seq<int>): (r: (Graph, map<int, int>))
    requires WellFormed(g)
    requires IsOrderOf(order, g.Keys) && IsOrderOf(keyOrder, g.Keys)
    ensures r.0.Keys <= g.Keys
    ensures r.1.Keys == g.Keys
    ensures forall v :: v in g ==> r.1[v] in r.0 && r.1[v] <= v
  {
    MatchCovers(g, order, pick);
    OrderIndex(keyOrder, g.Keys);
    var st := MatchAll(g, order, pick);
    (AddEdges(st.coarse, AllEdgeImages(g, st.matching, keyOrder)), st.matching)
  }

  /** The coarse graph is well formed and uncoloured. */
  lemma CoarsenWellFormed(g: Graph, order: seq<int>, pick: int -> nat, keyOrder: seq<int>)
    requires WellFormed(g)
    requires IsOrderOf(order, g.Keys) && IsOrderOf(keyOrder, g.Keys)
    ensures var r := Coarsen(g, order, pick, keyOrder);
      WellFormed(r.0) && forall c :: c in r.0 ==> r.0[c].color == 0
  {
    MatchCovers(g, order, pick);
    var st := MatchAll(g, order, pick);
    var c := Coarsen(g, order, pick, keyOrder).0;
    assert WellFormed(st.coarse);
    forall k | k in c
      ensures c[k].color == 0
    {
      assert st.coarse[k].color == 0;
    }
  }

  /** Coarse edges never loop and are exactly the images of fine edges whose ends map to
      different coarse vertices. */
  lemma CoarsenEdges(g: Graph, order: seq<int>, pick: int -> nat, keyOrder: seq<int>)
    requires WellFormed(g)
    requires IsOrderOf(order, g.Keys) && IsOrderOf(keyOrder, g.Keys)
    ensures var r := Coarsen(g, order, pick, keyOrder);
      forall a, b :: HasEdge(r.0, a, b) <==> ContractedEdge(g, r.1, a, b)
  {
    MatchCovers(g, order, pick);
    OrderIndex(keyOrder, g.Keys);
    var st := MatchAll(g, order, pick);
    var pairs := AllEdgeImages(g, st.matching, keyOrder);
    ContractedEdges(g, st, keyOrder, pairs);
  }
}
