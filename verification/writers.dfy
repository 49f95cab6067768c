/** `GraphPartitioner.savePartitionedGraph` and `savePartitionedGraphBIN`: the partition is
    written into the vertex colours, then the occupancy matrix and, per colour group, one
    `(from, to)` record per out-edge (or `(id, -1)` for a vertex without out-edges). The
    iteration orders of the graph's and of the colour map's hash maps are the parameters
    `keyOrder` and `colorOrder`. */
module Writers {
  import opened Wrappers
  import opened JavaInt
  import opened Seqs
  import opened Vertices
  import opened Graphs
  import opened Records
  import opened Parts
  import opened BinLoader

  /** Why a save throws. */
  datatype SaveError =
    | MissingPart     // `partition.get(id)` returned null and was unboxed for `setColor`
    | NegativeSize    // `maxX + 1` or `maxY + 1` wrapped to a negative array size
    | BadCoordinate   // a negative coordinate indexed the matrix outside its bounds

  /** The colouring loop: every vertex takes its part as colour; nothing else changes. */
  function AssignColors(g: Graph, part: map<int, int>): (r: Result<Graph, SaveError>)
    ensures r.Success? <==> g.Keys <= part.Keys
    ensures r.Success? ==> r.value.Keys == g.Keys
    ensures r.Success? ==> forall k :: k in g ==>
      && r.value[k].color == part[k]
      && r.value[k].id == g[k].id && r.value[k].x == g[k].x && r.value[k].y == g[k].y
      && r.value[k].neighbors == g[k].neighbors
    ensures r.Success? ==> (WellFormed(r.value) <==> WellFormed(g))
  {
    if g.Keys <= part.Keys then Success(map k | k in g :: SetColor(g[k], part[k]))
    else Failure(MissingPart)
  }

  /** Coordinates are Java `int`s. */
  predicate CoordsInt32(g: Graph) {
    forall k :: k in g ==> IsInt32(g[k].x) && IsInt32(g[k].y)
  }

  function Coord(v: Vertex, alongX: bool): int {
    if alongX then v.x else v.y
  }

  /** The bounding-box loop: the largest x (or y) over `vs`, starting from 0. */
  function MaxCoord(g: Graph, vs: seq<int>, alongX: bool): (m: int)
    requires forall i :: 0 <= i < |vs| ==> vs[i] in g
    ensures m >= 0
    ensures forall i :: 0 <= i < |vs| ==> Coord(g[vs[i]], alongX) <= m
    ensures m == 0 || exists i :: 0 <= i < |vs| && Coord(g[vs[i]], alongX) == m
  {
    if |vs| == 0 then 0
    else
      var last := vs[|vs| - 1];
      var m := MaxCoord(g, vs[..|vs| - 1], alongX);
      assert forall i :: 0 <= i < |vs| - 1 ==> vs[..|vs| - 1][i] == vs[i];
      if Coord(g[last], alongX) > m then Coord(g[last], alongX) else m
  }

  /** The bounding-box loop over the whole graph, in iteration order `keyOrder`. */
  function Extent(g: Graph, keyOrder: seq<int>, alongX: bool): (m: int)
    requires IsOrderOf(keyOrder, g.Keys)
    ensures m >= 0
    ensures forall k :: k in g ==> Coord(g[k], alongX) <= m
    ensures m == 0 || exists k :: k in g && Coord(g[k], alongX) == m
  {
    OrderIndex(keyOrder, g.Keys);
    var m := MaxCoord(g, keyOrder, alongX);
    assert m == 0 || exists k :: k in g && Coord(g[k], alongX) == m by {
      if m != 0 {
        var i :| 0 <= i < |keyOrder| && Coord(g[keyOrder[i]], alongX) == m;
        var k := keyOrder[i];
        assert k in g && Coord(g[k], alongX) == m;
      }
    }
    m
  }

  /** Some vertex of `g` sits at `(x, y)`. */
  ghost predicate Occupied(g: Graph, x: int, y: int) {
    exists k :: k in g && g[k].x == x && g[k].y == y
  }

  /** The occupancy matrix, flattened row by row. */
  datatype Matrix = Matrix(width: int, height: int, cells: seq<int>)

  /** Row-major position of `(x, y)` in a matrix `w` cells wide. */
  function Index(x: int, y: int, w: int): int {
    y * w + x
  }

  /** Cell `(x, y)` of a flattened matrix. */
  function Cell(m: Matrix, x: int, y: int): int
    requires 0 <= x < m.width && 0 <= y < m.height && |m.cells| == m.width * m.height
  {
    CellBound(x, y, m.width, m.height);
    m.cells[Index(x, y, m.width)]
  }

  lemma CellBound(x: int, y: int, w: int, h: int)
    requires 0 <= x < w && 0 <= y < h
    ensures 0 <= Index(x, y, w) < w * h
  {
    assert y * w <= (h - 1) * w;
  }

  /** The marking loop over `vs`: `matrix[y][x] = 1` for each vertex, on a zeroed matrix. */
  function Mark(g: Graph, vs: seq<int>, w: nat, n: nat): (cells: seq<int>)
    requires InBox(g, vs, w, n)
    ensures |cells| == n
  {
    if |vs| == 0 then Zeros(n)
    else
      var last := vs[|vs| - 1];
      var prev := Mark(g, vs[..|vs| - 1], w, n);
      prev[Index(g[last].x, g[last].y, w) := 1]
  }

  /** Every vertex of `vs` lies in a matrix `w` wide with `n` cells. */
  predicate InBox(g: Graph, vs: seq<int>, w: int, n: int) {
    forall i :: 0 <= i < |vs| ==> vs[i] in g && 0 <= g[vs[i]].x < w && 0 <= g[vs[i]].y && Index(g[vs[i]].x, g[vs[i]].y, w) < n
  }

  /** Some vertex of `vs` sits at cell index `c`. */
  ghost predicate MarkedBy(g: Graph, vs: seq<int>, w: int, c: int)
    requires forall i :: 0 <= i < |vs| ==> vs[i] in g
  {
    exists i :: 0 <= i < |vs| && Index(g[vs[i]].x, g[vs[i]].y, w) == c
  }

  /** The marked cells are exactly the positions of the vertices of `vs`; the others stay 0. */
  lemma MarkContents(g: Graph, vs: seq<int>, w: nat, n: nat)
    requires InBox(g, vs, w, n)
    ensures var cells := Mark(g, vs, w, n);
      forall c :: 0 <= c < |cells| ==> (cells[c] == 0 || cells[c] == 1) && (cells[c] == 1 <==> MarkedBy(g, vs, w, c))
  {
    forall c | 0 <= c < n
      ensures var cells := Mark(g, vs, w, n);
        (cells[c] == 0 || cells[c] == 1) && (cells[c] == 1 <==> MarkedBy(g, vs, w, c))
    {
      MarkCell(g, vs, w, n, c);
    }
  }

  lemma {:induction false} MarkCell(g: Graph, vs: seq<int>, w: nat, n: nat, c: int)
    requires InBox(g, vs, w, n)
    requires 0 <= c < n
    ensures var cells := Mark(g, vs, w, n);
      (cells[c] == 0 || cells[c] == 1) && (cells[c] == 1 <==> MarkedBy(g, vs, w, c))
  {
    if |vs| > 0 {
      var init := vs[..|vs| - 1];
      MarkStep(g, vs, w, n);
      MarkCell(g, init, w, n, c);
      MarkedBySplit(g, vs, w, c);
    }
  }

  /** One more vertex marks one more cell. */
  lemma MarkStep(g: Graph, vs: seq<int>, w: nat, n: nat)
    requires InBox(g, vs, w, n) && |vs| > 0
    ensures InBox(g, vs[..|vs| - 1], w, n)
    ensures var last := vs[|vs| - 1];
      Mark(g, vs, w, n) == Mark(g, vs[..|vs| - 1], w, n)[Index(g[last].x, g[last].y, w) := 1]
  {
    var init := vs[..|vs| - 1];
    forall i | 0 <= i < |init| ensures init[i] == vs[i] { }
  }

  lemma MarkedBySplit(g: Graph, vs: seq<int>, w: int, c: int)
    requires forall i :: 0 <= i < |vs| ==> vs[i] in g
    requires |vs| > 0
    ensures var last := vs[|vs| - 1];
      MarkedBy(g, vs, w, c) <==> MarkedBy(g, vs[..|vs| - 1], w, c) || Index(g[last].x, g[last].y, w) == c
  {
    var init := vs[..|vs| - 1];
    if MarkedBy(g, init, w, c) {
      var i :| 0 <= i < |init| && Index(g[init[i]].x, g[init[i]].y, w) == c;
      assert vs[i] == init[i];
    }
    if MarkedBy(g, vs, w, c) {
      var i :| 0 <= i < |vs| && Index(g[vs[i]].x, g[vs[i]].y, w) == c;
      if i < |vs| - 1 {
        assert init[i] == vs[i];
      }
    }
  }

  /** A cell index decodes to the column and row it was built from. */
  lemma CellDecode(x: int, y: int, w: int)
    requires 0 <= x < w && 0 <= y
    ensures Index(x, y, w) / w == y && Index(x, y, w) % w == x
  {
    var a := Index(x, y, w);
    var q := a / w;
    var r := a % w;
    assert (q - y) * w == x - r;
    DivUnique(q - y, w, x - r);
  }

  /** Distinct positions of one row width have distinct indices. */
  lemma IndexInjective(a: int, b: int, x: int, y: int, w: int)
    requires 0 <= a < w && 0 <= b && 0 <= x < w && 0 <= y
    requires Index(a, b, w) == Index(x, y, w)
    ensures a == x && b == y
  {
    CellDecode(a, b, w);
    CellDecode(x, y, w);
  }

  /** A multiple of `w` strictly between `-w` and `w` is 0. */
  lemma DivUnique(d: int, w: int, e: int)
    requires w > 0 && d * w == e && -w < e < w
    ensures d == 0
  {
    if d > 0 {
      MulAtLeast(d, w);
    } else if d < 0 {
      MulAtLeast(-d, w);
    }
  }

  lemma {:induction false} MulAtLeast(d: int, w: int)
    requires d >= 1 && w >= 0
    ensures d * w >= w
  {
    if d > 1 {
      MulAtLeast(d - 1, w);
      assert d * w == (d - 1) * w + w;
    }
  }

  /** Every coordinate can index a matrix whose dimensions are the maxima plus one. */
  predicate CoordsFit(g: Graph) {
    forall k :: k in g ==> 0 <= g[k].x < IntMax && 0 <= g[k].y < IntMax
  }

  /** The matrix of both writers. The array allocation fails when a maximum is
      `Integer.MAX_VALUE`, and the marking loop when a coordinate is negative. */
  function Grid(g: Graph, keyOrder: seq<int>): (r: Result<Matrix, SaveError>)
    requires IsOrderOf(keyOrder, g.Keys) && CoordsInt32(g)
    ensures r.Success? <==> CoordsFit(g)
  {
    var mx := Extent(g, keyOrder, true);
    var my := Extent(g, keyOrder, false);
    if mx == IntMax || my == IntMax then
      Failure(NegativeSize)
    else if exists k :: k in g && (g[k].x < 0 || g[k].y < 0) then
      Failure(BadCoordinate)
    else
      Success(Matrix(mx + 1, my + 1, Paint(g, keyOrder, mx + 1, my + 1)))
  }

  /** The zeroed `h` by `w` matrix with every vertex's cell marked. */
  function Paint(g: Graph, keyOrder: seq<int>, w: nat, h: nat): (cells: seq<int>)
    requires IsOrderOf(keyOrder, g.Keys)
    requires forall k :: k in g ==> 0 <= g[k].x < w && 0 <= g[k].y < h
  {
    GridInBox(g, keyOrder, w, h);
    Mark(g, keyOrder, w, w * h)
  }

  /** The matrix is the bounding box of the vertices, anchored at the origin. */
  lemma GridShape(g: Graph, keyOrder: seq<int>)
    requires IsOrderOf(keyOrder, g.Keys) && CoordsInt32(g)
    requires Grid(g, keyOrder).Success?
    ensures var m := Grid(g, keyOrder).value;
      && m.width >= 1 && m.height >= 1
      && (forall k :: k in g ==> g[k].x < m.width && g[k].y < m.height)
      && (m.width == 1 || exists k :: k in g && g[k].x == m.width - 1)
      && (m.height == 1 || exists k :: k in g && g[k].y == m.height - 1)
  {
    var mx := Extent(g, keyOrder, true);
    var my := Extent(g, keyOrder, false);
    assert Grid(g, keyOrder).value.width == mx + 1 && Grid(g, keyOrder).value.height == my + 1;
  }

  lemma GridInBox(g: Graph, keyOrder: seq<int>, w: int, h: int)
    requires IsOrderOf(keyOrder, g.Keys)
    requires forall k :: k in g ==> 0 <= g[k].x < w && 0 <= g[k].y < h
    ensures InBox(g, keyOrder, w, w * h)
  {
    OrderIndex(keyOrder, g.Keys);
    forall i | 0 <= i < |keyOrder|
      ensures keyOrder[i] in g && 0 <= g[keyOrder[i]].x < w && 0 <= g[keyOrder[i]].y
      ensures Index(g[keyOrder[i]].x, g[keyOrder[i]].y, w) < w * h
    {
      var k := keyOrder[i];
      assert k in g;
      CellBound(g[k].x, g[k].y, w, h);
    }
  }

  /** The written matrix is the marking loop's over the whole graph. */
  lemma GridMarks(g: Graph, keyOrder: seq<int>)
    requires IsOrderOf(keyOrder, g.Keys) && CoordsInt32(g)
    requires Grid(g, keyOrder).Success?
    ensures var m := Grid(g, keyOrder).value;
      && |m.cells| == m.width * m.height
      && InBox(g, keyOrder, m.width, m.width * m.height)
      && m.cells == Mark(g, keyOrder, m.width, m.width * m.height)
  {
    var m := Grid(g, keyOrder).value;
    GridShape(g, keyOrder);
    GridInBox(g, keyOrder, m.width, m.height);
    assert m.cells == Paint(g, keyOrder, m.width, m.height);
  }

  /** A cell of the written matrix is 1 exactly when a vertex sits at its position; every
      other cell is 0. */
  lemma GridOccupancy(g: Graph, keyOrder: seq<int>)
    requires IsOrderOf(keyOrder, g.Keys) && CoordsInt32(g)
    requires Grid(g, keyOrder).Success?
    ensures var m := Grid(g, keyOrder).value;
      && |m.cells| == m.width * m.height
      && (forall c :: 0 <= c < |m.cells| ==> m.cells[c] == 0 || m.cells[c] == 1)
      && (forall x, y :: 0 <= x < m.width && 0 <= y < m.height ==> (Cell(m, x, y) == 1 <==> Occupied(g, x, y)))
  {
    var m := Grid(g, keyOrder).value;
    GridShape(g, keyOrder);
    GridMarks(g, keyOrder);
    MarkContents(g, keyOrder, m.width, m.width * m.height);
    forall x, y | 0 <= x < m.width && 0 <= y < m.height
      ensures Cell(m, x, y) == 1 <==> Occupied(g, x, y)
    {
      CellOccupied(g, keyOrder, m, x, y);
    }
  }

  lemma CellOccupied(g: Graph, keyOrder: seq<int>, m: Matrix, x: int, y: int)
    requires IsOrderOf(keyOrder, g.Keys)
    requires m.width >= 1 && m.height >= 1
    requires InBox(g, keyOrder, m.width, m.width * m.height)
    requires m.cells == Mark(g, keyOrder, m.width, m.width * m.height)
    requires 0 <= x < m.width && 0 <= y < m.height
    ensures Cell(m, x, y) == 1 <==> Occupied(g, x, y)
  {
    var w := m.width;
    var c := Index(x, y, w);
    CellBound(x, y, w, m.height);
    MarkContents(g, keyOrder, w, w * m.height);
    assert Cell(m, x, y) == m.cells[c];
    assert m.cells[c] == 1 <==> MarkedBy(g, keyOrder, w, c);
    if m.cells[c] == 1 {
      var i :| 0 <= i < |keyOrder| && Index(g[keyOrder[i]].x, g[keyOrder[i]].y, w) == c;
      var k := keyOrder[i];
      IndexInjective(g[k].x, g[k].y, x, y, w);
      assert k in g && g[k].x == x && g[k].y == y;
    }
    if Occupied(g, x, y) {
      var k :| k in g && g[k].x == x && g[k].y == y;
      assert k in keyOrder;
      var i :| 0 <= i < |keyOrder| && keyOrder[i] == k;
      assert Index(g[keyOrder[i]].x, g[keyOrder[i]].y, w) == c;
    }
  }

  /** The records one vertex contributes: one per out-neighbour, or the sentinel `-1` when
      it has none. */
  function VertexPairs(g: Graph, v: int): (ps: seq<(int, int)>)
    requires v in g
  {
    var ns := g[v].neighbors;
    if |ns| == 0 then [(g[v].id, -1)] else seq(|ns|, i requires 0 <= i < |ns| => (g[v].id, ns[i]))
  }

  /** The records of a colour group, vertex by vertex. */
  function GroupPairs(g: Graph, grp: seq<int>): seq<(int, int)>
    requires forall v :: v in grp ==> v in g
  {
    if |grp| == 0 then [] else VertexPairs(g, grp[0]) + GroupPairs(g, grp[1..])
  }

  /** The section header of the binary writer: `Math.max(1, degree)` summed over the group. */
  function PairCount(g: Graph, grp: seq<int>): int
    requires forall v :: v in grp ==> v in g
  {
    if |grp| == 0 then 0
    else
      var v := grp[0];
      assert v in grp;
      var d := |g[v].neighbors|;
      (if d > 1 then d else 1) + PairCount(g, grp[1..])
  }

  /** The header announces exactly the records that follow it. */
  lemma {:induction false} PairCountMatches(g: Graph, grp: seq<int>)
    requires forall v :: v in grp ==> v in g
    ensures PairCount(g, grp) == |GroupPairs(g, grp)|
  {
    if |grp| > 0 {
      PairCountMatches(g, grp[1..]);
    }
  }

  /** A group's records are exactly the out-edges of its vertices and the sentinels of its
      vertices without out-edges. */
  lemma {:induction false} GroupPairsContents(g: Graph, grp: seq<int>)
    requires WellFormed(g)
    requires forall v :: v in grp ==> v in g
    ensures forall u, w :: (u, w) in GroupPairs(g, grp) <==>
      u in grp && (HasEdge(g, u, w) || (w == -1 && |g[u].neighbors| == 0))
  {
    if |grp| > 0 {
      GroupPairsContents(g, grp[1..]);
      var v := grp[0];
      var ns := g[v].neighbors;
      assert forall u, w :: (u, w) in VertexPairs(g, v) <==>
        u == v && (HasEdge(g, u, w) || (w == -1 && |ns| == 0)) by {
        forall u, w ensures (u, w) in VertexPairs(g, v) ==> u == v && (HasEdge(g, u, w) || (w == -1 && |ns| == 0)) {
          if (u, w) in VertexPairs(g, v) && |ns| > 0 {
            var i :| 0 <= i < |ns| && VertexPairs(g, v)[i] == (u, w);
          }
        }
        forall u, w | u == v && HasEdge(g, u, w) ensures (u, w) in VertexPairs(g, v) {
          var i :| 0 <= i < |ns| && ns[i] == w;
          assert VertexPairs(g, v)[i] == (u, w);
        }
      }
      assert forall u :: u in grp <==> u == v || u in grp[1..];
    }
  }

  /** The colours in use. */
  function Colors(g: Graph): set<int> {
    set k | k in g :: g[k].color
  }

  /** The parts `partition` gives the vertices of `g`: after the colouring loop, the keys of
      the colour map the writers build. */
  function UsedParts(g: Graph, part: map<int, int>): set<int> {
    set k | k in g && k in part :: part[k]
  }

  /** The colour groups in the colour map's iteration order; each lists its vertices in the
      graph's iteration order. */
  function Groups(g: Graph, keyOrder: seq<int>, colorOrder: seq<int>): (gs: seq<seq<int>>)
    ensures |gs| == |colorOrder|
    ensures forall b, v :: 0 <= b < |gs| ==> (v in gs[b] <==> v in keyOrder && v in g && g[v].color == colorOrder[b])
  {
    seq(|colorOrder|, b requires 0 <= b < |colorOrder| => Select(keyOrder, v => v in g && g[v].color == colorOrder[b]))
  }

  /** With both orders complete, every vertex is in exactly one group, the one of its colour,
      and no group is empty. */
  lemma GroupsPartition(g: Graph, keyOrder: seq<int>, colorOrder: seq<int>)
    requires IsOrderOf(keyOrder, g.Keys) && IsOrderOf(colorOrder, Colors(g))
    ensures var gs := Groups(g, keyOrder, colorOrder);
      && (forall b :: 0 <= b < |gs| ==> NoDup(gs[b]) && |gs[b]| > 0)
      && (forall v :: v in g ==> exists b :: 0 <= b < |gs| && v in gs[b])
      && (forall v, b, c :: 0 <= b < |gs| && 0 <= c < |gs| && v in gs[b] && v in gs[c] ==> b == c)
  {
    var gs := Groups(g, keyOrder, colorOrder);
    forall b | 0 <= b < |gs| ensures NoDup(gs[b]) && |gs[b]| > 0 {
      SelectNoDup(keyOrder, v => v in g && g[v].color == colorOrder[b]);
      assert colorOrder[b] in Colors(g);
      var k :| k in g && g[k].color == colorOrder[b];
      assert k in gs[b];
    }
    forall v | v in g ensures exists b :: 0 <= b < |gs| && v in gs[b] {
      assert g[v].color in Colors(g);
      var b :| 0 <= b < |colorOrder| && colorOrder[b] == g[v].color;
      assert v in gs[b];
    }
  }

  /** The writers' colour map, once the colouring loop has run: one non-empty, duplicate-free
      group per used part, every vertex in exactly the group of its part. So the binary
      writer's group count `partitions.size()` is the number of groups written. */
  lemma WrittenGroups(g: Graph, part: map<int, int>, keyOrder: seq<int>, colorOrder: seq<int>)
    requires IsOrderOf(keyOrder, g.Keys) && IsOrderOf(colorOrder, UsedParts(g, part))
    requires g.Keys <= part.Keys
    ensures var gs := Groups(AssignColors(g, part).value, keyOrder, colorOrder);
      && |gs| == |colorOrder|
      && (forall b :: 0 <= b < |gs| ==> NoDup(gs[b]) && |gs[b]| > 0)
      && (forall v :: v in g ==> exists b :: 0 <= b < |gs| && v in gs[b] && part[v] == colorOrder[b])
      && (forall v, b, c :: 0 <= b < |gs| && 0 <= c < |gs| && v in gs[b] && v in gs[c] ==> b == c)
  {
    var colored := AssignColors(g, part).value;
    assert Colors(colored) == UsedParts(g, part) by {
      forall c | c in UsedParts(g, part) ensures c in Colors(colored) {
        var k :| k in g && k in part && part[k] == c;
        assert colored[k].color == c;
      }
    }
    GroupsPartition(colored, keyOrder, colorOrder);
  }

  /** The group sections of the binary file: the header, then the records as int pairs. */
  function Sections(g: Graph, gs: seq<seq<int>>): seq<int>
    requires forall b, v :: 0 <= b < |gs| && v in gs[b] ==> v in g
  {
    if |gs| == 0 then []
    else
      assert forall b :: 1 <= b < |gs| ==> gs[1..][b - 1] == gs[b];
      [PairCount(g, gs[0])] + EncodePairs(GroupPairs(g, gs[0])) + Sections(g, gs[1..])
  }

  /** The records of every group, as the binary reader's blocks. */
  function Blocks(g: Graph, gs: seq<seq<int>>): (bs: seq<seq<(int, int)>>)
    requires forall b, v :: 0 <= b < |gs| && v in gs[b] ==> v in g
    ensures |bs| == |gs| && forall b :: 0 <= b < |gs| ==> bs[b] == GroupPairs(g, gs[b])
  {
    seq(|gs|, b requires 0 <= b < |gs| => GroupPairs(g, gs[b]))
  }

  lemma {:induction false} SectionsEncode(g: Graph, gs: seq<seq<int>>)
    requires forall b, v :: 0 <= b < |gs| && v in gs[b] ==> v in g
    ensures Sections(g, gs) == EncodeBlocks(Blocks(g, gs))
  {
    if |gs| > 0 {
      assert forall b :: 1 <= b < |gs| ==> gs[1..][b - 1] == gs[b];
      SectionsEncode(g, gs[1..]);
      PairCountMatches(g, gs[0]);
      assert Blocks(g, gs)[1..] == Blocks(g, gs[1..]);
    }
  }

  /** `savePartitionedGraphBIN`: the stream of ints (byte order aside) the writer emits. */
  function WriteBin(g: Graph, part: map<int, int>, keyOrder: seq<int>, colorOrder: seq<int>): (r: Result<seq<int>, SaveError>)
    requires IsOrderOf(keyOrder, g.Keys) && IsOrderOf(colorOrder, UsedParts(g, part)) && CoordsInt32(g)
    ensures r.Success? <==> g.Keys <= part.Keys && CoordsFit(g)
  {
    var colored :- AssignColors(g, part);
    var m :- Grid(colored, keyOrder);
    var gs := Groups(colored, keyOrder, colorOrder);
    Success([m.width, m.height] + m.cells + [|gs|] + Sections(colored, gs))
  }

  /** What the binary reader's parse of a written stream holds. */
  function BinImage(g: Graph, part: map<int, int>, keyOrder: seq<int>, colorOrder: seq<int>): (f: BinFile)
    requires IsOrderOf(keyOrder, g.Keys) && IsOrderOf(colorOrder, UsedParts(g, part)) && CoordsInt32(g)
    requires WriteBin(g, part, keyOrder, colorOrder).Success?
  {
    var colored := AssignColors(g, part).value;
    var m := Grid(colored, keyOrder).value;
    BinFile(m.width, m.height, m.cells, Blocks(colored, Groups(colored, keyOrder, colorOrder)))
  }

  /** The binary reader parses what the binary writer wrote back into its matrix and its
      group records, with every header matching its section. */
  lemma WriteBinParses(g: Graph, part: map<int, int>, keyOrder: seq<int>, colorOrder: seq<int>)
    requires IsOrderOf(keyOrder, g.Keys) && IsOrderOf(colorOrder, UsedParts(g, part)) && CoordsInt32(g)
    requires WriteBin(g, part, keyOrder, colorOrder).Success?
    ensures ParseBin(WriteBin(g, part, keyOrder, colorOrder).value) == Success(BinImage(g, part, keyOrder, colorOrder))
  {
    var colored := AssignColors(g, part).value;
    var m := Grid(colored, keyOrder).value;
    var gs := Groups(colored, keyOrder, colorOrder);
    var f := BinImage(g, part, keyOrder, colorOrder);
    assert f == BinFile(m.width, m.height, m.cells, Blocks(colored, gs));
    GridShape(colored, keyOrder);
    GridMarks(colored, keyOrder);
    assert |f.cells| == CellCount(f.width, f.height);
    SectionsEncode(colored, gs);
    assert WriteBin(g, part, keyOrder, colorOrder).value == EncodeBin(f) + [];
    BinRoundTrip(f, []);
  }
}
