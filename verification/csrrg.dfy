/** `Graph.loadCSRRGGraph`: the five-line `;`-separated format. Each line arrives already
    split into fields. */
module CsrrgLoader {
  import opened Wrappers
  import opened JavaInt
  import opened Seqs
  import opened Vertices
  import opened Graphs
  import opened Records

  /** Number of iterations of `for (j = a; j < b; j++)`. */
  function Span(a: int, b: int): nat {
    if a < b then b - a else 0
  }

  /** End of the offset range that starts at `starts[i]`: the next offset, or `total` for the
      last one. */
  function RangeEnd(starts: seq<int>, total: int, i: nat): int
    requires i < |starts|
  {
    if i + 1 < |starts| then starts[i + 1] else total
  }

  /** The row of each vertex in creation (= id) order, from row `i` on: row `i` creates
      `Span(rowStarts[i], RangeEnd(..))` vertices. */
  function RowLabels(rowStarts: seq<int>, n: int, i: nat): seq<int>
    decreases |rowStarts| - i
  {
    if i >= |rowStarts| then []
    else seq(Span(rowStarts[i], RangeEnd(rowStarts, n, i)), _ => i) + RowLabels(rowStarts, n, i + 1)
  }

  /** The vertex loop. Vertex number `id` reads `indexes[id]`, so the load throws as soon as
      the rows ask for more vertices than `indexes` has; otherwise vertex `id` is placed at
      column `indexes[id]` of its row with colour 0. */
  function RowVertices(indexes: seq<int>, rowStarts: seq<int>): Result<Graph, LoadError> {
    var labels := RowLabels(rowStarts, |indexes|, 0);
    if |labels| > |indexes| then Failure(IndexOutOfRange)
    else Success(map j | 0 <= j < |labels| :: NewVertex(j, indexes[j], labels[j], 0))
  }

  /** `i` indexes the array `groups`. */
  predicate InBounds(groups: seq<int>, i: int) {
    0 <= i < |groups|
  }

  /** The group loop `for (j = start + 1; j < end; j++)` runs at least once and reads
      outside `groups`: either `groups[start]`, or `groups[j]` on some iteration. The loop
      variable starts at the `int` value `start + 1`. */
  predicate GroupThrows(groups: seq<int>, start: int, end: int)
    requires IsInt32(start)
  {
    var lo := Wrap32(start + 1);
    && lo < end
    && (!InBounds(groups, start) || exists j :: lo <= j < end && !InBounds(groups, j))
  }

  /** The edges of one group `[start, end)`: `groups[start] -> groups[j]` for the later
      members. The load throws exactly when an iteration reads outside `groups`. */
  function GroupPairs(groups: seq<int>, start: int, end: int): (r: Result<seq<(int, int)>, LoadError>)
    requires IsInt32(start)
    ensures r.Failure? <==> GroupThrows(groups, start, end)
    ensures r.Success? ==> forall u, w :: (u, w) in r.value <==>
      exists j :: 0 <= start < j < end && j < |groups| && u == groups[start] && w == groups[j]
  {
    var lo := Wrap32(start + 1);
    if lo >= end then Success([])
    else if start < 0 || start >= |groups| || lo < 0 || end > |groups| then
      assert !InBounds(groups, start) || !InBounds(groups, lo) || !InBounds(groups, end - 1);
      Failure(IndexOutOfRange)
    else
      assert forall j :: lo <= j < end ==> InBounds(groups, j);
      var ps := seq(end - lo, t requires 0 <= t < end - lo => (groups[start], groups[lo + t]));
      assert forall j :: lo <= j < end ==> ps[j - lo] == (groups[start], groups[j]);
      Success(ps)
  }

  /** `u -> w` is named by group `g` or a later one: `u` heads the group and `w` is a later
      member of it. */
  ghost predicate GroupEdgeFrom(groups: seq<int>, groupStarts: seq<int>, i: nat, u: int, w: int) {
    exists g, j :: i <= g < |groupStarts| && 0 <= groupStarts[g] < j < RangeEnd(groupStarts, |groups|, g) && j < |groups| &&
      u == groups[groupStarts[g]] && w == groups[j]
  }

  /** The group loop throws on group `i` or a later one. */
  predicate SomeGroupThrows(groups: seq<int>, groupStarts: seq<int>, i: nat)
    requires forall g :: 0 <= g < |groupStarts| ==> IsInt32(groupStarts[g])
  {
    exists g :: i <= g < |groupStarts| && GroupThrows(groups, groupStarts[g], RangeEnd(groupStarts, |groups|, g))
  }

  /** The edge pairs of groups `i, i+1, ...` in file order. */
  function AllPairs(groups: seq<int>, groupStarts: seq<int>, i: nat): (r: Result<seq<(int, int)>, LoadError>)
    requires forall g :: 0 <= g < |groupStarts| ==> IsInt32(groupStarts[g])
    decreases |groupStarts| - i
    ensures r.Failure? <==> SomeGroupThrows(groups, groupStarts, i)
    ensures r.Success? ==> forall u, w :: (u, w) in r.value <==> GroupEdgeFrom(groups, groupStarts, i, u, w)
  {
    if i >= |groupStarts| then Success([])
    else
      assert SomeGroupThrows(groups, groupStarts, i) <==>
        GroupThrows(groups, groupStarts[i], RangeEnd(groupStarts, |groups|, i)) || SomeGroupThrows(groups, groupStarts, i + 1);
      var here :- GroupPairs(groups, groupStarts[i], RangeEnd(groupStarts, |groups|, i));
      var rest :- AllPairs(groups, groupStarts, i + 1);
      assert forall u, w :: GroupEdgeFrom(groups, groupStarts, i, u, w) <==>
        (u, w) in here || GroupEdgeFrom(groups, groupStarts, i + 1, u, w);
      Success(here + rest)
  }

  /** Everything after parsing: vertices row by row, then the group edges. The result has
      the vertices `0 .. count-1` with column `indexes[j]`, the row given by the offsets and
      colour 0, and exactly the group edges between them. */
  function FromArrays(indexes: seq<int>, rowStarts: seq<int>, groups: seq<int>, groupStarts: seq<int>): (r: Result<Graph, LoadError>)
    requires forall g :: 0 <= g < |groupStarts| ==> IsInt32(groupStarts[g])
    ensures r.Success? <==>
      && |RowLabels(rowStarts, |indexes|, 0)| <= |indexes|
      && !SomeGroupThrows(groups, groupStarts, 0)
    ensures r.Success? ==> WellFormed(r.value)
    ensures r.Success? ==> forall j :: j in r.value <==> 0 <= j < |RowLabels(rowStarts, |indexes|, 0)|
    ensures r.Success? ==> forall j :: j in r.value ==>
      r.value[j].x == indexes[j] && r.value[j].y == RowLabels(rowStarts, |indexes|, 0)[j] && r.value[j].color == 0
    ensures r.Success? ==> forall u, w :: HasEdge(r.value, u, w) <==>
      u in r.value && w in r.value && GroupEdgeFrom(groups, groupStarts, 0, u, w)
  {
    var g0 :- RowVertices(indexes, rowStarts);
    var pairs :- AllPairs(groups, groupStarts, 0);
    Success(AddEdges(g0, pairs))
  }

  /** `loadCSRRGGraph` over the lines of the file: line 1 is read and ignored, lines 2-5 are
      the index, row-start, group and group-start arrays. */
  function LoadCsrrg(lines: seq<seq<Field>>): (r: Result<Graph, LoadError>)
    ensures |lines| < 5 ==> r.Failure?
    ensures r.Success? ==> WellFormed(r.value)
  {
    if |lines| < 5 then Failure(MissingLine)
    else
      var indexes :- ParseInts(lines[1]);
      var rowStarts :- ParseInts(lines[2]);
      var groups :- ParseInts(lines[3]);
      var groupStarts :- ParseInts(lines[4]);
      FromArrays(indexes, rowStarts, groups, groupStarts)
  }

  /** Offsets that start at 0, never decrease and stay within `n`. */
  predicate ProperOffsets(starts: seq<int>, n: int) {
    && |starts| > 0
    && starts[0] == 0
    && (forall i, j :: 0 <= i < j < |starts| ==> starts[i] <= starts[j])
    && (forall i :: 0 <= i < |starts| ==> starts[i] <= n)
  }

  /** From row `i` on, the labels cover `n - rowStarts[i]` vertices and each label names the
      row whose offset range holds that vertex. */
  lemma {:induction false} RowLabelsFrom(rowStarts: seq<int>, n: int, i: nat)
    requires ProperOffsets(rowStarts, n)
    requires i < |rowStarts|
    decreases |rowStarts| - i
    ensures |RowLabels(rowStarts, n, i)| == n - rowStarts[i]
    ensures forall t :: 0 <= t < |RowLabels(rowStarts, n, i)| ==>
      var r := RowLabels(rowStarts, n, i)[t];
      i <= r < |rowStarts| && rowStarts[r] <= t + rowStarts[i] < RangeEnd(rowStarts, n, r)
  {
    var here := seq(Span(rowStarts[i], RangeEnd(rowStarts, n, i)), _ => i);
    if i + 1 < |rowStarts| {
      RowLabelsFrom(rowStarts, n, i + 1);
      assert |here| == rowStarts[i + 1] - rowStarts[i];
    } else {
      assert |here| == n - rowStarts[i];
    }
  }

  /** With proper row offsets the loader creates exactly the vertices `0 .. |indexes|-1`,
      and vertex `j` sits at column `indexes[j]` of the row whose offset range holds `j`,
      with colour 0. */
  lemma CsrrgVertexLayout(indexes: seq<int>, rowStarts: seq<int>, groups: seq<int>, groupStarts: seq<int>)
    requires ProperOffsets(rowStarts, |indexes|)
    requires forall g :: 0 <= g < |groupStarts| ==> IsInt32(groupStarts[g])
    requires !SomeGroupThrows(groups, groupStarts, 0)
    ensures FromArrays(indexes, rowStarts, groups, groupStarts).Success?
    ensures var g := FromArrays(indexes, rowStarts, groups, groupStarts).value;
      && (forall j :: j in g <==> 0 <= j < |indexes|)
      && (forall j :: j in g ==>
            && g[j].x == indexes[j] && g[j].color == 0
            && 0 <= g[j].y < |rowStarts| && rowStarts[g[j].y] <= j < RangeEnd(rowStarts, |indexes|, g[j].y))
  {
    RowLabelsFrom(rowStarts, |indexes|, 0);
  }
}
