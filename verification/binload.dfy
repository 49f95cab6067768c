/** `Graph.loadCGraphBIN`: the own binary format, read as the stream of `int` values that
    `Integer.reverseBytes(readInt())` yields (four bytes each, least significant first).

    Layout: `width`, `height`, `width*height` occupancy cells in row-major order, the number
    of subgraph blocks, then per block a pair count and that many `(from, to)` pairs. */
module BinLoader {
  import opened Wrappers
  import opened Seqs
  import opened Vertices
  import opened Graphs
  import opened Records

  /** The decoded fields of a file. */
  datatype BinFile = BinFile(width: int, height: int, cells: seq<int>, blocks: seq<seq<(int, int)>>)

  /** Cells the nested `for` loops read: none when either dimension is not positive. */
  function CellCount(width: int, height: int): nat {
    if width <= 0 || height <= 0 then 0 else width * height
  }

  /** `n` pairs from the front of the stream, and what is left after them. */
  function ParsePairs(ints: seq<int>, n: int): (r: Result<(seq<(int, int)>, seq<int>), LoadError>)
    decreases if n < 0 then 0 else n
  {
    if n <= 0 then Success(([], ints))
    else if |ints| < 2 then Failure(Truncated)
    else
      var rest :- ParsePairs(ints[2..], n - 1);
      Success(([(ints[0], ints[1])] + rest.0, rest.1))
  }

  /** `n` blocks, each a pair count followed by its pairs. */
  function ParseBlocks(ints: seq<int>, n: int): (r: Result<(seq<seq<(int, int)>>, seq<int>), LoadError>)
    decreases if n < 0 then 0 else n
  {
    if n <= 0 then Success(([], ints))
    else if |ints| == 0 then Failure(Truncated)
    else
      var block :- ParsePairs(ints[1..], ints[0]);
      var rest :- ParseBlocks(block.1, n - 1);
      Success(([block.0] + rest.0, rest.1))
  }

  /** The reads of `loadCGraphBIN`; a stream that ends early throws an EOFException, and
      anything after the last block is never read. */
  function ParseBin(ints: seq<int>): (r: Result<BinFile, LoadError>)
    ensures r.Success? ==> |r.value.cells| == CellCount(r.value.width, r.value.height)
  {
    if |ints| < 2 then Failure(Truncated)
    else
      var count := CellCount(ints[0], ints[1]);
      if |ints| < 3 + count then Failure(Truncated)
      else
        var blocks :- ParseBlocks(ints[3 + count..], ints[2 + count]);
        Success(BinFile(ints[0], ints[1], ints[2..2 + count], blocks.0))
  }

  /** The writer's side of the same layout. */
  function EncodePairs(ps: seq<(int, int)>): seq<int> {
    if |ps| == 0 then [] else [ps[0].0, ps[0].1] + EncodePairs(ps[1..])
  }

  function EncodeBlocks(bs: seq<seq<(int, int)>>): seq<int> {
    if |bs| == 0 then [] else [|bs[0]|] + EncodePairs(bs[0]) + EncodeBlocks(bs[1..])
  }

  function EncodeBin(f: BinFile): seq<int> {
    [f.width, f.height] + f.cells + [|f.blocks|] + EncodeBlocks(f.blocks)
  }

  lemma {:induction false} PairsRoundTrip(ps: seq<(int, int)>, rest: seq<int>)
    ensures ParsePairs(EncodePairs(ps) + rest, |ps|) == Success((ps, rest))
  {
    if |ps| > 0 {
      var ints := EncodePairs(ps) + rest;
      PairsRoundTrip(ps[1..], rest);
      assert ints[0] == ps[0].0 && ints[1] == ps[0].1;
      assert ints[2..] == EncodePairs(ps[1..]) + rest;
      assert ParsePairs(ints[2..], |ps| - 1) == Success((ps[1..], rest));
      assert [(ints[0], ints[1])] + ps[1..] == ps;
    } else {
      assert EncodePairs(ps) + rest == rest && ps == [];
    }
  }

  lemma {:induction false} BlocksRoundTrip(bs: seq<seq<(int, int)>>, rest: seq<int>)
    ensures ParseBlocks(EncodeBlocks(bs) + rest, |bs|) == Success((bs, rest))
  {
    if |bs| > 0 {
      var tail := EncodeBlocks(bs[1..]) + rest;
      var body := EncodePairs(bs[0]) + tail;
      var ints := [|bs[0]|] + body;
      assert EncodeBlocks(bs) + rest == ints by {
        assert EncodeBlocks(bs) == [|bs[0]|] + EncodePairs(bs[0]) + EncodeBlocks(bs[1..]);
      }
      assert ints[0] == |bs[0]| && ints[1..] == body;
      PairsRoundTrip(bs[0], tail);
      BlocksRoundTrip(bs[1..], rest);
      assert [bs[0]] + bs[1..] == bs;
    } else {
      assert EncodeBlocks(bs) + rest == rest;
    }
  }

  /** Decoding what the writer's layout encodes gives the same fields back, whatever
      follows in the stream. */
  lemma BinRoundTrip(f: BinFile, rest: seq<int>)
    requires |f.cells| == CellCount(f.width, f.height)
    ensures ParseBin(EncodeBin(f) + rest) == Success(f)
  {
    var ints := EncodeBin(f) + rest;
    var count := |f.cells|;
    assert ints[0] == f.width && ints[1] == f.height;
    assert ints[2..2 + count] == f.cells;
    assert ints[2 + count] == |f.blocks|;
    assert ints[3 + count..] == EncodeBlocks(f.blocks) + rest;
    BlocksRoundTrip(f.blocks, rest);
  }

  /** The grid loop: every cell equal to 1 becomes the next vertex, numbered in row-major
      order, at column `c % width` and row `c / width` with colour 0. */
  function GridVertices(cells: seq<int>, width: int): (g: Graph)
    requires |cells| > 0 ==> width > 0
    ensures WellFormed(g)
    ensures forall k :: k in g <==> 0 <= k < |Ones(cells)|
    ensures forall t :: 0 <= t < |Ones(cells)| ==>
      g[t] == NewVertex(t, Ones(cells)[t] % width, Ones(cells)[t] / width, 0)
  {
    if |cells| == 0 then map[]
    else
      var init := cells[..|cells| - 1];
      var g := GridVertices(init, width);
      var c := |cells| - 1;
      var id := |Ones(init)|;
      if cells[c] == 1 then
        AddVertexWellFormed(g, NewVertex(id, c % width, c / width, 0));
        AddVertex(g, id, NewVertex(id, c % width, c / width, 0))
      else g
  }

  /** `v` is named by a pair: as its source, or as its target when that is not the -1
      sentinel. */
  predicate Named(ps: seq<(int, int)>, v: int) {
    exists t :: 0 <= t < |ps| && (ps[t].0 == v || (ps[t].1 == v && v != -1))
  }

  /** The pairs of one block, each recorded with the block's colour. */
  function ReplayPairs(g: Graph, ps: seq<(int, int)>, color: int): (r: Result<Graph, LoadError>)
    requires WellFormed(g)
    ensures r.Success? <==> forall t :: 0 <= t < |ps| ==> ps[t].0 in g && (ps[t].1 != -1 ==> ps[t].1 in g)
    ensures r.Success? ==> WellFormed(r.value) && r.value.Keys == g.Keys
    ensures r.Success? ==> forall k :: k in g ==> r.value[k].id == g[k].id && r.value[k].x == g[k].x && r.value[k].y == g[k].y
  {
    if |ps| == 0 then Success(g)
    else
      var g1 :- RecordPair(g, ps[0].0, ps[0].1, color);
      assert forall t :: 1 <= t < |ps| ==> ps[t] == ps[1..][t - 1];
      ReplayPairs(g1, ps[1..], color)
  }

  /** A block adds exactly its non-sentinel pairs as edges. */
  lemma ReplayPairsEdges(g: Graph, ps: seq<(int, int)>, color: int)
    requires WellFormed(g) && ReplayPairs(g, ps, color).Success?
    ensures forall u, w :: HasEdge(ReplayPairs(g, ps, color).value, u, w) <==> HasEdge(g, u, w) || ((u, w) in ps && w != -1)
  {
    forall u, w
      ensures HasEdge(ReplayPairs(g, ps, color).value, u, w) <==> HasEdge(g, u, w) || ((u, w) in ps && w != -1)
    {
      ReplayPairsEdge(g, ps, color, u, w);
    }
  }

  lemma {:induction false} ReplayPairsEdge(g: Graph, ps: seq<(int, int)>, color: int, u: int, w: int)
    requires WellFormed(g) && ReplayPairs(g, ps, color).Success?
    ensures HasEdge(ReplayPairs(g, ps, color).value, u, w) <==> HasEdge(g, u, w) || ((u, w) in ps && w != -1)
  {
    if |ps| > 0 {
      var g1 := RecordPair(g, ps[0].0, ps[0].1, color).value;
      assert ReplayPairs(g, ps, color) == ReplayPairs(g1, ps[1..], color);
      ReplayPairsEdge(g1, ps[1..], color, u, w);
      assert (u, w) in ps <==> (u, w) == ps[0] || (u, w) in ps[1..];
    }
  }

  /** A block gives its colour to every vertex it names and to no other. */
  lemma ReplayPairsColors(g: Graph, ps: seq<(int, int)>, color: int)
    requires WellFormed(g) && ReplayPairs(g, ps, color).Success?
    ensures forall k :: k in g ==> ReplayPairs(g, ps, color).value[k].color == if Named(ps, k) then color else g[k].color
  {
    forall k | k in g
      ensures ReplayPairs(g, ps, color).value[k].color == if Named(ps, k) then color else g[k].color
    {
      ReplayPairsColor(g, ps, color, k);
    }
  }

  lemma {:induction false} ReplayPairsColor(g: Graph, ps: seq<(int, int)>, color: int, k: int)
    requires WellFormed(g) && ReplayPairs(g, ps, color).Success? && k in g
    ensures ReplayPairs(g, ps, color).value[k].color == if Named(ps, k) then color else g[k].color
  {
    if |ps| > 0 {
      var g1 := RecordPair(g, ps[0].0, ps[0].1, color).value;
      assert ReplayPairs(g, ps, color) == ReplayPairs(g1, ps[1..], color);
      ReplayPairsColor(g1, ps[1..], color, k);
      NamedSplit(ps, k);
    }
  }

  /** A vertex is named by a block exactly when its first pair or the rest names it. */
  lemma NamedSplit(ps: seq<(int, int)>, v: int)
    requires |ps| > 0
    ensures Named(ps, v) <==> (ps[0].0 == v || (ps[0].1 == v && v != -1)) || Named(ps[1..], v)
  {
    if Named(ps, v) && !(ps[0].0 == v || (ps[0].1 == v && v != -1)) {
      var t :| 0 <= t < |ps| && (ps[t].0 == v || (ps[t].1 == v && v != -1));
      assert ps[1..][t - 1] == ps[t];
    }
    if Named(ps[1..], v) {
      var t :| 0 <= t < |ps[1..]| && (ps[1..][t].0 == v || (ps[1..][t].1 == v && v != -1));
      assert ps[t + 1] == ps[1..][t];
    }
  }

  /** Index of the last block that names `v`, or -1. */
  function LastNaming(blocks: seq<seq<(int, int)>>, v: int): (b: int)
    ensures -1 <= b < |blocks|
    ensures b >= 0 ==> Named(blocks[b], v) && forall c :: b < c < |blocks| ==> !Named(blocks[c], v)
    ensures b == -1 ==> forall c :: 0 <= c < |blocks| ==> !Named(blocks[c], v)
  {
    if |blocks| == 0 then -1
    else if Named(blocks[|blocks| - 1], v) then |blocks| - 1
    else LastNaming(blocks[..|blocks| - 1], v)
  }

  /** The blocks in order, block `b` carrying colour `b`. */
  function ReplayBlocks(g: Graph, blocks: seq<seq<(int, int)>>): (r: Result<Graph, LoadError>)
    requires WellFormed(g)
    ensures r.Success? <==> forall b, p :: 0 <= b < |blocks| && p in blocks[b] ==> p.0 in g && (p.1 != -1 ==> p.1 in g)
    ensures r.Success? ==> WellFormed(r.value) && r.value.Keys == g.Keys
    ensures r.Success? ==> forall k :: k in g ==> r.value[k].id == g[k].id && r.value[k].x == g[k].x && r.value[k].y == g[k].y
  {
    if |blocks| == 0 then Success(g)
    else
      var last := |blocks| - 1;
      var g1 :- ReplayBlocks(g, blocks[..last]);
      assert forall b :: 0 <= b < last ==> blocks[..last][b] == blocks[b];
      var r := ReplayPairs(g1, blocks[last], last);
      assert r.Success? <==> forall p :: p in blocks[last] ==> p.0 in g && (p.1 != -1 ==> p.1 in g) by {
        forall p | p in blocks[last] ensures p == blocks[last][IndexOf(blocks[last], p)] { }
      }
      r
  }

  /** Some block holds the pair `(u, w)`. */
  ghost predicate InSomeBlock(blocks: seq<seq<(int, int)>>, u: int, w: int) {
    exists b :: 0 <= b < |blocks| && (u, w) in blocks[b]
  }

  lemma InSomeBlockSplit(blocks: seq<seq<(int, int)>>, u: int, w: int)
    requires |blocks| > 0
    ensures InSomeBlock(blocks, u, w) <==>
      InSomeBlock(blocks[..|blocks| - 1], u, w) || (u, w) in blocks[|blocks| - 1]
  {
    var init := blocks[..|blocks| - 1];
    if InSomeBlock(blocks, u, w) {
      var b :| 0 <= b < |blocks| && (u, w) in blocks[b];
      if b < |blocks| - 1 {
        assert init[b] == blocks[b];
      }
    }
    if InSomeBlock(init, u, w) {
      var b :| 0 <= b < |init| && (u, w) in init[b];
      assert init[b] == blocks[b];
    }
  }

  /** The blocks add exactly their non-sentinel pairs as edges. */
  lemma ReplayBlocksEdges(g: Graph, blocks: seq<seq<(int, int)>>)
    requires WellFormed(g) && ReplayBlocks(g, blocks).Success?
    ensures forall u, w :: HasEdge(ReplayBlocks(g, blocks).value, u, w) <==>
      HasEdge(g, u, w) || (w != -1 && InSomeBlock(blocks, u, w))
  {
    forall u, w
      ensures HasEdge(ReplayBlocks(g, blocks).value, u, w) <==>
        HasEdge(g, u, w) || (w != -1 && InSomeBlock(blocks, u, w))
    {
      ReplayBlocksEdge(g, blocks, u, w);
    }
  }

  lemma {:induction false} ReplayBlocksEdge(g: Graph, blocks: seq<seq<(int, int)>>, u: int, w: int)
    requires WellFormed(g) && ReplayBlocks(g, blocks).Success?
    ensures HasEdge(ReplayBlocks(g, blocks).value, u, w) <==>
      HasEdge(g, u, w) || (w != -1 && InSomeBlock(blocks, u, w))
  {
    if |blocks| > 0 {
      var last := |blocks| - 1;
      var init := blocks[..last];
      ReplayBlocksEdge(g, init, u, w);
      var g1 := ReplayBlocks(g, init).value;
      assert ReplayBlocks(g, blocks) == ReplayPairs(g1, blocks[last], last);
      ReplayPairsEdge(g1, blocks[last], last, u, w);
      InSomeBlockSplit(blocks, u, w);
    }
  }

  /** Every vertex ends with the colour of the last block that names it, or keeps its own. */
  lemma {:induction false} ReplayBlocksColors(g: Graph, blocks: seq<seq<(int, int)>>)
    requires WellFormed(g) && ReplayBlocks(g, blocks).Success?
    ensures forall k :: k in g ==>
      ReplayBlocks(g, blocks).value[k].color == if LastNaming(blocks, k) >= 0 then LastNaming(blocks, k) else g[k].color
  {
    if |blocks| > 0 {
      var last := |blocks| - 1;
      var init := blocks[..last];
      ReplayBlocksColors(g, init);
      var g1 := ReplayBlocks(g, init).value;
      ReplayPairsColors(g1, blocks[last], last);
      assert forall b :: 0 <= b < last ==> init[b] == blocks[b];
    }
  }

  function IndexOf(ps: seq<(int, int)>, p: (int, int)): (t: nat)
    requires p in ps
    ensures t < |ps| && ps[t] == p
  {
    if ps[0] == p then 0 else 1 + IndexOf(ps[1..], p)
  }

  /** `loadCGraphBIN`: the grid's vertices, then every block's records. */
  function LoadBin(ints: seq<int>): (r: Result<Graph, LoadError>)
    ensures r.Success? ==> WellFormed(r.value)
    ensures r.Success? ==> ParseBin(ints).Success?
    ensures r.Success? ==> forall k :: k in r.value <==> 0 <= k < |Ones(ParseBin(ints).value.cells)|
  {
    var f :- ParseBin(ints);
    ReplayBlocks(GridVertices(f.cells, f.width), f.blocks)
  }
}
