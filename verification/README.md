# GrapheN_v2 core in Dafny

GrapheN_v2 is a Java tool that loads a graph drawn on a grid, partitions it into `k`
parts and saves the result. This project models the tool's non-graphical core and proves
properties of the model:

- `Vertices` and `Graph` hold vertices with grid coordinates, a colour and an ordered,
  duplicate-free list of out-neighbours. They are modelled as an arena `map<int, Vertex>`
  whose lists hold neighbour ids.
- There are three loaders:
  - CSRRG: arrays of column indexes, row starts, groups and group starts;
  - the program's own text format: a 0/1 matrix, blank lines and `from - to` records;
  - the program's own binary format: little-endian ints.
- `GraphPartitioner` runs a multilevel partitioner:
  - one level of random matching and contraction (coarsening);
  - a greedy placement into the smallest part below the cap;
  - projection back through the nearest coarse vertex;
  - a connectivity repair that moves each stray vertex to the plurality part of its
    neighbours;
  - a balancing loop that moves border vertices from the largest part to the smallest.
- The program has two writers, for its text and binary formats. They produce the lines
  and the int stream the loaders read.

Every source of non-determinism in the program is an explicit parameter of the model:

- a `Collections.shuffle` is a given permutation; where the shuffled list is computed
  inside the operation (the coarse vertices, a border), it is a given permutation of all
  the vertices, filtered to that list, which can produce every order of it;
- a `HashMap` iteration order is a given order of its keys;
- `random.nextInt(n)` is `draw(v) % n`, with one draw per vertex;
- the `Collections.max` tie-break is a `tie` draw.

Java `int` arithmetic is written out where it matters:

- `Wrap32` models two's-complement wrap-around;
- `Div` models truncating division;
- `Integer.parseInt` rejects numerals outside the `int` range.

A Java exception becomes the `Failure` of a `Result`. Examples are a missing line, a field
that is not a number, an index out of range, a `null` vertex and a truncated stream.

The modules follow the source:

| module | models |
|---|---|
| `Vertices`, `Graphs` | `Vertices.java` and the graph operations of `Graph.java` |
| `Records`, `TxtLoader`, `CsrrgLoader`, `BinLoader` | the three loaders of `Graph.java` |
| `Coarsening`, `InitialPartition`, `Uncoarsening`, `Components`, `Connectivity`, `Balancing`, `Pipeline` | the stages of `GraphPartitioner.partition` |
| `Writers`, `TxtWriter` | `savePartitionedGraphBIN` and `savePartitionedGraph` |
| `JavaInt`, `Seqs`, `Parts`, `Wrappers` | shared helpers |

Where the code and its description disagree, the model follows the code:

- **Vertex ids on a text reload.** The text reader numbers the vertices it reads
  `0, 1, 2, …` in row-major order. Ids are therefore not preserved across a save and
  reload, and the written `from - to` records refer to the old ids
  (`TxtWriter.WriteTxtReadsPositions` states what survives).
- **The `-1` sentinel in the text format.** The text writer marks a vertex without
  neighbours with `id - -1`. The reader splits every line at `-`, so this line gives
  three fields and is skipped entirely (`TxtWriter.RecordReadsBack`). A negative id
  splits in the same way.
- **Colours on a reload.** A reloaded vertex takes the ordinal of the group or block it
  appears in, counted from the blank lines in the text format (`b + 2` for the `b`-th
  group there). It does not take the part number it was saved with. The last block that
  names a vertex wins, including blocks that name it as the target of an edge
  (`BinLoader.ReplayBlocksColors`).
- **Coarsening leaves single vertices unmatched.** A vertex left on its own during
  coarsening is not added to `matched`, so a later vertex can still pair with it
  (`Coarsening.MatchVertexMerges`).
- **Components of a directed graph.** The search in `findConnectedComponents` follows
  out-edges only. A component is therefore not closed under the edges that stay inside
  the searched set: with vertices `0` and `1` and the single edge `1 -> 0`, the
  components are `{0}` and `{1}`, and the edge `1 -> 0` leaves `{1}`
  (`Components.OneWayEdgeLeaves`). The CSRRG loader creates such one-way edges. An edge
  that leaves a component always goes to an earlier one (`Components.EdgesGoBack`), and
  with symmetric edges every component is closed (`Components.SymmetricComponentsClosed`).
- **Neighbour identity.** `addNeighbor` compares vertex objects, not ids. In a graph
  built by the loaders each id has one object, so the model compares ids.

## Model

| member | source | states |
|---|---|---|
| Vertices.NewVertex | GrapheN_v2/src/Vertices.java:11-17 | a new vertex carries exactly the given id, coordinates and colour, and has no neighbours |
| Vertices.SetColor | GrapheN_v2/src/Vertices.java:29 | the colour becomes `c`; id, coordinates and the neighbour list are untouched |
| Vertices.AddNeighbor | GrapheN_v2/src/Vertices.java:34-38 | afterwards `n` is a neighbour and the neighbour set grew by exactly `n`; a listed `n` leaves the vertex unchanged, otherwise `n` is appended after the unchanged earlier list; a duplicate-free list stays duplicate-free |
| Vertices.AddNeighborsRebuilds | GrapheN_v2/src/Vertices.java:34-38 | adding a duplicate-free list one by one to a vertex without neighbours rebuilds that list exactly, in order |
| Graphs.Neighbors | GrapheN_v2/src/GraphPartitioner.java:194 | `getNeighbors(v)` lists exactly the targets of `v`'s edges |
| Graphs.AddVertex | GrapheN_v2/src/Graph.java:14-18 | an existing id leaves the graph unchanged; a fresh id adds exactly that key with the given vertex and keeps every other vertex |
| Graphs.AddVertexWellFormed | GrapheN_v2/src/Graph.java:14-18 | adding a vertex without neighbours under its own id keeps the graph well formed |
| Graphs.AddEdge | GrapheN_v2/src/Graph.java:20-26 | the key set is unchanged; nothing changes when either end is missing; otherwise the only new edge is `a -> b`, there is no reverse edge, only `a`'s vertex changes, and well-formedness is kept |
| Graphs.SetColorOf | GrapheN_v2/src/Graph.java:153-157 | recolouring one vertex changes only that vertex's colour, and no edge |
| Graphs.AddEdges | GrapheN_v2/src/Graph.java:56-62 | adding a list of pairs adds exactly the pairs whose ends both exist, keeps every vertex's id, position and colour, and keeps well-formedness |
| JavaInt.Wrap32 | GrapheN_v2/src/GraphPartitioner.java:71-72 | the result is an `int`, equal to the input when that already fits, and congruent to it modulo 2^32 |
| JavaInt.Div | GrapheN_v2/src/GraphPartitioner.java:271 | Java's division truncates toward zero: for `a >= 0` the remainder is in `[0, b)`; for negative `a` the quotient is not positive and the remainder `a - q * b` is in `(-b, 0]`, so the quotient rounds toward zero (`-3 / 2` is `-1`, not `-2`) |
| JavaInt.CeilDiv | GrapheN_v2/src/GraphPartitioner.java:114 | the least quotient whose product reaches `a` |
| Parts.TallyFrame | GrapheN_v2/src/GraphPartitioner.java:229 | changing the part of a vertex outside the counted list leaves every count unchanged |
| Parts.TallyMove | GrapheN_v2/src/GraphPartitioner.java:276-278 | moving one counted vertex to part `b` takes one from its old part's count and adds one to `b`'s |
| Records.ParseInts | GrapheN_v2/src/Graph.java:35 | parsing succeeds exactly when every field is a decimal numeral in the `int` range, and then yields those values in order |
| Records.OnesFacts | GrapheN_v2/src/Graph.java:176-184 | the scan lists exactly the positions of the cells equal to 1, in strictly increasing order |
| Records.RecordPair | GrapheN_v2/src/Graph.java:151-157 | a record succeeds exactly when `from` exists and `to` is -1 or exists; it adds only the edge `from -> to` (none for -1), colours both named ends, and changes no other vertex |
| TxtLoader.PlaceOnes | GrapheN_v2/src/Graph.java:136-143 | the listed columns become new vertices numbered from `id` in column order on the given row; earlier vertices are kept |
| TxtLoader.MatrixLine | GrapheN_v2/src/Graph.java:132-144 | a matrix line succeeds exactly when every cell parses; each 1-cell becomes the next id at `(col, row)` with colour 0, the row counter advances by one and the colour is kept |
| TxtLoader.ConnectionLine | GrapheN_v2/src/Graph.java:145-158 | a line with other than two fields changes nothing; a two-field line with a field that is not an `int` numeral fails with that parse error; otherwise it succeeds exactly when `from` exists and `to` is -1 or exists, and then records the pair with the current colour |
| TxtLoader.StepTxt | GrapheN_v2/src/Graph.java:123-160 | a blank line only increments the colour; no other line changes the colour |
| TxtLoader.ReadTxtColor | GrapheN_v2/src/Graph.java:125-127 | after reading a prefix of the file, the colour counter equals the number of blank lines in it |
| TxtLoader.BlankAndOddLinesOnlyCount | GrapheN_v2/src/Graph.java:125-127 | blank lines and lines that do not split into two fields never fail, and change neither the graph nor the row or id counters |
| TxtLoader.LoadTxt | GrapheN_v2/src/Graph.java:116-162 | a loaded graph is well formed and its ids run from 0 without gaps |
| CsrrgLoader.GroupPairs | GrapheN_v2/src/Graph.java:57-61 | one group fails exactly when its loop runs and reads `groups[start]` or some `groups[j]` out of bounds; otherwise its pairs are exactly `groups[start] -> groups[j]` for `start < j < end` |
| CsrrgLoader.AllPairs | GrapheN_v2/src/Graph.java:56-62 | the group loop fails exactly when some group, with its end taken from the next start or `groups.length`, reads out of bounds; otherwise the pairs are exactly the head-to-later-member pairs of some group |
| CsrrgLoader.FromArrays | GrapheN_v2/src/Graph.java:45-62 | the load succeeds exactly when the rows create no more vertices than `indexes` holds and no group reads outside `groups`; the graph is well formed, vertex `j` has `x = indexes[j]`, the row label of `j` as `y` and colour 0, and the edges are exactly the group edges between existing vertices |
| CsrrgLoader.LoadCsrrg | GrapheN_v2/src/Graph.java:28-44 | a file with fewer than five lines fails; a loaded graph is well formed |
| CsrrgLoader.RowLabelsFrom | GrapheN_v2/src/Graph.java:46-54 | with offsets that start at 0, never decrease and stay within `|indexes|`, the rows label exactly `n - rowStarts[i]` vertices, each with the row whose offset range holds it |
| CsrrgLoader.CsrrgVertexLayout | GrapheN_v2/src/Graph.java:45-54 | for such offsets, and groups that stay inside `groups`, the load succeeds with exactly the ids `0..|indexes|-1`; vertex `j` sits at column `indexes[j]` of the row whose range holds `j`, with colour 0 |
| BinLoader.ParseBin | GrapheN_v2/src/Graph.java:170-201 | a parsed file holds exactly one cell per grid position (none when a dimension is not positive) |
| BinLoader.BinRoundTrip | GrapheN_v2/src/Graph.java:170-201 | decoding the writer's layout gives the same width, height, cells and blocks back, whatever follows in the stream |
| BinLoader.GridVertices | GrapheN_v2/src/Graph.java:176-184 | the 1-cells become vertices `0, 1, …` in row-major order, each at column `c % width`, row `c / width`, with colour 0 |
| BinLoader.ReplayPairs | GrapheN_v2/src/Graph.java:189-199 | a block succeeds exactly when every source exists and every non-sentinel target exists; it keeps the key set, ids, positions and well-formedness |
| BinLoader.ReplayPairsEdges | GrapheN_v2/src/Graph.java:192-193 | a block adds exactly its pairs whose target is not -1 as edges |
| BinLoader.ReplayPairsColors | GrapheN_v2/src/Graph.java:194-198 | a block gives its colour to exactly the vertices it names |
| BinLoader.LastNaming | GrapheN_v2/src/Graph.java:187-201 | the index of the last block that names `v`, or -1 when none does |
| BinLoader.ReplayBlocks | GrapheN_v2/src/Graph.java:185-201 | the blocks succeed exactly when every pair names existing vertices (targets may be -1), and keep keys, ids, positions and well-formedness |
| BinLoader.ReplayBlocksEdges | GrapheN_v2/src/Graph.java:187-201 | the edges after all blocks are the grid's plus exactly the non-sentinel pairs of some block |
| BinLoader.ReplayBlocksColors | GrapheN_v2/src/Graph.java:187-201 | every vertex ends with the index of the last block that names it, or keeps its colour when none does |
| BinLoader.LoadBin | GrapheN_v2/src/Graph.java:164-204 | a loaded graph is well formed, its file parses, and its ids are exactly `0..` the number of 1-cells |
| Coarsening.FreeNeighbors | GrapheN_v2/src/GraphPartitioner.java:51-58 | the free neighbours are exactly the listed neighbours not yet matched |
| Coarsening.MatchVertexMerges | GrapheN_v2/src/GraphPartitioner.java:48-87 | a matched vertex is skipped; otherwise, with a free neighbour `u` (an unmatched out-neighbour), both map to `min(v, u)`, both become matched, and that supervertex is created at the truncated midpoints unless its id already exists; with none, `v` maps to itself, stays unmatched and gets its own coarse vertex if absent |
| Coarsening.MatchVertexKeepsInv | GrapheN_v2/src/GraphPartitioner.java:45-88 | one iteration keeps the matching invariant: every visited or matched vertex maps to an existing coarse vertex no larger than itself |
| Coarsening.MatchAll | GrapheN_v2/src/GraphPartitioner.java:45-88 | after visiting a prefix of the shuffle, the invariant holds for every visited vertex |
| Coarsening.MatchCovers | GrapheN_v2/src/GraphPartitioner.java:41-88 | after the whole shuffle every fine vertex has a matching entry |
| Coarsening.EdgeImages | GrapheN_v2/src/GraphPartitioner.java:93-101 | the pairs of one vertex are exactly the images of its edges that are not self-loops |
| Coarsening.AllEdgeImages | GrapheN_v2/src/GraphPartitioner.java:91-102 | the pairs over all fine vertices are exactly the loop-free images of fine edges |
| Coarsening.ContractedEdges | GrapheN_v2/src/GraphPartitioner.java:91-102 | adding those pairs to the edgeless coarse arena gives exactly the contracted edges |
| Coarsening.Coarsen | GrapheN_v2/src/GraphPartitioner.java:36-105 | coarse ids are fine ids; every fine vertex maps to a coarse vertex no larger than its own id |
| Coarsening.CoarsenWellFormed | GrapheN_v2/src/GraphPartitioner.java:36-105 | the coarse graph is well formed and every coarse vertex has colour 0 |
| Coarsening.CoarsenEdges | GrapheN_v2/src/GraphPartitioner.java:91-102 | a coarse edge `a -> b` exists exactly when some fine edge `(v, n)` has `matching[v] = a != b = matching[n]`, so there are no self-loops |
| InitialPartition.Scan | GrapheN_v2/src/GraphPartitioner.java:121-130 | when some part is below `maxSize`, the scan returns the lowest-index part of minimal size among those and its size; otherwise part 0 with `Integer.MAX_VALUE` |
| InitialPartition.ChoosePart | GrapheN_v2/src/GraphPartitioner.java:121-130 | the chosen part is the lowest-index smallest part strictly below the cap, or 0 when none is |
| InitialPartition.Put | GrapheN_v2/src/GraphPartitioner.java:132-133 | the vertex joins the chosen part and every other vertex keeps its part |
| InitialPartition.PlaceCounts | GrapheN_v2/src/GraphPartitioner.java:118-134 | `partitionSizes` counts the placed vertices part by part, and the sizes sum to the number placed |
| InitialPartition.PlaceChooses | GrapheN_v2/src/GraphPartitioner.java:118-134 | each vertex goes to the part chosen from the sizes left by the vertices placed before it |
| InitialPartition.InitialPartition | GrapheN_v2/src/GraphPartitioner.java:108-137 | every shuffled coarse vertex gets exactly one part, in `[0, k)` |
| Uncoarsening.FirstMin | GrapheN_v2/src/GraphPartitioner.java:291-302 | the position of the first minimal distance, or -1 exactly when there are none |
| Uncoarsening.FindCorresponding | GrapheN_v2/src/GraphPartitioner.java:288-305 | -1 for an empty coarse graph; otherwise a nearest coarse vertex, the first one at minimal distance in iteration order (the distances of lines 294-296 are the helper `Distances`) |
| Uncoarsening.Project | GrapheN_v2/src/GraphPartitioner.java:148-157 | the part of a nearest coarse vertex that has one, else the random part; in `[0, k)` |
| Uncoarsening.Uncoarsen | GrapheN_v2/src/GraphPartitioner.java:140-161 | every fine vertex gets a part in `[0, k)`: its nearest coarse vertex's part, or its random draw |
| Uncoarsening.NoFallback | GrapheN_v2/src/GraphPartitioner.java:149-151 | when the coarse partition covers a non-empty coarse graph, every fine vertex takes the part of its corresponding coarse vertex |
| Components.Explore | GrapheN_v2/src/GraphPartitioner.java:316-335 | one search returns exactly the unvisited vertices the start reaches inside the set |
| Components.FindComponents | GrapheN_v2/src/GraphPartitioner.java:307-340 | the components split the input set; each is what its start reaches and earlier ones do not hold; the first starts at `vertices[0]` |
| Components.ComponentsDisjoint | GrapheN_v2/src/GraphPartitioner.java:312-337 | no vertex lies in two components |
| Components.FirstComponent | GrapheN_v2/src/GraphPartitioner.java:312-337 | the first component holds `vertices[0]` and exactly what it reaches inside the set |
| Components.EdgesGoBack | GrapheN_v2/src/GraphPartitioner.java:327-333 | an edge inside the set leads from a component into it or an earlier one |
| Components.SymmetricComponentsClosed | GrapheN_v2/src/GraphPartitioner.java:327-333 | in a graph with both directions of every edge, each component is closed under edges inside the set |
| Components.OneWayEdgeLeaves | GrapheN_v2/src/GraphPartitioner.java:307-340 | without symmetry that fails: with only the edge `1 -> 0`, the components are `{0}` then `{1}`, and the edge leaves `{1}` |
| Components.RestOfComponents | GrapheN_v2/src/GraphPartitioner.java:186-190 | the components after the first hold exactly the set's vertices the first search does not reach |
| Connectivity.Distinct | GrapheN_v2/src/GraphPartitioner.java:193-199 | the keys of the counting map: each neighbour part once |
| Connectivity.MaxCount | GrapheN_v2/src/GraphPartitioner.java:204-205 | the largest count among the candidates, attained by one of them |
| Connectivity.Plurality | GrapheN_v2/src/GraphPartitioner.java:204-205 | the chosen part occurs among the neighbour parts, and no part occurs more often |
| Connectivity.RepairSpec | GrapheN_v2/src/GraphPartitioner.java:193-210 | a stray vertex without neighbours takes `draw % k`; otherwise a part some neighbour has, with no more common one |
| Connectivity.SweepTurn | GrapheN_v2/src/GraphPartitioner.java:188-212 | each stray vertex gets the part computed from the parts left by the repairs before it, and keeps it |
| Connectivity.RepairAllInRange | GrapheN_v2/src/GraphPartitioner.java:188-212 | the repairs keep every part in `[0, k)` |
| Connectivity.RepairOutcome | GrapheN_v2/src/GraphPartitioner.java:188-212 | a repaired vertex ends in a part one of its neighbours had before or after the repairs, or in its random part when it has no neighbours |
| Connectivity.Group | GrapheN_v2/src/GraphPartitioner.java:176-177 | `partitions.get(p)` holds exactly the vertices in part `p` |
| Connectivity.StrayList | GrapheN_v2/src/GraphPartitioner.java:186-191 | the vertices revisited for one part are exactly those its first search does not reach, each once |
| Connectivity.EnsureConnectivity | GrapheN_v2/src/GraphPartitioner.java:174-218 | the key set is unchanged; only vertices outside the first component of their original part change; each takes an adjacent vertex's part or a random part in `[0, k)` |
| Balancing.CountSizes | GrapheN_v2/src/GraphPartitioner.java:228-229 | `k` counts that tally the vertices part by part and sum to their number |
| Balancing.Largest | GrapheN_v2/src/GraphPartitioner.java:238-243 | the lowest-index part of maximal size |
| Balancing.Smallest | GrapheN_v2/src/GraphPartitioner.java:238-243 | the lowest-index part of minimal size |
| Balancing.MoveAllEffect | GrapheN_v2/src/GraphPartitioner.java:273-279 | after the moves the moved vertices are in the target part and every other vertex is where it was |
| Balancing.Border | GrapheN_v2/src/GraphPartitioner.java:251-265 | the border lists the vertices of the shuffle that are in the largest part and have a neighbour in another part |
| Balancing.BorderIsOrder | GrapheN_v2/src/GraphPartitioner.java:251-266 | with the shuffle a permutation of all vertices, the border list is a permutation of exactly the border set, as the shuffled `borderVertices` is |
| Balancing.Step | GrapheN_v2/src/GraphPartitioner.java:235-281 | a pass is balanced exactly when every size is within the limits, and then changes nothing; otherwise only border vertices of the largest part move, all to the smallest part, and at most `min(|border|, (size - avg) / 2)` of them |
| Balancing.StepKeepsSizes | GrapheN_v2/src/GraphPartitioner.java:268-279 | a pass keeps `partitionSizes` counting the parts of the map |
| Balancing.StepKeepsTotal | GrapheN_v2/src/GraphPartitioner.java:276-278 | a pass keeps the sum of `partitionSizes` |
| Balancing.BalanceLoop | GrapheN_v2/src/GraphPartitioner.java:232-282 | a finished loop keeps keys and part range; with no fuel left it reports that it did not finish |
| Balancing.BalancedWithinLimits | GrapheN_v2/src/GraphPartitioner.java:232-282 | when the loop finishes, every part's size lies within `[minSize, maxSize]` |
| Balancing.LoopStops | GrapheN_v2/src/GraphPartitioner.java:235-248 | a balanced pass ends the loop with the map unchanged |
| Balancing.LoopContinues | GrapheN_v2/src/GraphPartitioner.java:232-282 | an unbalanced pass hands its map and sizes to the next pass |
| Balancing.BalancePartitions | GrapheN_v2/src/GraphPartitioner.java:220-285 | a result keeps the key set and part range, and every part's size lies within the limits computed from `ceil(|V| / k)` |
| Pipeline.OrderForCoarse | GrapheN_v2/src/GraphPartitioner.java:111-112 | restricting a shuffle of the fine ids to the coarse ids gives a shuffle of the coarse ids |
| Pipeline.Refine | GrapheN_v2/src/GraphPartitioner.java:21-27 | coarsening, placement and projection give every fine vertex a part in `[0, k)` |
| Pipeline.Partition | GrapheN_v2/src/GraphPartitioner.java:18-33 | fails with an invalid part count exactly when `k <= 0`; any other failure is an unfinished balancing loop; a result gives every vertex a part in `[0, k)`, with every part's size within the limits |
| Writers.AssignColors | GrapheN_v2/src/GraphPartitioner.java:345-347 | succeeds exactly when every vertex has a part; then each vertex's colour is its part and nothing else changes |
| Writers.MaxCoord | GrapheN_v2/src/GraphPartitioner.java:353-358 | the running maximum from 0 bounds every coordinate and is 0 or attained |
| Writers.Extent | GrapheN_v2/src/GraphPartitioner.java:413-417 | over the whole graph: `maxX` (or `maxY`) bounds every vertex and is 0 or attained |
| Writers.MarkContents | GrapheN_v2/src/GraphPartitioner.java:424-427 | the marked cells are exactly the vertices' positions; every other cell stays 0 |
| Writers.GridShape | GrapheN_v2/src/GraphPartitioner.java:360 | the matrix is `(maxX + 1)` by `(maxY + 1)`: it holds every vertex and its last column and row are used unless it is one wide or high |
| Writers.GridOccupancy | GrapheN_v2/src/GraphPartitioner.java:424-433 | cells are 0 or 1, and cell `(x, y)` is 1 exactly when a vertex lies at `(x, y)` |
| Writers.PairCountMatches | GrapheN_v2/src/GraphPartitioner.java:448-468 | each group's `pairCount` header equals the number of pairs written after it |
| Writers.GroupPairsContents | GrapheN_v2/src/GraphPartitioner.java:457-468 | a group's pairs are exactly its vertices' out-edges plus `(id, -1)` for each vertex without neighbours |
| Writers.Groups | GrapheN_v2/src/GraphPartitioner.java:436-439 | group `b` holds exactly the vertices of colour `colorOrder[b]` |
| Writers.GroupsPartition | GrapheN_v2/src/GraphPartitioner.java:436-444 | every vertex is in exactly one group, groups are non-empty and repeat no vertex |
| Writers.WrittenGroups | GrapheN_v2/src/GraphPartitioner.java:406-444 | after the colouring loop there is one non-empty group per used part, and each vertex is in exactly the group of its part, so `partitions.size()` counts the groups written |
| Writers.SectionsEncode | GrapheN_v2/src/GraphPartitioner.java:442-468 | the written sections are the reader's block layout of the groups' pairs |
| Writers.WriteBin | GrapheN_v2/src/GraphPartitioner.java:405-471 | the save fails exactly when a vertex has no part or a coordinate does not fit the matrix |
| Writers.WriteBinParses | GrapheN_v2/src/GraphPartitioner.java:405-471 | the binary reader parses the written stream back into the matrix and the groups' pairs |
| TxtWriter.MatrixText | GrapheN_v2/src/GraphPartitioner.java:366-375 | one printed line per matrix row, holding that row's cells |
| TxtWriter.WriteTxt | GrapheN_v2/src/GraphPartitioner.java:342-404 | the save fails exactly when a vertex has no part or a coordinate does not fit the matrix |
| TxtWriter.SplitId | GrapheN_v2/src/Graph.java:147 | splitting a printed id at `-` gives one field exactly when the id is not negative |
| TxtWriter.RecordReadsBack | GrapheN_v2/src/Graph.java:145-158 | a printed record reads back as a connection with two fields exactly when both ids are not negative, and then with those ids; a `-1` record changes nothing |
| TxtWriter.ReadRows | GrapheN_v2/src/Graph.java:132-144 | reading the first `n` printed matrix lines succeeds, with `n` rows read, colour 0 and one vertex per 1-cell in row-major order |
| TxtWriter.PositionsCells | GrapheN_v2/src/GraphPartitioner.java:366-375 | the listed positions are exactly the 1-cells of the first rows |
| TxtWriter.PositionsNoDup | GrapheN_v2/src/GraphPartitioner.java:366-375 | no position is listed twice |
| TxtWriter.WriteTxtShape | GrapheN_v2/src/GraphPartitioner.java:342-404 | a written file is the 0/1 matrix marking exactly the vertices' positions, two empty lines, then each group's records, one printed `from - to` line each (the helper `RecordLines`, lines 394-398), followed by an empty line |
| TxtWriter.WriteTxtReadsPositions | GrapheN_v2/src/Graph.java:123-144 | the text reader, fed the written matrix lines, builds one uncoloured vertex with no neighbours per saved position, numbered from 0, with no two at one position and none elsewhere; two empty lines follow |
| TxtWriter.WriteTxtGroupColour | GrapheN_v2/src/Graph.java:125-158 | while reading the records of written group `b`, the reader's colour is `b + 2` |
| TxtWriter.BlanksReadBack | GrapheN_v2/src/Graph.java:125-127 | the empty printed lines are exactly the lines the reader counts as blank |
| TxtWriter.GroupTextBlanks | GrapheN_v2/src/GraphPartitioner.java:387-402 | the group text holds one empty line per group |

## Left out

- The Swing classes `GraphPanel`, `GraphPartitioningPanel`, `GraphVisualizerPanel` and
  `MainFrame`: user interface, rendering and file dialogs.
- File I/O:
  - Readers take the file's lines as already trimmed, classified and split fields
    (`TxtLine`, `seq<seq<Field>>`), or the stream as ints.
  - Writers produce printed lines (`TextLine`) or ints.
  - The regular expressions and the `toString` of numbers are not modelled character by
    character.
  - `Integer.reverseBytes` only fixes the byte order, and it is its own inverse, so the
    int-level layout is modelled and the byte order is left out.
- `Graph.loadTXTGraph` (`Graph.java:66-114`): the program never calls it, and its layout
  uses `Math.round(Math.sqrt(…))` in floating point.
- BinLoader.LoadBin: the model parses the whole stream before it replays the blocks. When
  a stream both names a missing vertex and ends early in a later block, the model reports
  `Truncated` where the source throws its `NullPointerException` first. Both fail; the
  `LoadError` variant need not name the first exception the source would throw.
- Floating point:
  - `maxSize` and `minSize` are the casts `(int) (avg * (1 ± balanceFactor))`. They are
    given as functions `maxOf` and `minOf` of the average.
  - `Math.ceil((double) n / k)` is computed exactly as `CeilDiv`.
  - The Euclidean distance is replaced by the squared distance, which has the same argmin
    but ignores rounding in `Math.pow` and `Math.sqrt`.
- Balancing.BalanceLoop: the `while (!balanced)` loop need not terminate. The model runs
  one pass per given border shuffle and reports `BalanceIncomplete` when the shuffles run
  out, so a run that never balances is not modelled beyond its fuel.
- Randomness and hash order:
  - `Random`, `Collections.shuffle` and `HashMap`/`HashSet` iteration orders are
    parameters.
  - No particular order, nor the `Collections.max` tie-break, is proved.
- `Graph.java` does not define `getVertices`, `getNeighbors(id)` or `getVertexCount`,
  which `GraphPartitioner.java` calls. The model gives them their evident meaning: the key
  set, the neighbour list and `|g|`. `getWierzcholki` (`Graph.java:206-208`) returns the
  map itself.
- Connectivity.EnsureConnectivity: adjacency counts use the part map as it is updated
  during the repair, as the source does. The contract states the outcome per vertex
  (an adjacent vertex's part before or after the repairs). It does not say which of the
  two it is.
- Coarsening.Coarsen: the contract does not state how many fine vertices share a coarse
  vertex. Because a single vertex is never marked matched, a later pairing can take it
  over, and a coarse vertex can end up with no fine vertex.
- Pipeline.Partition: `k <= 0` is reported as `InvalidPartCount`; the model does not say
  where the source throws. Coarsening never reads `k`. For `k < 0`,
  `balancedInitialPartition` throws at `new int[targetPartitions]`
  (`GraphPartitioner.java:116`). For `k == 0` and a non-empty graph it throws at
  `partitionSizes[chosenPart]++` (`GraphPartitioner.java:133`). For `k == 0` and an empty
  graph the first stages run through, and `balancePartitions` throws at
  `partitionSizes[largestPart]` (`GraphPartitioner.java:246`).
