/** `GraphPartitioner.partition`: coarsen, place the coarse vertices, project the placement
    back onto the fine graph, repair connectivity and balance the part sizes. Every random
    choice and every hash-map iteration order of one run is an explicit parameter. */
module Pipeline {
  import opened Wrappers
  import opened JavaInt
  import opened Seqs
  import opened Graphs
  import opened Parts
  import Coarsening
  import InitialPartition
  import Uncoarsening
  import Connectivity
  import Balancing

  /** Why `partition` gives no result: a part count below one makes the source index or
      allocate an array of that size and throw; an unbalanced result that the balancing
      loop did not finish within its fuel is the other way out. */
  datatype PartitionError = InvalidPartCount | Unfinished

  /** The random draws and iteration orders one run of the partitioner uses.
      - `coarsenOrder`, `pick`: the shuffle and `nextInt` draws of the matching pass;
      - `fineOrder`: the iteration order of the fine graph's values;
      - `initialPriority`: the shuffle of the coarse vertices, given as an order of all fine
        ids from which the coarse ids are taken in turn;
      - `coarsePriority`: likewise, the iteration order of the coarse graph's values;
      - `projectDraw`: the random part of a fine vertex with no partitioned coarse vertex;
      - `keyOrder`, `setOrder`, `tie`, `repairDraw`: the orders and draws of the
        connectivity repair;
      - `shuffles`: one border shuffle per round of the balancing loop. */
  datatype Choices = Choices(
    coarsenOrder: seq<int>, pick: int -> nat, fineOrder: seq<int>,
    initialPriority: seq<int>, coarsePriority: seq<int>, projectDraw: int -> nat,
    keyOrder: seq<int>, setOrder: seq<int>, tie: int -> nat, repairDraw: int -> nat,
    shuffles: seq<seq<int>>)

  /** Every order, and every border shuffle, lists the fine vertices once each. */
  predicate ValidChoices(g: Graph, ch: Choices) {
    && IsOrderOf(ch.coarsenOrder, g.Keys)
    && IsOrderOf(ch.fineOrder, g.Keys)
    && IsOrderOf(ch.initialPriority, g.Keys)
    && IsOrderOf(ch.coarsePriority, g.Keys)
    && IsOrderOf(ch.keyOrder, g.Keys)
    && IsOrderOf(ch.setOrder, g.Keys)
    && forall i :: 0 <= i < |ch.shuffles| ==> IsOrderOf(ch.shuffles[i], g.Keys)
  }

  /** The entries of `priority` that are vertices of `c`, in the order of `priority`. */
  function OrderFor(priority: seq<int>, c: Graph): seq<int> {
    Select(priority, x => x in c)
  }

  /** Taking the coarse ids out of an order of the fine ids gives an order of the coarse
      ids. */
  lemma OrderForCoarse(priority: seq<int>, g: Graph, c: Graph)
    requires IsOrderOf(priority, g.Keys) && c.Keys <= g.Keys
    ensures IsOrderOf(OrderFor(priority, c), c.Keys)
  {
    SelectOrder(priority, g.Keys, x => x in c);
    assert (set x | x in g.Keys && x in c) == c.Keys;
  }

  /** `coarsenGraph`, `balancedInitialPartition` and `uncoarsenAndRefine` in turn: every
      fine vertex gets a part in `[0, k)`. */
  method Refine(g: Graph, k: int, maxOf: int -> int, ch: Choices) returns (part: map<int, int>)
    requires WellFormed(g) && ValidChoices(g, ch) && k > 0
    ensures part.Keys == g.Keys && InRange(part, k)
  {
    var (coarse, _) := Coarsening.Coarsen(g, ch.coarsenOrder, ch.pick, ch.fineOrder);
    Coarsening.CoarsenWellFormed(g, ch.coarsenOrder, ch.pick, ch.fineOrder);
    OrderForCoarse(ch.initialPriority, g, coarse);
    OrderForCoarse(ch.coarsePriority, g, coarse);
    var coarsePart := InitialPartition.InitialPartition(OrderFor(ch.initialPriority, coarse), k, maxOf(CeilDiv(|coarse|, k)));
    part := Uncoarsening.Uncoarsen(g, coarse, coarsePart, OrderFor(ch.coarsePriority, coarse), k, ch.projectDraw);
  }

  /** `partition()`, with `maxOf(avg)` and `minOf(avg)` standing for the casts
      `(int) (avg * (1 + balanceFactor))` and `(int) (avg * (1 - balanceFactor))`.
      A result assigns every vertex of the graph a part in `[0, k)`, and every part's size
      lies between the limits the balancing loop checks. */
  method Partition(g: Graph, k: int, maxOf: int -> int, minOf: int -> int, ch: Choices)
    returns (r: Result<map<int, int>, PartitionError>)
    requires WellFormed(g) && ValidChoices(g, ch)
    ensures k <= 0 <==> r == Failure(InvalidPartCount)
    ensures r.Failure? && k > 0 ==> r.error == Unfinished
    ensures r.Success? ==> r.value.Keys == g.Keys && InRange(r.value, k)
    ensures r.Success? ==> forall p :: 0 <= p < k ==>
      minOf(CeilDiv(|g|, k)) <= Tally(r.value, ch.keyOrder, p) <= maxOf(CeilDiv(|g|, k))
  {
    if k <= 0 {
      return Failure(InvalidPartCount);
    }
    var fine := Refine(g, k, maxOf, ch);
    var repaired := Connectivity.EnsureConnectivity(g, fine, k, ch.keyOrder, ch.setOrder, ch.tie, ch.repairDraw);
    var balanced := Balancing.BalancePartitions(g, repaired, k, maxOf, minOf, ch.keyOrder, ch.shuffles);
    if balanced.Failure? {
      return Failure(Unfinished);
    }
    return Success(balanced.value);
  }
}
