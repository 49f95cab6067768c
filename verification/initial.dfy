/** `GraphPartitioner.balancedInitialPartition`: each coarse vertex, in shuffled order, goes
    to the smallest part that is still below the size cap. The shuffle is the parameter
    `order`; the cap `maxSize` stands for `(int) (avgSize * (1 + balanceFactor))`. */
module InitialPartition {
  import opened JavaInt
  import opened Seqs
  import opened Parts

  /** Part `p` can take the next vertex: it is below `maxSize`, and below `Integer.MAX_VALUE`,
      the bound the scan starts from. */
  predicate Open(sizes: seq<int>, maxSize: int, p: int)
    requires 0 <= p < |sizes|
  {
    sizes[p] < maxSize && sizes[p] < IntMax
  }

  /** Among the open parts of `sizes[..n]`, `p` has the minimal size and no lower index has
      that size. */
  ghost predicate FirstSmallestOpen(sizes: seq<int>, maxSize: int, n: int, p: int) {
    && 0 <= p < n <= |sizes|
    && Open(sizes, maxSize, p)
    && (forall q :: 0 <= q < n && Open(sizes, maxSize, q) ==> sizes[p] <= sizes[q])
    && (forall q :: 0 <= q < p && Open(sizes, maxSize, q) ==> sizes[p] < sizes[q])
  }

  /** Some part among `0..n-1` is open. */
  ghost predicate AnyOpen(sizes: seq<int>, maxSize: int, n: int)
    requires n <= |sizes|
  {
    exists q :: 0 <= q < n && Open(sizes, maxSize, q)
  }

  /** The scan over parts `0..n-1`, as `(chosenPart, minSize)`. */
  function Scan(sizes: seq<int>, maxSize: int, n: nat): (r: (nat, int))
    requires n <= |sizes|
    ensures AnyOpen(sizes, maxSize, n) ==> FirstSmallestOpen(sizes, maxSize, n, r.0) && r.1 == sizes[r.0]
    ensures !AnyOpen(sizes, maxSize, n) ==> r == (0, IntMax)
  {
    if n == 0 then (0, IntMax)
    else
      var prev := Scan(sizes, maxSize, n - 1);
      var p := n - 1;
      assert prev.1 <= IntMax;
      assert AnyOpen(sizes, maxSize, n) <==> AnyOpen(sizes, maxSize, n - 1) || Open(sizes, maxSize, p);
      if sizes[p] < prev.1 && sizes[p] < maxSize then
        (p, sizes[p])
      else prev
  }

  /** The part the next vertex goes to: the lowest-index smallest open part, or part 0 when
      every part has reached the cap. */
  function ChoosePart(sizes: seq<int>, maxSize: int): (p: nat)
    ensures |sizes| > 0 ==> p < |sizes|
    ensures AnyOpen(sizes, maxSize, |sizes|) ==> FirstSmallestOpen(sizes, maxSize, |sizes|, p)
    ensures !AnyOpen(sizes, maxSize, |sizes|) ==> p == 0
  {
    Scan(sizes, maxSize, |sizes|).0
  }

  /** The `partition` map and the `partitionSizes` array after placing `order`. */
  datatype Placement = Placement(part: map<int, int>, sizes: seq<int>)

  /** The placement loop over a prefix of the shuffled vertices. `k < 0` makes the source's
      `new int[k]` throw, and with `k == 0` the first placement indexes an empty array. */
  function Place(order: seq<int>, k: int, maxSize: int): (r: Placement)
    requires k >= 0 && (k == 0 ==> |order| == 0)
    requires NoDup(order)
    ensures |r.sizes| == k
    ensures forall v :: v in r.part <==> v in order
    ensures InRange(r.part, k)
  {
    if |order| == 0 then Placement(map[], Zeros(k))
    else
      var init := order[..|order| - 1];
      var v := order[|order| - 1];
      NoDupInit(order);
      assert forall w :: w in order <==> w in init || w == v;
      Put(Place(init, k, maxSize), v, maxSize)
  }

  /** One iteration of the loop: `v` joins the chosen part, whose size grows by one. */
  function Put(prev: Placement, v: int, maxSize: int): (r: Placement)
    requires |prev.sizes| > 0
    ensures |r.sizes| == |prev.sizes|
    ensures r.part.Keys == prev.part.Keys + {v}
    ensures forall w :: w in prev.part && w != v ==> r.part[w] == prev.part[w]
    ensures r.part[v] == ChoosePart(prev.sizes, maxSize)
  {
    var c := ChoosePart(prev.sizes, maxSize);
    Placement(prev.part[v := c], prev.sizes[c := prev.sizes[c] + 1])
  }

  /** The `partitionSizes` array counts, part by part, the vertices placed so far, and the
      sizes add up to the number of vertices placed. */
  lemma {:induction false} PlaceCounts(order: seq<int>, k: int, maxSize: int)
    requires k >= 0 && (k == 0 ==> |order| == 0)
    requires NoDup(order)
    ensures var r := Place(order, k, maxSize);
      SizesMatch(r.part, order, r.sizes) && Sum(r.sizes) == |order|
  {
    if |order| > 0 {
      var init := order[..|order| - 1];
      NoDupInit(order);
      PlaceCounts(init, k, maxSize);
      PlaceCountsStep(order, k, maxSize);
    }
  }

  /** The counts survive placing the last vertex of `order`. */
  lemma PlaceCountsStep(order: seq<int>, k: int, maxSize: int)
    requires k >= 0 && (k == 0 ==> |order| == 0)
    requires NoDup(order) && |order| > 0
    requires NoDup(order[..|order| - 1])
    requires var prev := Place(order[..|order| - 1], k, maxSize);
      SizesMatch(prev.part, order[..|order| - 1], prev.sizes) && Sum(prev.sizes) == |order| - 1
    ensures var r := Place(order, k, maxSize);
      SizesMatch(r.part, order, r.sizes) && Sum(r.sizes) == |order|
  {
    var prev := Place(order[..|order| - 1], k, maxSize);
    var v := order[|order| - 1];
    assert Place(order, k, maxSize) == Put(prev, v, maxSize);
    PlaceStep(order, k, prev, maxSize);
  }

  /** Placing the last vertex of `order` keeps the counts right. */
  lemma PlaceStep(order: seq<int>, k: int, prev: Placement, maxSize: int)
    requires NoDup(order) && |order| > 0 && k > 0
    requires |prev.sizes| == k
    requires forall v :: v in prev.part <==> v in order[..|order| - 1]
    requires SizesMatch(prev.part, order[..|order| - 1], prev.sizes)
    requires Sum(prev.sizes) == |order| - 1
    ensures var r := Put(prev, order[|order| - 1], maxSize);
      && (forall w :: w in order ==> w in r.part)
      && SizesMatch(r.part, order, r.sizes)
      && Sum(r.sizes) == |order|
  {
    var init := order[..|order| - 1];
    var v := order[|order| - 1];
    var c := ChoosePart(prev.sizes, maxSize);
    var r := Put(prev, v, maxSize);
    assert r == Placement(prev.part[v := c], prev.sizes[c := prev.sizes[c] + 1]);
    assert forall w :: w in order <==> w in init || w == v;
    NoDupInit(order);
    forall p | 0 <= p < k
      ensures r.sizes[p] == Tally(r.part, order, p)
    {
      TallyFrame(prev.part, init, v, c, p);
    }
    SumUpdate(prev.sizes, c, 1);
  }

  /** The last vertex of `order` goes to the part chosen from the sizes before it. */
  lemma PlaceLast(order: seq<int>, k: int, maxSize: int)
    requires k >= 0 && (k == 0 ==> |order| == 0)
    requires NoDup(order) && |order| > 0
    ensures NoDup(order[..|order| - 1])
    ensures Place(order, k, maxSize).part[order[|order| - 1]] ==
      ChoosePart(Place(order[..|order| - 1], k, maxSize).sizes, maxSize)
  {
    NoDupInit(order);
  }

  /** Placing the last vertex leaves the earlier vertices where they were. */
  lemma PlaceKeeps(order: seq<int>, k: int, maxSize: int, i: nat)
    requires k >= 0 && (k == 0 ==> |order| == 0)
    requires NoDup(order) && i < |order| - 1
    requires var init := order[..|order| - 1];
      && NoDup(init) && NoDup(init[..i])
      && Place(init, k, maxSize).part[init[i]] == ChoosePart(Place(init[..i], k, maxSize).sizes, maxSize)
    ensures NoDup(order[..i])
    ensures Place(order, k, maxSize).part[order[i]] == ChoosePart(Place(order[..i], k, maxSize).sizes, maxSize)
  {
    var init := order[..|order| - 1];
    var w := order[i];
    PrefixOfInit(order, i);
    assert init[i] == w;
    PlaceFrame(order, k, maxSize, w);
  }

  /** Placing the last vertex of `order` leaves every other placed vertex where it was. */
  lemma PlaceFrame(order: seq<int>, k: int, maxSize: int, w: int)
    requires k >= 0 && (k == 0 ==> |order| == 0)
    requires NoDup(order) && |order| > 0
    requires w in order[..|order| - 1]
    ensures NoDup(order[..|order| - 1])
    ensures Place(order, k, maxSize).part[w] == Place(order[..|order| - 1], k, maxSize).part[w]
  {
    NoDupInit(order);
  }

  /** Each vertex goes to the part `ChoosePart` picks from the sizes left by the vertices
      placed before it. */
  lemma {:induction false} PlaceChooses(order: seq<int>, k: int, maxSize: int, i: nat)
    requires k >= 0 && (k == 0 ==> |order| == 0)
    requires NoDup(order)
    requires i < |order|
    ensures NoDup(order[..i])
    ensures Place(order, k, maxSize).part[order[i]] == ChoosePart(Place(order[..i], k, maxSize).sizes, maxSize)
  {
    if i == |order| - 1 {
      PlaceLast(order, k, maxSize);
    } else {
      var init := order[..|order| - 1];
      NoDupInit(order);
      PlaceChooses(init, k, maxSize, i);
      PlaceKeeps(order, k, maxSize, i);
    }
  }

  /** `balancedInitialPartition` over the shuffled key list `order`. */
  function InitialPartition(order: seq<int>, k: int, maxSize: int): (r: map<int, int>)
    requires k >= 0 && (k == 0 ==> |order| == 0)
    requires NoDup(order)
    ensures forall v :: v in r <==> v in order
    ensures InRange(r, k)
  {
    Place(order, k, maxSize).part
  }
}
