/** Partitions as the partitioner holds them: a map from vertex id to part index, and the
    `partitionSizes` array as a sequence indexed by part. */
module Parts {
  import opened Seqs

  /** Number of the vertices in `vs` that `part` places in part `p`. */
  function Tally(part: map<int, int>, vs: seq<int>, p: int): (n: nat)
    requires forall v :: v in vs ==> v in part
    ensures n <= |vs|
  {
    if |vs| == 0 then 0
    else
      var last := vs[|vs| - 1];
      assert last in vs;
      Tally(part, vs[..|vs| - 1], p) + (if part[last] == p then 1 else 0)
  }

  /** `k` parts, all empty: `new int[k]`. */
  function Zeros(k: nat): (s: seq<int>)
    ensures |s| == k && Sum(s) == 0
    ensures forall p :: 0 <= p < k ==> s[p] == 0
  {
    if k == 0 then [] else
      var s := Zeros(k - 1) + [0];
      assert s[..k - 1] == Zeros(k - 1);
      s
  }

  /** Every part index that `part` uses over `vs` is in `[0, k)`. */
  predicate InRange(part: map<int, int>, k: int) {
    forall v :: v in part ==> 0 <= part[v] < k
  }

  /** `sizes` counts, part by part, the vertices of `vs`. */
  ghost predicate SizesMatch(part: map<int, int>, vs: seq<int>, sizes: seq<int>)
    requires forall v :: v in vs ==> v in part
  {
    forall p :: 0 <= p < |sizes| ==> sizes[p] == Tally(part, vs, p)
  }

  /** Changing the part of a vertex outside `vs` does not change the counts over `vs`. */
  lemma {:induction false} TallyFrame(part: map<int, int>, vs: seq<int>, v: int, c: int, p: int)
    requires forall w :: w in vs ==> w in part
    requires v !in vs
    ensures Tally(part[v := c], vs, p) == Tally(part, vs, p)
  {
    if |vs| > 0 {
      TallyFrame(part, vs[..|vs| - 1], v, c, p);
    }
  }

  /** Moving vertex `v` of `vs` from part `a` to part `b` moves one unit of count. */
  lemma {:induction false} TallyMove(part: map<int, int>, vs: seq<int>, v: int, b: int, p: int)
    requires forall w :: w in vs ==> w in part
    requires NoDup(vs) && v in vs
    ensures Tally(part[v := b], vs, p) ==
      Tally(part, vs, p) - (if part[v] == p then 1 else 0) + (if b == p then 1 else 0)
  {
    var init := vs[..|vs| - 1];
    var last := vs[|vs| - 1];
    assert NoDup(init) by {
      forall i, j | 0 <= i < j < |init| ensures init[i] != init[j] {
        assert init[i] == vs[i] && init[j] == vs[j];
      }
    }
    if last == v {
      assert v !in init by {
        forall i | 0 <= i < |init| ensures init[i] != v {
          assert init[i] == vs[i];
        }
      }
      TallyFrame(part, init, v, b, p);
    } else {
      assert v in init by {
        var i :| 0 <= i < |vs| && vs[i] == v;
        assert i < |vs| - 1;
        assert init[i] == v;
      }
      TallyMove(part, init, v, b, p);
    }
  }
}
