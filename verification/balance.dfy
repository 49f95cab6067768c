/** `GraphPartitioner.balancePartitions`: while some part is above `maxSize` or below
    `minSize`, move border vertices of the largest part to the smallest one. One pass of the
    loop is `Step`; the loop itself is `BalanceLoop`, which takes one shuffle per pass and
    reports `BalanceIncomplete` when it runs out of them. `maxSize` and `minSize` stand for
    `(int) (avgSize * (1 ± balanceFactor))`. */
module Balancing {
  import opened Wrappers
  import opened JavaInt
  import opened Seqs
  import opened Graphs
  import opened Parts

  /** The counting loop `partition.values().forEach(p -> partitionSizes[p]++)`, over the
      vertices `vs`. */
  function CountSizes(part: map<int, int>, vs: seq<int>, k: nat): (sizes: seq<int>)
    requires forall v :: v in vs ==> v in part
    requires InRange(part, k)
    ensures |sizes| == k
    ensures SizesMatch(part, vs, sizes)
    ensures Sum(sizes) == |vs|
  {
    if |vs| == 0 then Zeros(k)
    else
      var v := vs[|vs| - 1];
      assert v in vs;
      var prev := CountSizes(part, vs[..|vs| - 1], k);
      var p := part[v];
      SumUpdate(prev, p, 1);
      prev[p := prev[p] + 1]
  }

  /** The lowest-index part of maximal size. */
  function Largest(sizes: seq<int>): (l: nat)
    requires |sizes| > 0
    ensures l < |sizes|
    ensures forall q :: 0 <= q < |sizes| ==> sizes[q] <= sizes[l]
    ensures forall q :: 0 <= q < l ==> sizes[q] < sizes[l]
  {
    if |sizes| == 1 then 0
    else
      var l := Largest(sizes[..|sizes| - 1]);
      if sizes[|sizes| - 1] > sizes[l] then |sizes| - 1 else l
  }

  /** The lowest-index part of minimal size. */
  function Smallest(sizes: seq<int>): (s: nat)
    requires |sizes| > 0
    ensures s < |sizes|
    ensures forall q :: 0 <= q < |sizes| ==> sizes[s] <= sizes[q]
    ensures forall q :: 0 <= q < s ==> sizes[s] < sizes[q]
  {
    if |sizes| == 1 then 0
    else
      var s := Smallest(sizes[..|sizes| - 1]);
      if sizes[|sizes| - 1] < sizes[s] then |sizes| - 1 else s
  }

  /** `v` is in part `p` and has a neighbour in another part. */
  predicate OnBorder(g: Graph, part: map<int, int>, p: int, v: int) {
    && v in g && v in part && part[v] == p
    && exists n :: n in g[v].neighbors && n in part && part[n] != p
  }

  /** Moving the vertices `vs`, one after another, from part `from` to part `to`. */
  function MoveAll(part: map<int, int>, sizes: seq<int>, vs: seq<int>, from: nat, to: nat): (r: (map<int, int>, seq<int>))
    requires from < |sizes| && to < |sizes|
    requires forall v :: v in vs ==> v in part
    ensures r.0.Keys == part.Keys
    ensures |r.1| == |sizes|
  {
    if |vs| == 0 then (part, sizes)
    else
      var v := vs[|vs| - 1];
      assert v in vs;
      MoveOne(MoveAll(part, sizes, vs[..|vs| - 1], from, to), v, from, to)
  }

  /** One move: `partition.put(v, to)`, `partitionSizes[from]--`, `partitionSizes[to]++`. */
  function MoveOne(st: (map<int, int>, seq<int>), v: int, from: nat, to: nat): (r: (map<int, int>, seq<int>))
    requires from < |st.1| && to < |st.1|
    ensures r.0 == st.0[v := to] && |r.1| == |st.1|
  {
    var s1 := st.1[from := st.1[from] - 1];
    (st.0[v := to], s1[to := s1[to] + 1])
  }

  /** After the moves every vertex of `vs` is in part `to` and every other vertex where it
      was. */
  lemma {:induction false} MoveAllEffect(part: map<int, int>, sizes: seq<int>, vs: seq<int>, from: nat, to: nat)
    requires from < |sizes| && to < |sizes|
    requires forall v :: v in vs ==> v in part
    ensures var r := MoveAll(part, sizes, vs, from, to);
      forall v :: v in part ==> r.0[v] == if v in vs then to else part[v]
  {
    if |vs| > 0 {
      var v := vs[|vs| - 1];
      var init := vs[..|vs| - 1];
      assert forall w :: w in init ==> w in vs;
      MoveAllEffect(part, sizes, init, from, to);
      forall w | w in part && w != v
        ensures w in vs <==> w in init
      {
        InInit(vs, w);
      }
    }
  }

  /** An element other than the last one is in `s` exactly when it is in the rest. */
  lemma InInit(s: seq<int>, w: int)
    requires |s| > 0 && w != s[|s| - 1]
    ensures w in s <==> w in s[..|s| - 1]
  {
    if w in s {
      var i :| 0 <= i < |s| && s[i] == w;
      assert s[..|s| - 1][i] == w;
    }
  }

  /** Moving vertices that all start in `from` keeps the sizes matching the map. */
  lemma {:induction false} MoveAllKeepsSizes(part: map<int, int>, sizes: seq<int>, vs: seq<int>, from: nat, to: nat, keys: seq<int>)
    requires from < |sizes| && to < |sizes|
    requires forall v :: v in vs ==> v in part && part[v] == from
    requires NoDup(vs) && NoDup(keys)
    requires forall v :: v in keys <==> v in part
    requires SizesMatch(part, keys, sizes)
    ensures var r := MoveAll(part, sizes, vs, from, to);
      SizesMatch(r.0, keys, r.1)
  {
    if |vs| > 0 {
      var init := vs[..|vs| - 1];
      NoDupInit(vs);
      assert forall w :: w in init ==> w in vs;
      MoveAllKeepsSizes(part, sizes, init, from, to, keys);
      MoveLastKeepsSizes(part, sizes, vs, from, to, keys);
    }
  }

  /** The last move of `MoveAll` keeps the sizes matching the map. */
  lemma MoveLastKeepsSizes(part: map<int, int>, sizes: seq<int>, vs: seq<int>, from: nat, to: nat, keys: seq<int>)
    requires from < |sizes| && to < |sizes|
    requires forall v :: v in vs ==> v in part && part[v] == from
    requires |vs| > 0 && NoDup(vs) && NoDup(keys)
    requires forall v :: v in keys <==> v in part
    requires var prev := MoveAll(part, sizes, vs[..|vs| - 1], from, to);
      SizesMatch(prev.0, keys, prev.1)
    ensures var r := MoveAll(part, sizes, vs, from, to);
      SizesMatch(r.0, keys, r.1)
  {
    var v := vs[|vs| - 1];
    NoDupInit(vs);
    assert v in vs;
    var init := vs[..|vs| - 1];
    assert forall w :: w in init ==> w in vs;
    MoveAllEffect(part, sizes, init, from, to);
    MoveOneKeepsSizes(MoveAll(part, sizes, init, from, to), keys, v, from, to);
  }

  /** Moving one vertex from part `from` to part `to` keeps the sizes matching the map. */
  lemma MoveOneKeepsSizes(st: (map<int, int>, seq<int>), keys: seq<int>, v: int, from: nat, to: nat)
    requires from < |st.1| && to < |st.1|
    requires NoDup(keys) && forall w :: w in keys <==> w in st.0
    requires v in st.0 && st.0[v] == from
    requires SizesMatch(st.0, keys, st.1)
    ensures var r := MoveOne(st, v, from, to);
      SizesMatch(r.0, keys, r.1)
  {
    var r := MoveOne(st, v, from, to);
    forall p | 0 <= p < |st.1|
      ensures r.1[p] == Tally(r.0, keys, p)
    {
      TallyMove(st.0, keys, v, to, p);
    }
  }

  /** The state after one pass of the loop. */
  datatype Pass = Pass(part: map<int, int>, sizes: seq<int>, balanced: bool)

  /** The border of the largest part, in shuffled order. */
  function Border(g: Graph, part: map<int, int>, p: int, shuffle: seq<int>): (b: seq<int>)
    ensures forall v :: v in b <==> v in shuffle && OnBorder(g, part, p, v)
  {
    Select(shuffle, v => OnBorder(g, part, p, v))
  }

  /** With the shuffle a permutation of all the vertices, the border list is a permutation of
      the border of part `p`: the source collects that set and shuffles it. */
  lemma BorderIsOrder(g: Graph, part: map<int, int>, p: int, shuffle: seq<int>)
    requires IsOrderOf(shuffle, part.Keys)
    ensures IsOrderOf(Border(g, part, p, shuffle), set v | v in part && OnBorder(g, part, p, v))
  {
    SelectOrder(shuffle, part.Keys, v => OnBorder(g, part, p, v));
  }

  /** The vertices of `order` whose part differs between `before` and `after`. */
  function Changed(before: map<int, int>, after: map<int, int>, order: seq<int>): (c: seq<int>)
    ensures forall v :: v in c <==> v in order && v in before && v in after && after[v] != before[v]
  {
    if |order| == 0 then []
    else
      var v := order[|order| - 1];
      assert forall w :: w in order <==> w in order[..|order| - 1] || w == v;
      Changed(before, after, order[..|order| - 1]) +
        (if v in before && v in after && after[v] != before[v] then [v] else [])
  }

  lemma {:induction false} ChangedNoDup(before: map<int, int>, after: map<int, int>, order: seq<int>)
    requires NoDup(order)
    ensures NoDup(Changed(before, after, order))
  {
    if |order| > 0 {
      var init := order[..|order| - 1];
      var v := order[|order| - 1];
      assert NoDup(init) by {
        forall i, j | 0 <= i < j < |init| ensures init[i] != init[j] {
          assert init[i] == order[i] && init[j] == order[j];
        }
      }
      assert v !in init by {
        forall i | 0 <= i < |init| ensures init[i] != v {
          assert init[i] == order[i];
        }
      }
      ChangedNoDup(before, after, init);
      NoDupAppend(Changed(before, after, init), if v in before && v in after && after[v] != before[v] then [v] else []);
    }
  }

  lemma {:induction false} ChangedNone(m: map<int, int>, order: seq<int>)
    ensures Changed(m, m, order) == []
  {
    if |order| > 0 {
      ChangedNone(m, order[..|order| - 1]);
    }
  }

  function Min(a: int, b: int): int {
    if a <= b then a else b
  }

  /** A loop bound as a count of iterations: `for (i = 0; i < n; i++)` runs no times for
      negative `n`. */
  function NonNeg(n: int): nat {
    if n > 0 then n else 0
  }

  /** The moving half of a pass: the first `(size[largest] - avg) / 2` border vertices of the
      largest part, at most all of them, go to the smallest part. */
  function MoveBorder(g: Graph, part: map<int, int>, sizes: seq<int>, avg: int, shuffle: seq<int>, largest: nat, smallest: nat): (r: (map<int, int>, seq<int>))
    requires largest < |sizes| && smallest < |sizes| && InRange(part, |sizes|)
    requires IsOrderOf(shuffle, part.Keys)
    ensures r.0.Keys == part.Keys && |r.1| == |sizes|
    ensures InRange(r.0, |sizes|)
    ensures forall v :: v in part && r.0[v] != part[v] ==> OnBorder(g, part, largest, v) && r.0[v] == smallest
    ensures |Changed(part, r.0, shuffle)| <= NonNeg(Min(|Border(g, part, largest, shuffle)|, Div(sizes[largest] - avg, 2)))
  {
    var border := Border(g, part, largest, shuffle);
    var count := Min(|border|, Div(sizes[largest] - avg, 2));
    var moved := if count > 0 then border[..count] else [];
    assert forall v :: v in moved ==> v in border;
    var r := MoveAll(part, sizes, moved, largest, smallest);
    MoveAllEffect(part, sizes, moved, largest, smallest);
    MovedAreFew(g, part, shuffle, largest, border, moved, r.0, count);
    r
  }

  /** One pass of the `while (!balanced)` loop. */
  function Step(g: Graph, part: map<int, int>, sizes: seq<int>, avg: int, maxSize: int, minSize: int, shuffle: seq<int>): (r: Pass)
    requires |sizes| > 0 && InRange(part, |sizes|)
    requires IsOrderOf(shuffle, part.Keys)
    ensures r.part.Keys == part.Keys && |r.sizes| == |sizes|
    ensures InRange(r.part, |sizes|)
    ensures r.balanced <==> forall p :: 0 <= p < |sizes| ==> minSize <= sizes[p] <= maxSize
    ensures r.balanced ==> r.part == part && r.sizes == sizes
    ensures forall v :: v in part && r.part[v] != part[v] ==>
      OnBorder(g, part, Largest(sizes), v) && r.part[v] == Smallest(sizes)
    ensures |Changed(part, r.part, shuffle)| <=
      NonNeg(Min(|Border(g, part, Largest(sizes), shuffle)|, Div(sizes[Largest(sizes)] - avg, 2)))
  {
    var largest := Largest(sizes);
    var smallest := Smallest(sizes);
    if sizes[largest] > maxSize || sizes[smallest] < minSize then
      if |Border(g, part, largest, shuffle)| > 0 then
        var r := MoveBorder(g, part, sizes, avg, shuffle, largest, smallest);
        Pass(r.0, r.1, false)
      else
        ChangedNone(part, shuffle);
        Pass(part, sizes, false)
    else
      ChangedNone(part, shuffle);
      Pass(part, sizes, true)
  }

  /** Moving border vertices keeps `sizes` counting the parts of the map. */
  lemma MoveBorderKeepsSizes(g: Graph, part: map<int, int>, sizes: seq<int>, avg: int, shuffle: seq<int>, largest: nat, smallest: nat, keys: seq<int>)
    requires largest < |sizes| && smallest < |sizes| && InRange(part, |sizes|)
    requires IsOrderOf(shuffle, part.Keys) && NoDup(keys)
    requires forall v :: v in keys <==> v in part
    requires SizesMatch(part, keys, sizes)
    ensures var r := MoveBorder(g, part, sizes, avg, shuffle, largest, smallest);
      SizesMatch(r.0, keys, r.1)
  {
    var border := Border(g, part, largest, shuffle);
    var count := Min(|border|, Div(sizes[largest] - avg, 2));
    var moved := if count > 0 then border[..count] else [];
    SelectNoDup(shuffle, v => OnBorder(g, part, largest, v));
    assert NoDup(moved) by {
      if count > 0 {
        forall i, j | 0 <= i < j < |moved| ensures moved[i] != moved[j] {
          assert moved[i] == border[i] && moved[j] == border[j];
        }
      }
    }
    assert forall v :: v in moved ==> v in border;
    MoveAllKeepsSizes(part, sizes, moved, largest, smallest, keys);
  }

  /** A pass keeps `sizes` counting the parts of the map. */
  lemma StepKeepsSizes(g: Graph, part: map<int, int>, sizes: seq<int>, avg: int, maxSize: int, minSize: int, shuffle: seq<int>, keys: seq<int>)
    requires |sizes| > 0 && InRange(part, |sizes|)
    requires IsOrderOf(shuffle, part.Keys) && NoDup(keys)
    requires forall v :: v in keys <==> v in part
    requires SizesMatch(part, keys, sizes)
    ensures var r := Step(g, part, sizes, avg, maxSize, minSize, shuffle);
      SizesMatch(r.part, keys, r.sizes)
  {
    var largest := Largest(sizes);
    var smallest := Smallest(sizes);
    if (sizes[largest] > maxSize || sizes[smallest] < minSize) && |Border(g, part, largest, shuffle)| > 0 {
      MoveBorderKeepsSizes(g, part, sizes, avg, shuffle, largest, smallest, keys);
    }
  }

  /** A pass keeps the total of `partitionSizes`: every decrement is matched by an
      increment. */
  lemma StepKeepsTotal(g: Graph, part: map<int, int>, sizes: seq<int>, avg: int, maxSize: int, minSize: int, shuffle: seq<int>)
    requires |sizes| > 0 && InRange(part, |sizes|)
    requires IsOrderOf(shuffle, part.Keys)
    ensures Sum(Step(g, part, sizes, avg, maxSize, minSize, shuffle).sizes) == Sum(sizes)
  {
    var largest := Largest(sizes);
    var smallest := Smallest(sizes);
    if (sizes[largest] > maxSize || sizes[smallest] < minSize) && |Border(g, part, largest, shuffle)| > 0 {
      MoveBorderTotal(g, part, sizes, avg, shuffle, largest, smallest);
    }
  }

  /** Moving the chosen border vertices keeps the total of the sizes. */
  lemma MoveBorderTotal(g: Graph, part: map<int, int>, sizes: seq<int>, avg: int, shuffle: seq<int>, largest: nat, smallest: nat)
    requires largest < |sizes| && smallest < |sizes| && InRange(part, |sizes|)
    requires IsOrderOf(shuffle, part.Keys)
    ensures Sum(MoveBorder(g, part, sizes, avg, shuffle, largest, smallest).1) == Sum(sizes)
  {
    var border := Border(g, part, largest, shuffle);
    var count := Min(|border|, Div(sizes[largest] - avg, 2));
    var moved := if count > 0 then border[..count] else [];
    assert forall v :: v in moved ==> v in border;
    MoveAllTotal(part, sizes, moved, largest, smallest);
  }

  /** The moves keep the total of the sizes. */
  lemma {:induction false} MoveAllTotal(part: map<int, int>, sizes: seq<int>, vs: seq<int>, from: nat, to: nat)
    requires from < |sizes| && to < |sizes|
    requires forall v :: v in vs ==> v in part
    ensures Sum(MoveAll(part, sizes, vs, from, to).1) == Sum(sizes)
  {
    if |vs| > 0 {
      var init := vs[..|vs| - 1];
      assert forall v :: v in init ==> v in vs;
      MoveAllTotal(part, sizes, init, from, to);
      MoveOneTotal(MoveAll(part, sizes, init, from, to), vs[|vs| - 1], from, to);
    }
  }

  /** One move takes one from `from` and adds one to `to`. */
  lemma MoveOneTotal(st: (map<int, int>, seq<int>), v: int, from: nat, to: nat)
    requires from < |st.1| && to < |st.1|
    ensures Sum(MoveOne(st, v, from, to).1) == Sum(st.1)
  {
    var s1 := st.1[from := st.1[from] - 1];
    SumUpdate(st.1, from, -1);
    assert st.1[from := st.1[from] + -1] == s1;
    SumUpdate(s1, to, 1);
  }

  /** Why `balancePartitions` can stop short. */
  datatype BalanceError = BalanceIncomplete

  /** The `while (!balanced)` loop, one shuffle of the border per pass; it gives up when the
      shuffles run out. */
  function BalanceLoop(g: Graph, part: map<int, int>, sizes: seq<int>, avg: int, maxSize: int, minSize: int, shuffles: seq<seq<int>>): (r: Result<map<int, int>, BalanceError>)
    requires |sizes| > 0 && InRange(part, |sizes|)
    requires forall i :: 0 <= i < |shuffles| ==> IsOrderOf(shuffles[i], part.Keys)
    ensures r.Success? ==> r.value.Keys == part.Keys && InRange(r.value, |sizes|)
    ensures |shuffles| == 0 ==> r == Failure(BalanceIncomplete)
    decreases |shuffles|
  {
    if |shuffles| == 0 then Failure(BalanceIncomplete)
    else
      var pass := Step(g, part, sizes, avg, maxSize, minSize, shuffles[0]);
      if pass.balanced then Success(pass.part)
      else BalanceLoop(g, pass.part, pass.sizes, avg, maxSize, minSize, shuffles[1..])
  }

  /** When the loop finishes, every part's size is within `[minSize, maxSize]`. */
  lemma {:induction false} BalancedWithinLimits(g: Graph, part: map<int, int>, sizes: seq<int>, avg: int, maxSize: int, minSize: int, shuffles: seq<seq<int>>, keys: seq<int>)
    requires |sizes| > 0 && InRange(part, |sizes|)
    requires forall i :: 0 <= i < |shuffles| ==> IsOrderOf(shuffles[i], part.Keys)
    requires NoDup(keys) && forall v :: v in keys <==> v in part
    requires SizesMatch(part, keys, sizes)
    ensures var r := BalanceLoop(g, part, sizes, avg, maxSize, minSize, shuffles);
      r.Success? ==> forall p :: 0 <= p < |sizes| ==> minSize <= Tally(r.value, keys, p) <= maxSize
    decreases |shuffles|
  {
    if |shuffles| > 0 {
      var pass := Step(g, part, sizes, avg, maxSize, minSize, shuffles[0]);
      StepKeepsSizes(g, part, sizes, avg, maxSize, minSize, shuffles[0], keys);
      if pass.balanced {
        LoopStops(g, part, sizes, avg, maxSize, minSize, shuffles);
      } else {
        BalancedWithinLimits(g, pass.part, pass.sizes, avg, maxSize, minSize, shuffles[1..], keys);
        LoopContinues(g, part, sizes, avg, maxSize, minSize, shuffles);
      }
    }
  }

  /** A balanced pass ends the loop with the map unchanged. */
  lemma LoopStops(g: Graph, part: map<int, int>, sizes: seq<int>, avg: int, maxSize: int, minSize: int, shuffles: seq<seq<int>>)
    requires |sizes| > 0 && InRange(part, |sizes|)
    requires forall i :: 0 <= i < |shuffles| ==> IsOrderOf(shuffles[i], part.Keys)
    requires |shuffles| > 0 && Step(g, part, sizes, avg, maxSize, minSize, shuffles[0]).balanced
    ensures BalanceLoop(g, part, sizes, avg, maxSize, minSize, shuffles) == Success(part)
    ensures forall p :: 0 <= p < |sizes| ==> minSize <= sizes[p] <= maxSize
  {
  }

  /** An unbalanced pass hands its map and sizes to the rest of the loop. */
  lemma LoopContinues(g: Graph, part: map<int, int>, sizes: seq<int>, avg: int, maxSize: int, minSize: int, shuffles: seq<seq<int>>)
    requires |sizes| > 0 && InRange(part, |sizes|)
    requires forall i :: 0 <= i < |shuffles| ==> IsOrderOf(shuffles[i], part.Keys)
    requires |shuffles| > 0
    requires !Step(g, part, sizes, avg, maxSize, minSize, shuffles[0]).balanced
    ensures var pass := Step(g, part, sizes, avg, maxSize, minSize, shuffles[0]);
      && (forall i :: 0 <= i < |shuffles[1..]| ==> IsOrderOf(shuffles[1..][i], part.Keys))
      && BalanceLoop(g, part, sizes, avg, maxSize, minSize, shuffles) ==
         BalanceLoop(g, pass.part, pass.sizes, avg, maxSize, minSize, shuffles[1..])
  {
  }

  /** `balancePartitions`. `maxOf` and `minOf` compute `maxSize` and `minSize` from the average
      part size; the average is the exact `ceil(|V| / k)`. */
  function BalancePartitions(g: Graph, part: map<int, int>, k: int, maxOf: int -> int, minOf: int -> int, keyOrder: seq<int>, shuffles: seq<seq<int>>): (r: Result<map<int, int>, BalanceError>)
    requires k > 0 && InRange(part, k)
    requires IsOrderOf(keyOrder, part.Keys)
    requires forall i :: 0 <= i < |shuffles| ==> IsOrderOf(shuffles[i], part.Keys)
    ensures r.Success? ==> r.value.Keys == part.Keys && InRange(r.value, k)
    ensures r.Success? ==> forall p :: 0 <= p < k ==>
      minOf(CeilDiv(|g|, k)) <= Tally(r.value, keyOrder, p) <= maxOf(CeilDiv(|g|, k))
  {
    var avg := CeilDiv(|g|, k);
    var sizes := CountSizes(part, keyOrder, k);
    BalancedWithinLimits(g, part, sizes, avg, maxOf(avg), minOf(avg), shuffles, keyOrder);
    BalanceLoop(g, part, sizes, avg, maxOf(avg), minOf(avg), shuffles)
  }

  /** The vertices that change part are among the first `count` of the border. */
  lemma MovedAreFew(g: Graph, part: map<int, int>, shuffle: seq<int>, largest: int,
                    border: seq<int>, moved: seq<int>, after: map<int, int>, count: int)
    requires NoDup(shuffle)
    requires border == Border(g, part, largest, shuffle)
    requires count <= |border|
    requires moved == if count > 0 then border[..count] else []
    requires after.Keys == part.Keys
    requires forall v :: v in part && after[v] != part[v] ==> v in moved
    ensures |Changed(part, after, shuffle)| <= NonNeg(count)
  {
    var changed := Changed(part, after, shuffle);
    ChangedNoDup(part, after, shuffle);
    assert forall v :: v in changed ==> v in moved;
    NoDupSubset(changed, moved);
  }

  /** A duplicate-free sequence whose elements all occur in `b` is no longer than `b`. */
  lemma {:induction false} NoDupSubset(a: seq<int>, b: seq<int>)
    requires NoDup(a)
    requires forall x :: x in a ==> x in b
    ensures |a| <= |b|
  {
    if |a| > 0 {
      var x := a[|a| - 1];
      var init := a[..|a| - 1];
      assert x in a;
      var i :| 0 <= i < |b| && b[i] == x;
      var b' := b[..i] + b[i + 1..];
      assert NoDup(init) by {
        forall s, t | 0 <= s < t < |init| ensures init[s] != init[t] {
          assert init[s] == a[s] && init[t] == a[t];
        }
      }
      forall y | y in init
        ensures y in b'
      {
        var s :| 0 <= s < |init| && init[s] == y;
        assert a[s] == y && y != x;
        assert y in b;
        var j :| 0 <= j < |b| && b[j] == y;
        if j < i {
          assert b'[j] == y;
        } else {
          assert b'[j - 1] == y;
        }
      }
      NoDupSubset(init, b');
    }
  }
}
