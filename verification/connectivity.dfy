/** `GraphPartitioner.ensureConnectivity`: in every part, the vertices that the search from
    the part's first vertex does not reach are moved to the part most common among their
    neighbours, or to a random part when they have none. The `partition` map's iteration
    order is `keyOrder`; every component set is iterated in the order `setOrder` induces;
    `Collections.max`'s choice among equally common parts is `tie(v)`, an index into them;
    `random.nextInt(k)` for vertex `v` is `draw(v) % k`. */
module Connectivity {
  import opened Seqs
  import opened Graphs
  import opened Parts
  import opened Components

  /** The parts of the vertices `ns`, in list order. */
  function PartsOf(part: map<int, int>, ns: seq<int>): (ps: seq<int>)
    requires forall n :: n in ns ==> n in part
    ensures |ps| == |ns|
    ensures forall i :: 0 <= i < |ns| ==> ns[i] in part && ps[i] == part[ns[i]]
  {
    if |ns| == 0 then []
    else
      var last := ns[|ns| - 1];
      assert last in ns;
      PartsOf(part, ns[..|ns| - 1]) + [part[last]]
  }

  /** The distinct values of `s` in order of first occurrence: the key set of a counting map. */
  function Distinct(s: seq<int>): (r: seq<int>)
    ensures NoDup(r)
    ensures forall x :: x in r <==> x in s
  {
    if |s| == 0 then []
    else
      var init := Distinct(s[..|s| - 1]);
      var last := s[|s| - 1];
      assert forall x :: x in s <==> x in s[..|s| - 1] || x == last;
      if last in init then init
      else
        NoDupAppend(init, [last]);
        init + [last]
  }

  /** The largest number of occurrences in `ps` of a value from `cands`. */
  function MaxCount(ps: seq<int>, cands: seq<int>): (m: nat)
    ensures forall c :: c in cands ==> Count(ps, c) <= m
    ensures |cands| > 0 ==> exists c :: c in cands && Count(ps, c) == m
  {
    if |cands| == 0 then 0
    else
      var m := MaxCount(ps, cands[..|cands| - 1]);
      var last := cands[|cands| - 1];
      assert forall x :: x in cands <==> x in cands[..|cands| - 1] || x == last;
      if Count(ps, last) > m then Count(ps, last) else m
  }

  /** `Collections.max(adjacentPartitions.entrySet(), comparingByValue()).getKey()`: a value
      occurring in `ps` at least as often as any other; `tie` picks among several. */
  function Plurality(ps: seq<int>, tie: nat): (p: int)
    requires |ps| > 0
    ensures p in ps
    ensures forall q :: Count(ps, q) <= Count(ps, p)
  {
    var cands := Distinct(ps);
    assert ps[0] in cands;
    var m := MaxCount(ps, cands);
    var best := Select(cands, c => Count(ps, c) == m);
    var c :| c in cands && Count(ps, c) == m;
    assert c in best;
    var p := best[tie % |best|];
    assert p in best;
    p
  }

  /** The new part of a stray vertex `v`: the most common part among its neighbours, or a
      random part when it has no neighbours. */
  function Repair(g: Graph, part: map<int, int>, v: int, k: int, tie: nat, dr: nat): int
    requires WellFormed(g) && v in g && g.Keys <= part.Keys && k > 0
  {
    var ns := g[v].neighbors;
    if |ns| == 0 then dr % k else Plurality(PartsOf(part, ns), tie)
  }

  /** The repaired part is random without neighbours; otherwise it is a part some neighbour
      has, and no part is more common among the neighbours. */
  lemma RepairSpec(g: Graph, part: map<int, int>, v: int, k: int, tie: nat, dr: nat)
    requires WellFormed(g) && v in g && g.Keys <= part.Keys && k > 0
    ensures var r := Repair(g, part, v, k, tie, dr);
      && (|g[v].neighbors| == 0 ==> r == dr % k)
      && (|g[v].neighbors| > 0 ==> exists n :: HasEdge(g, v, n) && r == part[n])
      && (|g[v].neighbors| > 0 ==>
            var ps := PartsOf(part, g[v].neighbors);
            forall q :: Count(ps, q) <= Count(ps, r))
      && (InRange(part, k) ==> 0 <= r < k)
  {
    var ns := g[v].neighbors;
    if |ns| > 0 {
      var ps := PartsOf(part, ns);
      var r := Plurality(ps, tie);
      var i :| 0 <= i < |ps| && ps[i] == r;
      assert HasEdge(g, v, ns[i]);
    }
  }

  /** The vertices of `todo[..n]` revisited in order, each taking the part `f` computes from
      the parts set so far: the shape of the repair loop. */
  function Sweep(part: map<int, int>, todo: seq<int>, n: nat, f: (map<int, int>, int) -> int): (r: map<int, int>)
    requires n <= |todo|
    requires forall v :: v in todo ==> v in part
    ensures r.Keys == part.Keys
    ensures forall w :: w in part && w !in todo ==> r[w] == part[w]
  {
    if n == 0 then part
    else
      var v := todo[n - 1];
      var prev := Sweep(part, todo, n - 1, f);
      assert v in todo;
      prev[v := f(prev, v)]
  }

  /** Step `n` changes the part of `todo[n - 1]` only. */
  lemma SweepStep(part: map<int, int>, todo: seq<int>, n: nat, f: (map<int, int>, int) -> int, w: int)
    requires 0 < n <= |todo|
    requires forall v :: v in todo ==> v in part
    requires w in part && w != todo[n - 1]
    ensures Sweep(part, todo, n, f)[w] == Sweep(part, todo, n - 1, f)[w]
  {
  }

  /** A vertex none of the first `n` steps names keeps its original part. */
  lemma {:induction false} Untouched(part: map<int, int>, todo: seq<int>, n: nat, f: (map<int, int>, int) -> int, w: int)
    requires n <= |todo|
    requires forall v :: v in todo ==> v in part
    requires w in part && forall j :: 0 <= j < n ==> todo[j] != w
    ensures Sweep(part, todo, n, f)[w] == part[w]
  {
    if n > 0 {
      Untouched(part, todo, n - 1, f, w);
      SweepStep(part, todo, n, f, w);
    }
  }

  /** Once vertex `todo[j]` has had its turn, the later steps leave it alone. */
  lemma {:induction false} SettledFrom(part: map<int, int>, todo: seq<int>, f: (map<int, int>, int) -> int, j: nat, n: nat)
    requires forall v :: v in todo ==> v in part
    requires NoDup(todo) && j < n <= |todo|
    ensures Sweep(part, todo, n, f)[todo[j]] == Sweep(part, todo, j + 1, f)[todo[j]]
  {
    if n > j + 1 {
      SettledFrom(part, todo, f, j, n - 1);
      assert todo[j] in todo;
      SweepStep(part, todo, n, f, todo[j]);
    }
  }

  /** Vertex `todo[i]` gets the part `f` computes from the parts left by the steps before
      it, and keeps it to the end. */
  lemma SweepTurn(part: map<int, int>, todo: seq<int>, f: (map<int, int>, int) -> int, i: nat)
    requires forall v :: v in todo ==> v in part
    requires NoDup(todo) && i < |todo|
    ensures Sweep(part, todo, |todo|, f)[todo[i]] == f(Sweep(part, todo, i, f), todo[i])
  {
    SettledFrom(part, todo, f, i, |todo|);
  }

  /** After any number of steps, every vertex holds either its original part or its final
      one. */
  lemma CurrentPart(part: map<int, int>, todo: seq<int>, f: (map<int, int>, int) -> int, i: nat, w: int)
    requires forall v :: v in todo ==> v in part
    requires NoDup(todo) && i <= |todo| && w in part
    ensures var cur := Sweep(part, todo, i, f);
      cur[w] == part[w] || cur[w] == Sweep(part, todo, |todo|, f)[w]
  {
    if j :| 0 <= j < i && todo[j] == w {
      SettledFrom(part, todo, f, j, i);
      SettledFrom(part, todo, f, j, |todo|);
    } else {
      Untouched(part, todo, i, f, w);
    }
  }

  /** The sweep keeps every part in `[0, k)` when each step does. */
  lemma {:induction false} SweepInRange(part: map<int, int>, todo: seq<int>, n: nat, f: (map<int, int>, int) -> int, k: int)
    requires n <= |todo|
    requires forall v :: v in todo ==> v in part
    requires InRange(part, k)
    requires forall m: map<int, int>, v :: InRange(m, k) && m.Keys == part.Keys && v in todo ==> 0 <= f(m, v) < k
    ensures InRange(Sweep(part, todo, n, f), k)
  {
    if n > 0 {
      SweepInRange(part, todo, n - 1, f, k);
      assert todo[n - 1] in todo;
    }
  }

  /** One repair as a step of the sweep. Outside the vertices and maps the loop meets it is
      never applied, and yields 0. */
  function RepairStep(g: Graph, k: int, tie: int -> nat, draw: int -> nat): (map<int, int>, int) -> int {
    (m: map<int, int>, v: int) =>
      if WellFormed(g) && v in g && g.Keys <= m.Keys && k > 0 then Repair(g, m, v, k, tie(v), draw(v)) else 0
  }

  /** The repairs applied one after another, each seeing the parts the earlier ones set. */
  function RepairAll(g: Graph, part: map<int, int>, todo: seq<int>, k: int, tie: int -> nat, draw: int -> nat): (r: map<int, int>)
    requires g.Keys <= part.Keys
    requires forall v :: v in todo ==> v in g
    ensures r.Keys == part.Keys
    ensures forall w :: w in part && w !in todo ==> r[w] == part[w]
  {
    Sweep(part, todo, |todo|, RepairStep(g, k, tie, draw))
  }

  /** The repairs keep every part in `[0, k)`. */
  lemma RepairAllInRange(g: Graph, part: map<int, int>, todo: seq<int>, k: int, tie: int -> nat, draw: int -> nat)
    requires WellFormed(g) && g.Keys <= part.Keys
    requires forall v :: v in todo ==> v in g
    requires InRange(part, k) && k > 0
    ensures InRange(RepairAll(g, part, todo, k, tie, draw), k)
  {
    var f := RepairStep(g, k, tie, draw);
    forall m: map<int, int>, v | InRange(m, k) && m.Keys == part.Keys && v in todo
      ensures 0 <= f(m, v) < k
    {
      RepairSpec(g, m, v, k, tie(v), draw(v));
    }
    SweepInRange(part, todo, |todo|, f, k);
  }

  /** Every repaired vertex ends up in a part one of its neighbours had, before or after the
      repairs, or in a random part when it has no neighbours. */
  lemma RepairOutcome(g: Graph, part: map<int, int>, todo: seq<int>, k: int, tie: int -> nat, draw: int -> nat, v: int)
    requires WellFormed(g) && g.Keys <= part.Keys
    requires forall v :: v in todo ==> v in g
    requires k > 0
    requires NoDup(todo) && v in todo
    ensures var r := RepairAll(g, part, todo, k, tie, draw);
      && (|g[v].neighbors| == 0 ==> r[v] == draw(v) % k)
      && (|g[v].neighbors| > 0 ==> exists n :: HasEdge(g, v, n) && (r[v] == part[n] || r[v] == r[n]))
  {
    var f := RepairStep(g, k, tie, draw);
    var i :| 0 <= i < |todo| && todo[i] == v;
    SweepTurn(part, todo, f, i);
    var cur := Sweep(part, todo, i, f);
    assert f(cur, v) == Repair(g, cur, v, k, tie(v), draw(v));
    RepairSpec(g, cur, v, k, tie(v), draw(v));
    if |g[v].neighbors| > 0 {
      var n :| HasEdge(g, v, n) && Repair(g, cur, v, k, tie(v), draw(v)) == cur[n];
      CurrentPart(part, todo, f, i, n);
    }
  }

  /** The vertices of part `p` in the map's iteration order: `partitions.get(p)`. */
  function Group(part: map<int, int>, keyOrder: seq<int>, p: int): (grp: seq<int>)
    ensures forall w :: w in grp <==> w in keyOrder && w in part && part[w] == p
  {
    Select(keyOrder, w => w in part && part[w] == p)
  }

  /** `w` lies outside the first component of its part: the search from the part's first
      vertex, inside the part, does not reach it. */
  ghost predicate Stray(g: Graph, part: map<int, int>, keyOrder: seq<int>, k: int, w: int) {
    && w in part && 0 <= part[w] < k
    && var grp := Group(part, keyOrder, part[w]);
      |grp| > 0 && !Reaches(g, Elems(grp), grp[0], w)
  }

  /** The vertices of components 1, 2, ... of one part, each component iterated in the order
      `setOrder` induces. */
  method StrayList(g: Graph, grp: seq<int>, comps: seq<set<int>>, roots: seq<int>, setOrder: seq<int>) returns (more: seq<int>)
    requires Decomposes(g, Elems(grp), comps, roots)
    requires |grp| > 0 <==> |comps| > 0
    requires |grp| > 0 ==> roots[0] == grp[0]
    requires NoDup(setOrder) && forall w :: w in grp ==> w in setOrder
    ensures NoDup(more)
    ensures |grp| == 0 ==> more == []
    ensures |grp| > 0 ==> forall w :: w in more <==> w in grp && !Reaches(g, Elems(grp), grp[0], w)
  {
    var s := Elems(grp);
    more := [];
    if |comps| > 1 {
      var i := 1;
      while i < |comps|
        invariant 1 <= i <= |comps|
        invariant NoDup(more)
        invariant forall w :: w in more <==> w in Union(comps[1..i])
      {
        var c := comps[i];
        var next := Select(setOrder, w => w in c);
        SelectNoDup(setOrder, w => w in c);
        UnionHas(comps, i);
        forall w | w in more
          ensures w !in next
        {
          var j := UnionMember(comps[1..i], w);
          assert comps[1..i][j] == comps[j + 1];
          ComponentsDisjoint(g, s, comps, roots, j + 1, i);
        }
        NoDupAppend(more, next);
        assert comps[1..i + 1] == comps[1..i] + [c];
        UnionAppend(comps[1..i], c);
        more := more + next;
        i := i + 1;
      }
      assert comps[1..i] == comps[1..];
    }
    if |comps| > 0 {
      RestOfComponents(g, s, comps, roots);
      if |comps| <= 1 {
        assert comps[1..] == [];
      }
      assert forall w :: w in more <==> w in Union(comps[1..]);
      assert forall w :: w in s <==> w in grp;
    }
  }

  /** `ensureConnectivity`. Only stray vertices change part; each takes a part one of its
      neighbours had when its turn came (so before or after the repairs), or a random part
      when it has no neighbours. */
  method EnsureConnectivity(g: Graph, part: map<int, int>, k: int, keyOrder: seq<int>, setOrder: seq<int>, tie: int -> nat, draw: int -> nat) returns (r: map<int, int>)
    requires WellFormed(g) && part.Keys == g.Keys
    requires IsOrderOf(keyOrder, part.Keys) && IsOrderOf(setOrder, part.Keys)
    ensures r.Keys == part.Keys
    ensures InRange(part, k) ==> InRange(r, k)
    ensures forall w :: w in part && !Stray(g, part, keyOrder, k, w) ==> r[w] == part[w]
    ensures forall w :: Stray(g, part, keyOrder, k, w) && |g[w].neighbors| == 0 ==> r[w] == draw(w) % k
    ensures forall w :: Stray(g, part, keyOrder, k, w) && |g[w].neighbors| > 0 ==>
      exists n :: HasEdge(g, w, n) && (r[w] == part[n] || r[w] == r[n])
  {
    var todo: seq<int> := [];
    var p := 0;
    while p < k
      invariant 0 <= p && (k > 0 ==> p <= k)
      invariant NoDup(todo)
      invariant forall w :: w in todo <==> w in part && 0 <= part[w] < p && Stray(g, part, keyOrder, k, w)
    {
      var grp := Group(part, keyOrder, p);
      var comps, roots := FindComponents(g, grp);
      var more := StrayList(g, grp, comps, roots, setOrder);
      forall w | w in todo
        ensures w !in more
      {
        assert part[w] < p;
      }
      NoDupAppend(todo, more);
      todo := todo + more;
      p := p + 1;
    }
    assert k > 0 || |todo| == 0 by {
      if |todo| > 0 {
        assert todo[0] in todo;
      }
    }
    r := RepairAll(g, part, todo, k, tie, draw);
    if InRange(part, k) && k > 0 {
      RepairAllInRange(g, part, todo, k, tie, draw);
    }
    forall w | w in todo
      ensures && (|g[w].neighbors| == 0 ==> r[w] == draw(w) % k)
              && (|g[w].neighbors| > 0 ==> exists n :: HasEdge(g, w, n) && (r[w] == part[n] || r[w] == r[n]))
    {
      RepairOutcome(g, part, todo, k, tie, draw, w);
    }
  }
}
