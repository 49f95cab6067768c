/** `GraphPartitioner.findConnectedComponents`: depth-first searches, with an explicit stack,
    over the subgraph induced by a vertex list. Edges are followed in their own direction
    only, so a component is what one search reaches from its starting vertex that no
    earlier search reached. */
module Components {
  import opened Seqs
  import opened Vertices
  import opened Graphs

  /** The vertex set of a list: `vertices.contains`. */
  function Elems(vs: seq<int>): set<int> {
    set x | x in vs
  }

  /** `p` is a walk along edges of `g` that never leaves `s`. */
  ghost predicate IsWalk(g: Graph, s: set<int>, p: seq<int>) {
    && |p| > 0
    && (forall i :: 0 <= i < |p| ==> p[i] in s)
    && (forall i :: 0 < i < |p| ==> HasEdge(g, p[i - 1], p[i]))
  }

  /** `b` can be reached from `a` inside `s`. */
  ghost predicate Reaches(g: Graph, s: set<int>, a: int, b: int) {
    exists p :: IsWalk(g, s, p) && p[0] == a && p[|p| - 1] == b
  }

  /** Following an edge from `t` that stays inside `s` never leaves `t`. */
  ghost predicate Closed(g: Graph, s: set<int>, t: set<int>) {
    forall w, n :: w in t && n in s && HasEdge(g, w, n) ==> n in t
  }

  /** The union of a list of sets. */
  function Union(cs: seq<set<int>>): set<int> {
    if |cs| == 0 then {} else Union(cs[..|cs| - 1]) + cs[|cs| - 1]
  }

  /** Component `j` is started from `roots[j]` and holds exactly what that vertex reaches
      and the earlier components do not hold. */
  ghost predicate IsComponent(g: Graph, s: set<int>, cs: seq<set<int>>, roots: seq<int>, j: int)
    requires 0 <= j < |cs| == |roots|
  {
    && roots[j] in cs[j]
    && forall w :: w in cs[j] <==> Reaches(g, s, roots[j], w) && w !in Union(cs[..j])
  }

  /** `comps`, started from `roots`, split the vertex set `s` into search components. */
  ghost predicate Decomposes(g: Graph, s: set<int>, comps: seq<set<int>>, roots: seq<int>) {
    && |roots| == |comps|
    && Union(comps) == s
    && forall j :: 0 <= j < |comps| ==> IsComponent(g, s, comps, roots, j)
  }

  /** There is an edge each way wherever there is one: the graphs the loaders build when
      every file lists both directions. */
  ghost predicate Symmetric(g: Graph) {
    forall u, w :: HasEdge(g, u, w) ==> HasEdge(g, w, u)
  }

  lemma ReachesSelf(g: Graph, s: set<int>, a: int)
    requires a in s
    ensures Reaches(g, s, a, a)
  {
    assert IsWalk(g, s, [a]);
  }

  lemma ReachesStep(g: Graph, s: set<int>, a: int, b: int, n: int)
    requires Reaches(g, s, a, b) && n in s && HasEdge(g, b, n)
    ensures Reaches(g, s, a, n)
  {
    var p :| IsWalk(g, s, p) && p[0] == a && p[|p| - 1] == b;
    var q := p + [n];
    assert IsWalk(g, s, q);
  }

  /** A walk that starts in a closed set ends in it. */
  lemma {:induction false} ClosedWalk(g: Graph, s: set<int>, t: set<int>, p: seq<int>)
    requires Closed(g, s, t) && IsWalk(g, s, p) && p[0] in t
    ensures p[|p| - 1] in t
  {
    if |p| > 1 {
      var init := p[..|p| - 1];
      assert IsWalk(g, s, init);
      ClosedWalk(g, s, t, init);
      assert HasEdge(g, p[|p| - 2], p[|p| - 1]);
    }
  }

  lemma ClosedReaches(g: Graph, s: set<int>, t: set<int>, a: int, b: int)
    requires Closed(g, s, t) && a in t && Reaches(g, s, a, b)
    ensures b in t
  {
    var p :| IsWalk(g, s, p) && p[0] == a && p[|p| - 1] == b;
    ClosedWalk(g, s, t, p);
  }

  /** The inner `while (!stack.isEmpty())` loop: one search from `v`, skipping `visited`. */
  method Explore(g: Graph, s: set<int>, visited: set<int>, v: int) returns (c: set<int>)
    requires forall x :: x in s ==> x in g
    requires v in s && v !in visited && visited <= s
    requires Closed(g, s, visited)
    ensures c !! visited && c <= s && v in c
    ensures Closed(g, s, visited + c)
    ensures forall w :: w in c <==> Reaches(g, s, v, w) && w !in visited
  {
    c := {};
    var stack := [v];
    ReachesSelf(g, s, v);
    while |stack| > 0
      invariant c !! visited && c <= s
      invariant forall t :: 0 <= t < |stack| ==> stack[t] in s && Reaches(g, s, v, stack[t])
      invariant forall w :: w in c ==> Reaches(g, s, v, w)
      invariant forall w, n :: w in c && n in s && HasEdge(g, w, n) ==> n in visited || n in c || n in stack
      invariant v in c || v in stack
      decreases |s - visited - c|, |stack|
    {
      var cur := stack[|stack| - 1];
      ghost var before := stack;
      stack := stack[..|stack| - 1];
      assert before == stack + [cur];
      if cur !in visited && cur !in c {
        assert s - visited - (c + {cur}) < s - visited - c;
        c := c + {cur};
        var next := Select(g[cur].neighbors, n => n in s);
        forall t | 0 <= t < |next|
          ensures next[t] in s && Reaches(g, s, v, next[t])
        {
          assert next[t] in next;
          ReachesStep(g, s, v, cur, next[t]);
        }
        stack := stack + next;
      }
    }
    forall w | Reaches(g, s, v, w) && w !in visited
      ensures w in c
    {
      ClosedReaches(g, s, visited + c, v, w);
    }
  }

  lemma UnionAppend(cs: seq<set<int>>, c: set<int>)
    ensures Union(cs + [c]) == Union(cs) + c
  {
    assert (cs + [c])[..|cs|] == cs;
  }

  /** `findConnectedComponents(graph, vertices)`. The components cover the vertex set, each is
      characterised by the vertex its search started from, and the first starts from
      `vertices[0]`. `roots` are those starting vertices, in order. */
  method FindComponents(g: Graph, vs: seq<int>) returns (comps: seq<set<int>>, roots: seq<int>)
    requires forall v :: v in vs ==> v in g
    ensures Decomposes(g, Elems(vs), comps, roots)
    ensures forall j :: 0 <= j < |comps| ==> roots[j] in vs
    ensures |vs| > 0 <==> |comps| > 0
    ensures |vs| > 0 ==> roots[0] == vs[0]
  {
    var s := Elems(vs);
    comps := [];
    roots := [];
    var visited: set<int> := {};
    for i := 0 to |vs|
      invariant |roots| == |comps|
      invariant visited == Union(comps) && visited <= s
      invariant forall j :: 0 <= j < i ==> vs[j] in visited
      invariant Closed(g, s, visited)
      invariant forall j :: 0 <= j < |comps| ==> roots[j] in vs && IsComponent(g, s, comps, roots, j)
      invariant i > 0 <==> |comps| > 0
      invariant i > 0 ==> roots[0] == vs[0]
    {
      var v := vs[i];
      if v !in visited {
        var c := Explore(g, s, visited, v);
        UnionAppend(comps, c);
        forall j | 0 <= j < |comps|
          ensures IsComponent(g, s, comps + [c], roots + [v], j)
        {
          assert (comps + [c])[..j] == comps[..j];
        }
        assert (comps + [c])[..|comps|] == comps;
        comps := comps + [c];
        roots := roots + [v];
        visited := visited + c;
      }
    }
  }

  /** The earlier of two prefixes has the smaller union. */
  lemma {:induction false} UnionMono(cs: seq<set<int>>, i: nat, j: nat)
    requires i <= j <= |cs|
    ensures Union(cs[..i]) <= Union(cs[..j])
  {
    if i < j {
      UnionMono(cs, i, j - 1);
      assert cs[..j][..j - 1] == cs[..j - 1];
    }
  }

  /** A member of a union lies in one of the sets. */
  lemma {:induction false} UnionMember(cs: seq<set<int>>, w: int) returns (i: nat)
    requires w in Union(cs)
    ensures i < |cs| && w in cs[i]
  {
    if w in cs[|cs| - 1] {
      i := |cs| - 1;
    } else {
      i := UnionMember(cs[..|cs| - 1], w);
    }
  }

  lemma UnionHas(cs: seq<set<int>>, i: nat)
    requires i < |cs|
    ensures cs[i] <= Union(cs)
  {
    UnionMono(cs, i + 1, |cs|);
    assert cs[..i + 1][..i] == cs[..i];
    assert cs[..|cs|] == cs;
  }

  /** No vertex lies in two components. */
  lemma ComponentsDisjoint(g: Graph, s: set<int>, comps: seq<set<int>>, roots: seq<int>, i: nat, j: nat)
    requires Decomposes(g, s, comps, roots)
    requires i < j < |comps|
    ensures comps[i] !! comps[j]
  {
    UnionHas(comps[..j], i);
    assert comps[..j][i] == comps[i];
    assert IsComponent(g, s, comps, roots, j);
    forall w | w in comps[i]
      ensures w !in comps[j]
    {
      assert w in Union(comps[..j]);
    }
  }

  /** The first component is everything its starting vertex reaches inside the set. */
  lemma FirstComponent(g: Graph, s: set<int>, comps: seq<set<int>>, roots: seq<int>)
    requires Decomposes(g, s, comps, roots) && |comps| > 0
    ensures roots[0] in comps[0]
    ensures forall w :: w in comps[0] <==> Reaches(g, s, roots[0], w)
  {
    assert IsComponent(g, s, comps, roots, 0);
    assert comps[..0] == [];
  }

  /** An edge inside the set leads from a component to it or to an earlier one. */
  lemma EdgesGoBack(g: Graph, s: set<int>, comps: seq<set<int>>, roots: seq<int>, j: nat, w: int, n: int)
    requires Decomposes(g, s, comps, roots)
    requires j < |comps| && w in comps[j] && n in s && HasEdge(g, w, n)
    ensures n in Union(comps[..j + 1])
  {
    assert IsComponent(g, s, comps, roots, j);
    ReachesStep(g, s, roots[j], w, n);
    assert comps[..j + 1][..j] == comps[..j];
  }

  /** In a symmetric graph each component is closed under the edges inside the set, so the
      components are the connected pieces of the induced subgraph. */
  lemma SymmetricComponentsClosed(g: Graph, s: set<int>, comps: seq<set<int>>, roots: seq<int>, j: nat)
    requires Decomposes(g, s, comps, roots) && Symmetric(g)
    requires j < |comps|
    ensures Closed(g, s, comps[j])
  {
    forall w, n | w in comps[j] && n in s && HasEdge(g, w, n)
      ensures n in comps[j]
    {
      assert IsComponent(g, s, comps, roots, j);
      EdgesGoBack(g, s, comps, roots, j, w, n);
      var i := UnionMember(comps[..j + 1], n);
      if i < j {
        assert n in comps[i];
        assert w in s by { UnionHas(comps, j); }
        EdgesGoBack(g, s, comps, roots, i, n, w);
        UnionMono(comps, i + 1, j);
        assert false;
      }
    }
  }
  /** Without symmetry a component need not be closed: with the single edge `1 -> 0`, the
      search from `0` finds `{0}`, the search from `1` then finds `{1}`, and the edge
      `1 -> 0` leaves `{1}` inside the searched set. */
  lemma OneWayEdgeLeaves()
    ensures var g := map[0 := Vertex(0, 0, 0, 0, []), 1 := Vertex(1, 1, 0, 0, [0])];
      Decomposes(g, {0, 1}, [{0}, {1}], [0, 1]) && !Closed(g, {0, 1}, {1})
  {
    var g := map[0 := Vertex(0, 0, 0, 0, []), 1 := Vertex(1, 1, 0, 0, [0])];
    var s := {0, 1};
    var cs := [{0}, {1}];
    assert HasEdge(g, 1, 0);
    assert Union(cs[..0]) == {} && Union(cs[..1]) == {0} && Union(cs) == s by {
      assert cs[..1][..0] == cs[..0];
      assert cs[..2] == cs;
    }
    forall p | IsWalk(g, s, p) && p[0] == 0 ensures p[|p| - 1] == 0 {
      assert |p| == 1 || HasEdge(g, p[0], p[1]);
    }
    ReachesSelf(g, s, 0);
    ReachesSelf(g, s, 1);
    assert IsComponent(g, s, cs, [0, 1], 0);
    assert IsComponent(g, s, cs, [0, 1], 1);
  }


  /** The union of a non-empty list is its first set together with the union of the rest. */
  lemma {:induction false} UnionCons(cs: seq<set<int>>)
    requires |cs| > 0
    ensures Union(cs) == cs[0] + Union(cs[1..])
  {
    if |cs| > 1 {
      var init := cs[..|cs| - 1];
      UnionCons(init);
      assert init[1..] == cs[1..][..|cs| - 2];
      assert init[0] == cs[0];
    } else {
      assert cs[1..] == [];
      assert cs[..0] == [];
    }
  }

  /** The components after the first hold exactly the vertices of the set that the first
      search did not reach. */
  lemma RestOfComponents(g: Graph, s: set<int>, comps: seq<set<int>>, roots: seq<int>)
    requires Decomposes(g, s, comps, roots) && |comps| > 0
    ensures forall w :: w in Union(comps[1..]) <==> w in s && !Reaches(g, s, roots[0], w)
  {
    UnionCons(comps);
    FirstComponent(g, s, comps, roots);
    forall w | w in Union(comps[1..])
      ensures w !in comps[0]
    {
      var i := UnionMember(comps[1..], w);
      assert comps[1..][i] == comps[i + 1];
      ComponentsDisjoint(g, s, comps, roots, 0, i + 1);
    }
  }
}
