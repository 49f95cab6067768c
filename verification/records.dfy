/** Pieces shared by the three loaders of Graph.java: field parsing, the load error, the
    row-major occupancy scan and the coloured `(from, to)` record of the own formats. */
module Records {
  import opened Wrappers
  import opened JavaInt
  import opened Seqs
  import opened Vertices
  import opened Graphs

  /** Why a load throws instead of returning a graph. */
  datatype LoadError =
    | MissingLine        // `readLine()` returned null and the caller dereferenced it
    | BadNumber          // `Integer.parseInt` rejected a field
    | IndexOutOfRange    // an array was indexed outside its bounds
    | MissingVertex      // `graph.get(id)` returned null and `setColor` was called on it
    | Truncated          // `readInt()` hit the end of the stream

  /** One field after splitting a line: its integer value, or `None` when the text is not a
      decimal numeral. */
  type Field = Option<int>

  /** `Integer.parseInt` over every field: it also rejects numerals outside the `int` range. */
  function ParseInts(fs: seq<Field>): (r: Result<seq<int>, LoadError>)
    ensures r.Success? <==> forall i :: 0 <= i < |fs| ==> fs[i].Some? && IsInt32(fs[i].value)
    ensures r.Success? ==> |r.value| == |fs| && forall i :: 0 <= i < |fs| ==> r.value[i] == fs[i].value
  {
    if |fs| == 0 then Success([])
    else
      var init :- ParseInts(fs[..|fs| - 1]);
      var last := fs[|fs| - 1];
      if last.Some? && IsInt32(last.value) then Success(init + [last.value]) else Failure(BadNumber)
  }

  /** Positions of the cells equal to 1, in scan order. */
  function Ones(cells: seq<int>): (r: seq<nat>)
    ensures |r| <= |cells|
  {
    if |cells| == 0 then []
    else Ones(cells[..|cells| - 1]) + (if cells[|cells| - 1] == 1 then [|cells| - 1] else [])
  }

  /** `Ones` lists exactly the cells equal to 1, in increasing order. */
  lemma {:induction false} OnesFacts(cells: seq<int>)
    ensures forall t :: 0 <= t < |Ones(cells)| ==> Ones(cells)[t] < |cells| && cells[Ones(cells)[t]] == 1
    ensures forall c :: 0 <= c < |cells| && cells[c] == 1 ==> c in Ones(cells)
    ensures forall s, t :: 0 <= s < t < |Ones(cells)| ==> Ones(cells)[s] < Ones(cells)[t]
  {
    if |cells| > 0 {
      var init := cells[..|cells| - 1];
      var last := |cells| - 1;
      OnesFacts(init);
      var a := Ones(init);
      var tail: seq<nat> := if cells[last] == 1 then [last] else [];
      assert Ones(cells) == a + tail;
      forall t | 0 <= t < |a| ensures a[t] < |cells| && cells[a[t]] == 1 {
        assert init[a[t]] == cells[a[t]];
      }
      forall c | 0 <= c < |cells| && cells[c] == 1 ensures c in Ones(cells) {
        if c < last {
          assert init[c] == cells[c];
          assert c in a;
        } else {
          assert c in tail;
        }
      }
    }
  }

  /** The coloured record `from - to` / `(from, to)` of the own formats: an edge unless `to`
      is the isolated-vertex sentinel -1, then both named vertices take `color`; naming a
      missing vertex throws a NullPointerException. */
  function RecordPair(g: Graph, from: int, to: int, color: int): (r: Result<Graph, LoadError>)
    ensures r.Success? <==> from in g && (to != -1 ==> to in g)
    ensures r.Success? ==> r.value.Keys == g.Keys
    ensures r.Success? ==> forall u, w :: HasEdge(r.value, u, w) <==> HasEdge(g, u, w) || (u == from && w == to && to != -1)
    ensures r.Success? ==> r.value[from].color == color && (to != -1 ==> r.value[to].color == color)
    ensures r.Success? ==> forall k :: k in g && k != from && (k != to || to == -1) ==> r.value[k] == g[k]
    ensures r.Success? ==> forall k :: k in g ==> r.value[k].id == g[k].id && r.value[k].x == g[k].x && r.value[k].y == g[k].y
    ensures r.Success? && WellFormed(g) ==> WellFormed(r.value)
  {
    var g1 := if to != -1 then AddEdge(g, from, to) else g;
    if to != -1 && to !in g1 then Failure(MissingVertex)
    else
      var g2 := if to != -1 then SetColorOf(g1, to, color) else g1;
      if from !in g2 then Failure(MissingVertex)
      else Success(SetColorOf(g2, from, color))
  }
}
