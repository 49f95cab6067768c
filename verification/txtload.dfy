/** `Graph.loadCGraphTXT`: the own text format, read line by line as a small state machine.
    Each line arrives trimmed and already classified and split into fields. */
module TxtLoader {
  import opened Wrappers
  import opened Seqs
  import opened Vertices
  import opened Graphs
  import opened Records

  /** A trimmed line: empty, a `[...]` matrix row split at the dots, or anything else split
      at `-` (a connection when it has exactly two fields). */
  datatype TxtLine = Blank | MatrixRow(cells: seq<Field>) | Connection(fields: seq<Field>)

  /** The reader's counters: next matrix row, next vertex id, current colour. */
  datatype TxtState = TxtState(g: Graph, row: int, nextId: int, color: int)

  /** Every vertex so far was numbered below `nextId`, so the next id is fresh. */
  ghost predicate Numbered(st: TxtState) {
    && st.nextId >= 0
    && WellFormed(st.g)
    && (forall k :: k in st.g <==> 0 <= k < st.nextId)
  }

  /** One vertex per listed column, numbered from `id` in column order, all on `row`. */
  function PlaceOnes(g: Graph, cols: seq<nat>, row: int, id: int): (r: Graph)
    requires forall k :: k in g ==> k < id
    requires WellFormed(g)
    ensures WellFormed(r)
    ensures forall k :: k in r <==> k in g || id <= k < id + |cols|
    ensures forall k :: k in g ==> r[k] == g[k]
    ensures forall t :: 0 <= t < |cols| ==> r[id + t] == NewVertex(id + t, cols[t], row, 0)
  {
    if |cols| == 0 then g
    else
      var g' := PlaceOnes(g, cols[..|cols| - 1], row, id);
      var n := id + |cols| - 1;
      AddVertexWellFormed(g', NewVertex(n, cols[|cols| - 1], row, 0));
      AddVertex(g', n, NewVertex(n, cols[|cols| - 1], row, 0))
  }

  /** A `[...]` line: each cell equal to 1 becomes the next vertex, at its column on the
      current row; the row counter then advances. A non-numeric cell aborts the load. */
  function MatrixLine(st: TxtState, cells: seq<Field>): (r: Result<TxtState, LoadError>)
    requires Numbered(st)
    ensures r.Success? <==> ParseInts(cells).Success?
    ensures r.Success? ==> Numbered(r.value)
    ensures r.Success? ==>
      var ones := Ones(ParseInts(cells).value);
      && r.value.row == st.row + 1 && r.value.color == st.color
      && r.value.nextId == st.nextId + |ones|
      && (forall k :: k in st.g ==> r.value.g[k] == st.g[k])
      && (forall k :: k in st.g ==> k in r.value.g)
      && (forall t :: 0 <= t < |ones| ==> st.nextId + t in r.value.g && r.value.g[st.nextId + t] == NewVertex(st.nextId + t, ones[t], st.row, 0))
  {
    var vals :- ParseInts(cells);
    var ones := Ones(vals);
    var g := PlaceOnes(st.g, ones, st.row, st.nextId);
    Success(TxtState(g, st.row + 1, st.nextId + |ones|, st.color))
  }

  /** Any other line: acted on only when it splits into exactly two fields `from - to`,
      which are then recorded with the current colour. */
  function ConnectionLine(st: TxtState, fields: seq<Field>): (r: Result<TxtState, LoadError>)
    requires Numbered(st)
    ensures r.Success? ==> Numbered(r.value)
    ensures r.Success? ==> r.value.row == st.row && r.value.nextId == st.nextId && r.value.color == st.color
    ensures |fields| != 2 ==> r == Success(st)
    ensures |fields| == 2 && ParseInts(fields).Failure? ==> r == Failure(ParseInts(fields).error)
    ensures |fields| == 2 && ParseInts(fields).Success? ==>
      var from := fields[0].value;
      var to := fields[1].value;
      && (r.Success? <==> from in st.g && (to != -1 ==> to in st.g))
      && (r.Success? ==> r.value == st.(g := RecordPair(st.g, from, to, st.color).value))
  {
    if |fields| != 2 then Success(st)
    else
      var pair :- ParseInts(fields);
      var g' :- RecordPair(st.g, pair[0], pair[1], st.color);
      Success(st.(g := g'))
  }

  /** One line of the file; a blank line only advances the colour counter. */
  function StepTxt(st: TxtState, line: TxtLine): (r: Result<TxtState, LoadError>)
    requires Numbered(st)
    ensures r.Success? ==> Numbered(r.value)
    ensures line.Blank? ==> r == Success(st.(color := st.color + 1))
    ensures r.Success? && !line.Blank? ==> r.value.color == st.color
  {
    match line
    case Blank => Success(st.(color := st.color + 1))
    case MatrixRow(cells) => MatrixLine(st, cells)
    case Connection(fields) => ConnectionLine(st, fields)
  }

  /** The lines read so far, from the empty graph with all counters at 0. */
  function ReadTxt(lines: seq<TxtLine>): (r: Result<TxtState, LoadError>)
    ensures r.Success? ==> Numbered(r.value)
  {
    if |lines| == 0 then Success(TxtState(map[], 0, 0, 0))
    else
      var st :- ReadTxt(lines[..|lines| - 1]);
      StepTxt(st, lines[|lines| - 1])
  }

  /** `loadCGraphTXT`: a well-formed graph whose ids run from 0 without gaps. */
  function LoadTxt(lines: seq<TxtLine>): (r: Result<Graph, LoadError>)
    ensures r.Success? ==> WellFormed(r.value)
    ensures r.Success? ==> forall k :: k in r.value ==> k >= 0 && (k > 0 ==> k - 1 in r.value)
  {
    var st :- ReadTxt(lines);
    Success(st.g)
  }

  /** Number of blank lines. */
  function BlankCount(ls: seq<TxtLine>): nat {
    if |ls| == 0 then 0 else BlankCount(ls[..|ls| - 1]) + (if ls[|ls| - 1].Blank? then 1 else 0)
  }

  /** The colour counter is the number of blank lines read so far. */
  lemma {:induction false} ReadTxtColor(lines: seq<TxtLine>)
    requires ReadTxt(lines).Success?
    ensures ReadTxt(lines).value.color == BlankCount(lines)
  {
    if |lines| > 0 {
      ReadTxtColor(lines[..|lines| - 1]);
    }
  }

  /** Blank lines only advance the colour counter, and a line that does not split into two
      fields is skipped whatever it contains. */
  lemma {:induction false} BlankAndOddLinesOnlyCount(lines: seq<TxtLine>, extra: seq<TxtLine>)
    requires ReadTxt(lines).Success?
    requires forall i :: 0 <= i < |extra| ==> extra[i].Blank? || (extra[i].Connection? && |extra[i].fields| != 2)
    ensures ReadTxt(lines + extra).Success?
    ensures var a := ReadTxt(lines).value; var b := ReadTxt(lines + extra).value;
      b.g == a.g && b.row == a.row && b.nextId == a.nextId && b.color == a.color + BlankCount(extra)
  {
    if |extra| == 0 {
      assert lines + extra == lines;
    } else {
      var init := extra[..|extra| - 1];
      assert forall i :: 0 <= i < |init| ==> init[i] == extra[i];
      BlankAndOddLinesOnlyCount(lines, init);
      assert (lines + extra)[..|lines + extra| - 1] == lines + init;
      assert (lines + extra)[|lines + extra| - 1] == extra[|extra| - 1];
    }
  }
}
