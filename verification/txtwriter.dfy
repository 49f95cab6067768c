/** `GraphPartitioner.savePartitionedGraph`: the partition is written into the vertex
    colours, then the occupancy matrix is printed one `[c.c.c]` line per row, two empty lines
    follow, and every colour group prints one `from - to` line per out-edge (or `id - -1`
    for a vertex without out-edges) and an empty line. Each printed line is kept as the
    fields `Graph.loadCGraphTXT` splits it into, so what the text reader makes of the file
    can be stated. */
module TxtWriter {
  import opened Wrappers
  import opened JavaInt
  import opened Seqs
  import opened Vertices
  import opened Graphs
  import opened Records
  import opened TxtLoader
  import opened Writers

  /** A printed line. */
  datatype TextLine =
    | RowText(cells: seq<int>)        // `[` the cells joined by `.` `]`
    | EmptyText                       // `println()`
    | RecordText(from: int, to: int)  // `from - to`

  lemma RowBound(y: int, w: int, h: int)
    requires 0 <= y < h && w >= 0
    ensures 0 <= y * w <= (y + 1) * w <= w * h
  {
    RowsBound(y + 1, w, h);
  }

  lemma RowsBound(n: int, w: int, h: int)
    requires 0 <= n <= h && w >= 0
    ensures 0 <= n * w <= w * h
  {
    assert w * h - n * w == (h - n) * w;
  }

  /** Row `y` of the matrix. */
  function Row(m: Matrix, y: int): (r: seq<int>)
    requires 0 <= y < m.height && m.width >= 0 && |m.cells| == m.width * m.height
    ensures |r| == m.width
  {
    RowBound(y, m.width, m.height);
    m.cells[y * m.width .. (y + 1) * m.width]
  }

  /** The row holds the matrix's cells of that row. */
  lemma RowCells(m: Matrix, y: int)
    requires 0 <= y < m.height && m.width >= 0 && |m.cells| == m.width * m.height
    ensures forall x :: 0 <= x < m.width ==> Row(m, y)[x] == Cell(m, x, y)
  {
    RowBound(y, m.width, m.height);
  }

  /** The lines of the first `n` matrix rows. */
  function MatrixText(m: Matrix, n: nat): (ls: seq<TextLine>)
    requires n <= m.height && m.width >= 0 && |m.cells| == m.width * m.height
    ensures |ls| == n
    ensures forall y :: 0 <= y < n ==> ls[y] == RowText(Row(m, y))
  {
    if n == 0 then [] else MatrixText(m, n - 1) + [RowText(Row(m, n - 1))]
  }

  /** One line per record. */
  function RecordLines(ps: seq<(int, int)>): (ls: seq<TextLine>)
    ensures |ls| == |ps|
    ensures forall i :: 0 <= i < |ps| ==> ls[i] == RecordText(ps[i].0, ps[i].1)
  {
    seq(|ps|, i requires 0 <= i < |ps| => RecordText(ps[i].0, ps[i].1))
  }

  /** The lines of the colour groups: each group's records, then an empty line. */
  function GroupText(g: Graph, gs: seq<seq<int>>): seq<TextLine>
    requires forall b, v :: 0 <= b < |gs| && v in gs[b] ==> v in g
  {
    if |gs| == 0 then []
    else GroupText(g, gs[..|gs| - 1]) + RecordLines(GroupPairs(g, gs[|gs| - 1])) + [EmptyText]
  }

  /** `savePartitionedGraph`: the printed lines. It throws exactly when the binary writer
      does: a vertex without a part, or a coordinate the matrix cannot hold. */
  function WriteTxt(g: Graph, part: map<int, int>, keyOrder: seq<int>, colorOrder: seq<int>): (r: Result<seq<TextLine>, SaveError>)
    requires IsOrderOf(keyOrder, g.Keys) && IsOrderOf(colorOrder, UsedParts(g, part)) && CoordsInt32(g)
    ensures r.Success? <==> g.Keys <= part.Keys && CoordsFit(g)
  {
    var colored :- AssignColors(g, part);
    var m :- Grid(colored, keyOrder);
    GridMarks(colored, keyOrder);
    GridShape(colored, keyOrder);
    Success(MatrixText(m, m.height) + [EmptyText, EmptyText] + GroupText(colored, Groups(colored, keyOrder, colorOrder)))
  }

  /** The fields `split("\\s*-\\s*")` gives for a printed id: a minus sign is taken for a
      separator, leaving an empty field before the digits. */
  function SplitId(n: int): (fs: seq<Field>)
    ensures |fs| >= 1 && (|fs| == 1 <==> n >= 0)
  {
    if n >= 0 then [Some(n)] else [None, Some(-n)]
  }

  /** How the text reader classifies and splits a printed line. */
  function ReadBack(l: TextLine): TxtLine {
    match l
    case RowText(cells) => MatrixRow(seq(|cells|, i requires 0 <= i < |cells| => Some(cells[i])))
    case EmptyText => Blank
    case RecordText(a, b) => Connection(SplitId(a) + SplitId(b))
  }

  function ReadBackAll(ls: seq<TextLine>): (r: seq<TxtLine>)
    ensures |r| == |ls| && forall i :: 0 <= i < |ls| ==> r[i] == ReadBack(ls[i])
  {
    seq(|ls|, i requires 0 <= i < |ls| => ReadBack(ls[i]))
  }

  /** A record line is read as the record it was printed from exactly when both ids are
      non-negative; the isolated-vertex line `id - -1` always has three or more fields and is
      skipped, so the reader neither colours nor connects anything for it. */
  lemma RecordReadsBack(st: TxtState, a: int, b: int)
    requires Numbered(st)
    ensures ReadBack(RecordText(a, b)).Connection?
    ensures |ReadBack(RecordText(a, b)).fields| == 2 <==> a >= 0 && b >= 0
    ensures a >= 0 && b >= 0 ==> ReadBack(RecordText(a, b)).fields == [Some(a), Some(b)]
    ensures b == -1 ==> StepTxt(st, ReadBack(RecordText(a, b))) == Success(st)
  {
    var fs := SplitId(a) + SplitId(b);
    assert |fs| == |SplitId(a)| + |SplitId(b)|;
  }

  /** The positions of the 1-cells of row `y`, left to right. */
  function RowPositions(m: Matrix, y: int): (ps: seq<(int, int)>)
    requires 0 <= y < m.height && m.width >= 0 && |m.cells| == m.width * m.height
  {
    var cols := Ones(Row(m, y));
    seq(|cols|, u requires 0 <= u < |cols| => (cols[u] as int, y))
  }

  /** The positions of the 1-cells of the first `n` rows, in row-major order. */
  function Positions(m: Matrix, n: nat): seq<(int, int)>
    requires n <= m.height && m.width >= 0 && |m.cells| == m.width * m.height
  {
    if n == 0 then [] else Positions(m, n - 1) + RowPositions(m, n - 1)
  }

  /** A row lists exactly the columns of its 1-cells. */
  lemma RowPositionsCells(m: Matrix, y: int)
    requires 0 <= y < m.height && m.width >= 0 && |m.cells| == m.width * m.height
    ensures forall x, y' :: (x, y') in RowPositions(m, y) <==> y' == y && 0 <= x < m.width && Cell(m, x, y) == 1
  {
    var row := Row(m, y);
    var cols := Ones(row);
    var ps := RowPositions(m, y);
    OnesFacts(row);
    RowCells(m, y);
    forall x, y' | y' == y && 0 <= x < m.width && Cell(m, x, y) == 1 ensures (x, y') in ps {
      assert row[x] == 1;
      var u :| 0 <= u < |cols| && cols[u] == x;
      assert ps[u] == (x, y');
    }
  }

  /** The first `n` rows list exactly the positions of their 1-cells. */
  lemma {:induction false} PositionsCells(m: Matrix, n: nat)
    requires n <= m.height && m.width >= 0 && |m.cells| == m.width * m.height
    ensures forall x, y :: (x, y) in Positions(m, n) <==> 0 <= x < m.width && 0 <= y < n && Cell(m, x, y) == 1
  {
    if n > 0 {
      PositionsCells(m, n - 1);
      RowPositionsCells(m, n - 1);
    }
  }

  /** Vertices `lo` to `hi - 1` sit at the positions `ps` lists. */
  ghost predicate Placed(g: Graph, ps: seq<(int, int)>, lo: int, hi: int)
    requires 0 <= lo <= hi <= |ps|
  {
    forall t :: lo <= t < hi ==> t in g && g[t] == NewVertex(t, ps[t].0, ps[t].1, 0)
  }

  /** What the reader holds after the first `n` matrix lines: `n` rows read, colour still 0,
      and one vertex per 1-cell so far, numbered in row-major order. */
  ghost predicate ReadRowsState(m: Matrix, n: nat, st: TxtState)
    requires n <= m.height && m.width >= 0 && |m.cells| == m.width * m.height
  {
    RowsRead(st, Positions(m, n), n)
  }

  /** The reader has read `n` rows, is still at colour 0, and holds one vertex per position
      of `ps`, numbered in order. */
  ghost predicate RowsRead(st: TxtState, ps: seq<(int, int)>, n: int) {
    && st.row == n && st.color == 0 && st.nextId == |ps|
    && Placed(st.g, ps, 0, |ps|)
  }

  /** The matrix lines read back: the reader makes one vertex per 1-cell, numbered in
      row-major order from 0, at the cell's column and row, and its colour counter is still
      0. */
  lemma {:induction false} ReadRows(m: Matrix, n: nat)
    requires n <= m.height && m.width >= 0 && |m.cells| == m.width * m.height
    requires forall c :: 0 <= c < |m.cells| ==> IsInt32(m.cells[c])
    ensures ReadTxt(ReadBackAll(MatrixText(m, n))).Success?
    ensures ReadRowsState(m, n, ReadTxt(ReadBackAll(MatrixText(m, n))).value)
  {
    if n == 0 {
      assert ReadBackAll(MatrixText(m, n)) == [];
    } else {
      ReadRows(m, n - 1);
      ReadRowsStep(m, n);
    }
  }

  /** One more printed matrix line read back extends the reader's state by that row. */
  lemma ReadRowsStep(m: Matrix, n: nat)
    requires 0 < n <= m.height && m.width >= 0 && |m.cells| == m.width * m.height
    requires forall c :: 0 <= c < |m.cells| ==> IsInt32(m.cells[c])
    requires ReadTxt(ReadBackAll(MatrixText(m, n - 1))).Success?
    requires ReadRowsState(m, n - 1, ReadTxt(ReadBackAll(MatrixText(m, n - 1))).value)
    ensures ReadTxt(ReadBackAll(MatrixText(m, n))).Success?
    ensures ReadRowsState(m, n, ReadTxt(ReadBackAll(MatrixText(m, n))).value)
  {
    var fields := RowParses(m, n - 1);
    ReadNextRow(m, n, fields);
    RowStep(m, n, ReadTxt(ReadBackAll(MatrixText(m, n - 1))).value, fields);
  }

  /** Reading one more printed matrix line is one `MatrixLine` step from the state the
      earlier lines left. */
  lemma ReadNextRow(m: Matrix, n: nat, fields: seq<Field>)
    requires 0 < n <= m.height && m.width >= 0 && |m.cells| == m.width * m.height
    requires ReadTxt(ReadBackAll(MatrixText(m, n - 1))).Success?
    requires ReadBack(RowText(Row(m, n - 1))) == MatrixRow(fields)
    ensures ReadTxt(ReadBackAll(MatrixText(m, n))) == MatrixLine(ReadTxt(ReadBackAll(MatrixText(m, n - 1))).value, fields)
  {
    var prev := ReadBackAll(MatrixText(m, n - 1));
    assert ReadBackAll(MatrixText(m, n)) == prev + [MatrixRow(fields)] by {
      assert MatrixText(m, n) == MatrixText(m, n - 1) + [RowText(Row(m, n - 1))];
      ReadBackAllSnoc(MatrixText(m, n - 1), RowText(Row(m, n - 1)));
    }
    ReadSnoc(prev, MatrixRow(fields));
  }

  lemma ReadBackAllSnoc(ls: seq<TextLine>, l: TextLine)
    ensures ReadBackAll(ls + [l]) == ReadBackAll(ls) + [ReadBack(l)]
  {
  }

  /** Reading one more line is one more step from the state the earlier lines left. */
  lemma ReadSnoc(lines: seq<TxtLine>, l: TxtLine)
    requires ReadTxt(lines).Success?
    ensures ReadTxt(lines + [l]) == StepTxt(ReadTxt(lines).value, l)
  {
    assert (lines + [l])[..|lines|] == lines;
  }

  /** A printed row is read back as a matrix line whose cells parse to the row. */
  lemma RowParses(m: Matrix, y: int) returns (fields: seq<Field>)
    requires 0 <= y < m.height && m.width >= 0 && |m.cells| == m.width * m.height
    requires forall c :: 0 <= c < |m.cells| ==> IsInt32(m.cells[c])
    ensures ReadBack(RowText(Row(m, y))) == MatrixRow(fields)
    ensures ParseInts(fields) == Success(Row(m, y))
  {
    var row := Row(m, y);
    fields := seq(|row|, i requires 0 <= i < |row| => Some(row[i]));
    RowInt32(m, y);
    assert ParseInts(fields).value == row;
  }

  lemma RowInt32(m: Matrix, y: int)
    requires 0 <= y < m.height && m.width >= 0 && |m.cells| == m.width * m.height
    requires forall c :: 0 <= c < |m.cells| ==> IsInt32(m.cells[c])
    ensures forall x :: 0 <= x < m.width ==> IsInt32(Row(m, y)[x])
  {
    RowBound(y, m.width, m.height);
  }

  /** Reading row `n - 1` extends the state of the first `n - 1` rows to that of `n` rows. */
  lemma RowStep(m: Matrix, n: nat, st: TxtState, fields: seq<Field>)
    requires 0 < n <= m.height && m.width >= 0 && |m.cells| == m.width * m.height
    requires Numbered(st) && ReadRowsState(m, n - 1, st)
    requires ParseInts(fields) == Success(Row(m, n - 1))
    ensures MatrixLine(st, fields).Success?
    ensures ReadRowsState(m, n, MatrixLine(st, fields).value)
  {
    RowLine(st, fields, Row(m, n - 1));
    RowsStep(m, n, st, MatrixLine(st, fields).value, Ones(Row(m, n - 1)));
  }

  /** A reader state that adds row `n - 1`'s 1-cells `cols` as the next vertices, on that
      row, extends the state of `n - 1` rows to that of `n` rows. */
  lemma RowsStep(m: Matrix, n: nat, st: TxtState, r: TxtState, cols: seq<nat>)
    requires 0 < n <= m.height && m.width >= 0 && |m.cells| == m.width * m.height
    requires ReadRowsState(m, n - 1, st)
    requires cols == Ones(Row(m, n - 1))
    requires RowAdded(st, r, cols, st.row)
    ensures ReadRowsState(m, n, r)
  {
    assert st.row == n - 1;
    RowPositionsShape(m, n - 1, cols);
    StateStep(st, r, Positions(m, n - 1), RowPositions(m, n - 1), cols, n - 1);
    PositionsSnoc(m, n);
  }

  /** Row `y`'s positions are its 1-cells' columns, paired with `y`. */
  lemma RowPositionsShape(m: Matrix, y: int, cols: seq<nat>)
    requires 0 <= y < m.height && m.width >= 0 && |m.cells| == m.width * m.height
    requires cols == Ones(Row(m, y))
    ensures |RowPositions(m, y)| == |cols|
    ensures forall u :: 0 <= u < |cols| ==> RowPositions(m, y)[u] == (cols[u] as int, y)
  {
  }

  /** The first `n` rows' positions are the first `n - 1` rows' and then row `n - 1`'s. */
  lemma PositionsSnoc(m: Matrix, n: nat)
    requires 0 < n <= m.height && m.width >= 0 && |m.cells| == m.width * m.height
    ensures Positions(m, n) == Positions(m, n - 1) + RowPositions(m, n - 1)
  {
  }

  /** The reader's state after a row, from its state before the row and what the row adds. */
  lemma StateStep(st: TxtState, r: TxtState, before: seq<(int, int)>, here: seq<(int, int)>, cols: seq<nat>, y: int)
    requires |here| == |cols| && forall u :: 0 <= u < |cols| ==> here[u] == (cols[u] as int, y)
    requires RowsRead(st, before, y)
    requires RowAdded(st, r, cols, y)
    ensures RowsRead(r, before + here, y + 1)
  {
    var ps := before + here;
    PlacedKept(st.g, r.g, before, ps);
    forall t | |before| <= t < |ps| ensures t in r.g && r.g[t] == NewVertex(t, ps[t].0, ps[t].1, 0) {
      var u := t - |before|;
      assert ps[t] == here[u] == (cols[u] as int, y);
    }
    PlacedJoin(r.g, ps, |before|);
  }

  /** What one matrix line does to the reader, for a line whose cells parse to `row`. */
  lemma RowLine(st: TxtState, fields: seq<Field>, row: seq<int>)
    requires Numbered(st) && ParseInts(fields) == Success(row)
    ensures MatrixLine(st, fields).Success?
    ensures RowAdded(st, MatrixLine(st, fields).value, Ones(row), st.row)
  {
  }

  /** `r` is `st` after a row `y` whose 1-cells sit at columns `cols`: one more row, the same
      colour, the earlier vertices kept and one new vertex per column, numbered on. */
  ghost predicate RowAdded(st: TxtState, r: TxtState, cols: seq<nat>, y: int) {
    && r.row == st.row + 1 && r.color == st.color && r.nextId == st.nextId + |cols|
    && (forall k :: k in st.g ==> k in r.g && r.g[k] == st.g[k])
    && (forall u :: 0 <= u < |cols| ==> st.nextId + u in r.g && r.g[st.nextId + u] == NewVertex(st.nextId + u, cols[u], y, 0))
  }

  lemma PlacedJoin(g: Graph, ps: seq<(int, int)>, mid: int)
    requires 0 <= mid <= |ps|
    requires Placed(g, ps, 0, mid) && Placed(g, ps, mid, |ps|)
    ensures Placed(g, ps, 0, |ps|)
  {
  }

  /** Vertices the reader keeps stay where they were. */
  lemma PlacedKept(g: Graph, g': Graph, before: seq<(int, int)>, ps: seq<(int, int)>)
    requires before <= ps
    requires Placed(g, before, 0, |before|)
    requires forall k :: k in g ==> k in g' && g'[k] == g[k]
    ensures Placed(g', ps, 0, |before|)
  {
    forall t | 0 <= t < |before| ensures t in g' && g'[t] == NewVertex(t, ps[t].0, ps[t].1, 0) {
      assert ps[t] == before[t];
    }
  }

  /** Number of empty lines. */
  function Blanks(ls: seq<TextLine>): nat {
    if |ls| == 0 then 0 else Blanks(ls[..|ls| - 1]) + (if ls[|ls| - 1].EmptyText? then 1 else 0)
  }

  lemma {:induction false} BlanksReadBack(ls: seq<TextLine>)
    ensures BlankCount(ReadBackAll(ls)) == Blanks(ls)
  {
    if |ls| > 0 {
      BlanksReadBack(ls[..|ls| - 1]);
      assert ReadBackAll(ls)[..|ls| - 1] == ReadBackAll(ls[..|ls| - 1]);
    }
  }

  lemma {:induction false} BlanksAppend(a: seq<TextLine>, b: seq<TextLine>)
    ensures Blanks(a + b) == Blanks(a) + Blanks(b)
  {
    if |b| == 0 {
      assert a + b == a;
    } else {
      BlanksAppend(a, b[..|b| - 1]);
      assert (a + b)[..|a + b| - 1] == a + b[..|b| - 1];
    }
  }

  lemma {:induction false} NoBlanks(ls: seq<TextLine>)
    requires forall i :: 0 <= i < |ls| ==> !ls[i].EmptyText?
    ensures Blanks(ls) == 0
  {
    if |ls| > 0 {
      NoBlanks(ls[..|ls| - 1]);
    }
  }

  /** The group text holds one empty line per group. */
  lemma {:induction false} GroupTextBlanks(g: Graph, gs: seq<seq<int>>)
    requires forall c, v :: 0 <= c < |gs| && v in gs[c] ==> v in g
    ensures Blanks(GroupText(g, gs)) == |gs|
  {
    if |gs| > 0 {
      var init := gs[..|gs| - 1];
      GroupTextBlanks(g, init);
      var recs := RecordLines(GroupPairs(g, gs[|gs| - 1]));
      NoBlanks(recs);
      BlanksAppend(GroupText(g, init) + recs, [EmptyText]);
      BlanksAppend(GroupText(g, init), recs);
      assert Blanks([EmptyText]) == 1 by {
        assert [EmptyText][..0] == [];
      }
    }
  }

  /** The text of the first `b` groups is a prefix of the text of all groups. */
  lemma {:induction false} GroupTextPrefix(g: Graph, gs: seq<seq<int>>, b: nat)
    requires forall c, v :: 0 <= c < |gs| && v in gs[c] ==> v in g
    requires b <= |gs|
    ensures GroupText(g, gs[..b]) <= GroupText(g, gs)
  {
    if b < |gs| {
      var init := gs[..|gs| - 1];
      assert init[..b] == gs[..b];
      GroupTextPrefix(g, init, b);
    } else {
      assert gs[..b] == gs;
    }
  }

  /** No position is listed twice. */
  ghost predicate Distinct(ps: seq<(int, int)>) {
    forall s, t :: 0 <= s < t < |ps| ==> ps[s] != ps[t]
  }

  /** Every listed position lies above row `n`. */
  ghost predicate RowsBelow(ps: seq<(int, int)>, n: int) {
    forall u :: 0 <= u < |ps| ==> ps[u].1 < n
  }

  /** A row lists distinct positions, all on that row. */
  lemma RowPositionsDistinct(m: Matrix, y: int)
    requires 0 <= y < m.height && m.width >= 0 && |m.cells| == m.width * m.height
    ensures Distinct(RowPositions(m, y))
    ensures forall u :: 0 <= u < |RowPositions(m, y)| ==> RowPositions(m, y)[u].1 == y
  {
    var cols := Ones(Row(m, y));
    var ps := RowPositions(m, y);
    OnesFacts(Row(m, y));
    assert forall s, t :: 0 <= s < t < |cols| ==> cols[s] < cols[t];
    forall s, t | 0 <= s < t < |ps| ensures ps[s] != ps[t] {
      assert ps[s].0 == cols[s] as int && ps[t].0 == cols[t] as int;
      assert cols[s] < cols[t];
    }
  }

  lemma JoinDistinct(before: seq<(int, int)>, here: seq<(int, int)>, y: int)
    requires Distinct(before) && RowsBelow(before, y)
    requires Distinct(here) && forall u :: 0 <= u < |here| ==> here[u].1 == y
    ensures Distinct(before + here) && RowsBelow(before + here, y + 1)
  {
    var ps := before + here;
    forall s, t | 0 <= s < t < |ps| ensures ps[s] != ps[t] {
      if s < |before| && t >= |before| {
        assert ps[s].1 < y == ps[t].1;
      }
    }
  }

  /** No two positions of the first `n` rows coincide. */
  lemma {:induction false} PositionsNoDup(m: Matrix, n: nat)
    requires n <= m.height && m.width >= 0 && |m.cells| == m.width * m.height
    ensures Distinct(Positions(m, n)) && RowsBelow(Positions(m, n), n)
  {
    if n > 0 {
      PositionsNoDup(m, n - 1);
      RowPositionsDistinct(m, n - 1);
      JoinDistinct(Positions(m, n - 1), RowPositions(m, n - 1), n - 1);
    }
  }

  /** The matrix lines the text writer printed for `g`. */
  function Printed(g: Graph, part: map<int, int>, keyOrder: seq<int>): (m: Matrix)
    requires IsOrderOf(keyOrder, g.Keys) && CoordsInt32(g)
    requires g.Keys <= part.Keys && CoordsFit(g)
    ensures m.width >= 1 && m.height >= 1 && |m.cells| == m.width * m.height
    ensures forall k :: k in g ==> g[k].x < m.width && g[k].y < m.height
  {
    var colored := AssignColors(g, part).value;
    GridShape(colored, keyOrder);
    GridMarks(colored, keyOrder);
    Grid(colored, keyOrder).value
  }

  /** The colour groups the text writer printed for `g`. */
  function PrintedGroups(g: Graph, part: map<int, int>, keyOrder: seq<int>, colorOrder: seq<int>): seq<seq<int>>
    requires g.Keys <= part.Keys
  {
    var colored := AssignColors(g, part).value;
    Groups(colored, keyOrder, colorOrder)
  }

  /** A written file is the matrix, two empty lines and the group text. */
  lemma WriteTxtShape(g: Graph, part: map<int, int>, keyOrder: seq<int>, colorOrder: seq<int>)
    requires IsOrderOf(keyOrder, g.Keys) && IsOrderOf(colorOrder, UsedParts(g, part)) && CoordsInt32(g)
    requires WriteTxt(g, part, keyOrder, colorOrder).Success?
    ensures var m := Printed(g, part, keyOrder); var colored := AssignColors(g, part).value;
      && m.width >= 1 && m.height >= 1 && |m.cells| == m.width * m.height
      && (forall c :: 0 <= c < |m.cells| ==> m.cells[c] == 0 || m.cells[c] == 1)
      && (forall x, y :: 0 <= x < m.width && 0 <= y < m.height ==> (Cell(m, x, y) == 1 <==> Occupied(g, x, y)))
      && (forall b, v :: 0 <= b < |PrintedGroups(g, part, keyOrder, colorOrder)| && v in PrintedGroups(g, part, keyOrder, colorOrder)[b] ==> v in colored)
      && WriteTxt(g, part, keyOrder, colorOrder).value
         == MatrixText(m, m.height) + [EmptyText, EmptyText] + GroupText(colored, PrintedGroups(g, part, keyOrder, colorOrder))
  {
    var colored := AssignColors(g, part).value;
    var m := Printed(g, part, keyOrder);
    GridShape(colored, keyOrder);
    GridOccupancy(colored, keyOrder);
    forall x, y ensures Occupied(colored, x, y) <==> Occupied(g, x, y) {
      if Occupied(g, x, y) {
        var k :| k in g && g[k].x == x && g[k].y == y;
        assert colored[k].x == x && colored[k].y == y;
      }
    }
  }

  /** Reading the matrix lines of a written file back with `loadCGraphTXT` gives one
      vertex per occupied position of the saved graph and no other: the vertices are
      numbered from 0 without gaps, no two share a position, each sits where some vertex
      of the saved graph sat, every such position is taken, and all have colour 0 and no
      neighbours yet. The matrix lines are followed by the two empty lines. */
  lemma WriteTxtReadsPositions(g: Graph, part: map<int, int>, keyOrder: seq<int>, colorOrder: seq<int>)
    requires IsOrderOf(keyOrder, g.Keys) && IsOrderOf(colorOrder, UsedParts(g, part)) && CoordsInt32(g)
    requires WriteTxt(g, part, keyOrder, colorOrder).Success?
    ensures var ls := WriteTxt(g, part, keyOrder, colorOrder).value; var h := Printed(g, part, keyOrder).height;
      && h + 2 <= |ls| && ls[h] == EmptyText && ls[h + 1] == EmptyText
      && ReadTxt(ReadBackAll(ls[..h])).Success?
      && var st := ReadTxt(ReadBackAll(ls[..h])).value;
        && st.row == h && st.color == 0
        && (forall k :: k in st.g <==> 0 <= k < st.nextId)
        && (forall k :: k in st.g ==> Occupied(g, st.g[k].x, st.g[k].y) && st.g[k].color == 0 && |st.g[k].neighbors| == 0)
        && (forall j, k :: j in st.g && k in st.g && j != k ==> (st.g[j].x, st.g[j].y) != (st.g[k].x, st.g[k].y))
        && (forall x, y :: Occupied(g, x, y) ==> exists k :: k in st.g && st.g[k].x == x && st.g[k].y == y)
  {
    WriteTxtMatrix(g, part, keyOrder, colorOrder);
    MatrixReads(g, Printed(g, part, keyOrder), WriteTxt(g, part, keyOrder, colorOrder).value);
  }

  /** A written file opens with the lines of a 0/1 matrix that marks exactly the positions
      of `g`, then two empty lines. */
  lemma WriteTxtMatrix(g: Graph, part: map<int, int>, keyOrder: seq<int>, colorOrder: seq<int>)
    requires IsOrderOf(keyOrder, g.Keys) && IsOrderOf(colorOrder, UsedParts(g, part)) && CoordsInt32(g)
    requires WriteTxt(g, part, keyOrder, colorOrder).Success?
    ensures var m := Printed(g, part, keyOrder); var ls := WriteTxt(g, part, keyOrder, colorOrder).value;
      && m.width >= 0 && m.height >= 0 && |m.cells| == m.width * m.height
      && (forall c :: 0 <= c < |m.cells| ==> m.cells[c] == 0 || m.cells[c] == 1)
      && (forall x, y :: 0 <= x < m.width && 0 <= y < m.height ==> (Cell(m, x, y) == 1 <==> Occupied(g, x, y)))
      && (forall k :: k in g ==> 0 <= g[k].x < m.width && 0 <= g[k].y < m.height)
      && m.height + 2 <= |ls| && ls[..m.height] == MatrixText(m, m.height)
      && ls[m.height] == EmptyText && ls[m.height + 1] == EmptyText
  {
    var ls := WriteTxt(g, part, keyOrder, colorOrder).value;
    var m := Printed(g, part, keyOrder);
    var h := m.height;
    WriteTxtShape(g, part, keyOrder, colorOrder);
    assert ls[..h] == MatrixText(m, h) && h + 2 <= |ls| && ls[h] == EmptyText && ls[h + 1] == EmptyText by {
      PrefixConcat(MatrixText(m, h), [EmptyText, EmptyText] + GroupText(AssignColors(g, part).value, PrintedGroups(g, part, keyOrder, colorOrder)));
    }
    GridShape(AssignColors(g, part).value, keyOrder);
  }

  /** Reading lines that open with the lines of a 0/1 matrix marking exactly the
      positions of `g`, then two empty lines, numbers one vertex per marked cell, at
      distinct positions, covering every position of `g`. */
  lemma MatrixReads(g: Graph, m: Matrix, ls: seq<TextLine>)
    requires m.width >= 0 && m.height >= 0 && |m.cells| == m.width * m.height
    requires forall c :: 0 <= c < |m.cells| ==> m.cells[c] == 0 || m.cells[c] == 1
    requires forall x, y :: 0 <= x < m.width && 0 <= y < m.height ==> (Cell(m, x, y) == 1 <==> Occupied(g, x, y))
    requires forall k :: k in g ==> 0 <= g[k].x < m.width && 0 <= g[k].y < m.height
    requires m.height + 2 <= |ls| && ls[..m.height] == MatrixText(m, m.height)
    requires ls[m.height] == EmptyText && ls[m.height + 1] == EmptyText
    ensures var h := m.height;
      && h + 2 <= |ls| && ls[h] == EmptyText && ls[h + 1] == EmptyText
      && ReadTxt(ReadBackAll(ls[..h])).Success?
      && var st := ReadTxt(ReadBackAll(ls[..h])).value;
      && st.row == h && st.color == 0
      && (forall k :: k in st.g <==> 0 <= k < st.nextId)
      && (forall k :: k in st.g ==> Occupied(g, st.g[k].x, st.g[k].y) && st.g[k].color == 0 && |st.g[k].neighbors| == 0)
      && (forall j, k :: j in st.g && k in st.g && j != k ==> (st.g[j].x, st.g[j].y) != (st.g[k].x, st.g[k].y))
      && (forall x, y :: Occupied(g, x, y) ==> exists k :: k in st.g && st.g[k].x == x && st.g[k].y == y)
  {
    var h := m.height;
    assert ReadRowsState(m, h, ReadTxt(ReadBackAll(MatrixText(m, h))).value) by {
      ReadRows(m, h);
    }
    PositionsCells(m, h);
    PositionsNoDup(m, h);
    ReadPositions(g, m, ReadTxt(ReadBackAll(MatrixText(m, h))).value, Positions(m, h));
  }

  lemma PrefixConcat<T>(a: seq<T>, b: seq<T>)
    requires |b| >= 2
    ensures (a + b)[..|a|] == a && (a + b)[|a|] == b[0] && (a + b)[|a| + 1] == b[1]
  {
  }

  /** A reader state holding one vertex per listed position, over the positions of the
      occupied cells, holds one vertex per occupied position. */
  lemma ReadPositions(g: Graph, m: Matrix, st: TxtState, ps: seq<(int, int)>)
    requires m.width >= 0 && |m.cells| == m.width * m.height
    requires forall x, y :: 0 <= x < m.width && 0 <= y < m.height ==> (Cell(m, x, y) == 1 <==> Occupied(g, x, y))
    requires forall k :: k in g ==> 0 <= g[k].x < m.width && 0 <= g[k].y < m.height
    requires forall x, y :: (x, y) in ps <==> 0 <= x < m.width && 0 <= y < m.height && Cell(m, x, y) == 1
    requires Distinct(ps)
    requires Numbered(st) && st.nextId == |ps| && Placed(st.g, ps, 0, |ps|)
    ensures forall k :: k in st.g ==> Occupied(g, st.g[k].x, st.g[k].y) && st.g[k].color == 0 && |st.g[k].neighbors| == 0
    ensures forall j, k :: j in st.g && k in st.g && j != k ==> (st.g[j].x, st.g[j].y) != (st.g[k].x, st.g[k].y)
    ensures forall x, y :: Occupied(g, x, y) ==> exists k :: k in st.g && st.g[k].x == x && st.g[k].y == y
  {
    forall k | k in st.g ensures Occupied(g, st.g[k].x, st.g[k].y) {
      assert ps[k] in ps;
    }
    forall j, k | j in st.g && k in st.g && j != k ensures (st.g[j].x, st.g[j].y) != (st.g[k].x, st.g[k].y) {
      if j < k {
        assert ps[j] != ps[k];
      } else {
        assert ps[k] != ps[j];
      }
    }
    forall x, y | Occupied(g, x, y) ensures exists k :: k in st.g && st.g[k].x == x && st.g[k].y == y {
      var v :| v in g && g[v].x == x && g[v].y == y;
      assert (x, y) in ps;
      var t :| 0 <= t < |ps| && ps[t] == (x, y);
      assert t in st.g && st.g[t].x == x && st.g[t].y == y;
    }
  }

  /** The first `b + 1` groups are the first `b`, then group `b`'s records and an empty
      line. */
  lemma GroupTextStep(g: Graph, gs: seq<seq<int>>, b: nat)
    requires forall c, v :: 0 <= c < |gs| && v in gs[c] ==> v in g
    requires b < |gs|
    ensures GroupText(g, gs[..b + 1]) == GroupText(g, gs[..b]) + RecordLines(GroupPairs(g, gs[b])) + [EmptyText]
  {
    assert gs[..b + 1][..b] == gs[..b];
  }

  lemma PrefixExtend<T>(h: seq<T>, a: seq<T>, c: seq<T>)
    requires a <= c
    ensures h + a <= h + c
  {
    assert (h + c)[..|h + a|] == h + a;
  }

  /** While the reader is inside a run of non-empty lines after `pre`, its colour counter is
      the number of empty lines in `pre`. */
  lemma PrefixColour(lines: seq<TextLine>, pre: seq<TextLine>, recs: seq<TextLine>, j: nat)
    requires j <= |recs| && forall i :: 0 <= i < |recs| ==> !recs[i].EmptyText?
    requires lines == pre + recs[..j]
    ensures ReadTxt(ReadBackAll(lines)).Success? ==> ReadTxt(ReadBackAll(lines)).value.color == Blanks(pre)
  {
    NoBlanks(recs[..j]);
    BlanksAppend(pre, recs[..j]);
    BlanksReadBack(lines);
    if ReadTxt(ReadBackAll(lines)).Success? {
      ReadTxtColor(ReadBackAll(lines));
    }
  }

  /** The matrix lines and the two empty lines after them hold two empty lines. */
  lemma HeaderBlanks(m: Matrix)
    requires m.width >= 0 && m.height >= 0 && |m.cells| == m.width * m.height
    ensures Blanks(MatrixText(m, m.height) + [EmptyText, EmptyText]) == 2
  {
    NoBlanks(MatrixText(m, m.height));
    BlanksAppend(MatrixText(m, m.height), [EmptyText, EmptyText]);
    assert [EmptyText, EmptyText][..1] == [EmptyText];
    assert [EmptyText][..0] == [];
  }

  /** In lines `ls`, the lines `recs` start at line `start` and are closed by an empty
      line, and the text reader's colour counter stands at `n` on every line of that run. */
  ghost predicate RunRead(ls: seq<TextLine>, start: int, recs: seq<TextLine>, n: int) {
    && 0 <= start && start + |recs| < |ls|
    && ls[start..start + |recs| + 1] == recs + [EmptyText]
    && (forall p :: start <= p <= start + |recs| && ReadTxt(ReadBackAll(ls[..p])).Success? ==>
          ReadTxt(ReadBackAll(ls[..p])).value.color == n)
  }

  /** In lines `ls` whose group text starts after line `h + 2`, group `b` of `gs` is the
      run of its record lines, read with the colour counter at `b + 2`. */
  ghost predicate GroupRead(ls: seq<TextLine>, h: int, g: Graph, gs: seq<seq<int>>, b: nat)
    requires forall c, v :: 0 <= c < |gs| && v in gs[c] ==> v in g
    requires b < |gs|
  {
    RunRead(ls, h + 2 + |GroupText(g, gs[..b])|, RecordLines(GroupPairs(g, gs[b])), b + 2)
  }

  /** In a written file, group `b` (in the colour map's iteration order) is read with the
      colour counter at `b + 2`: the two empty lines after the matrix and one per earlier
      group. So the reader colours the group's vertices `b + 2`, not with the part number
      they were saved with. */
  lemma WriteTxtGroupColour(g: Graph, part: map<int, int>, keyOrder: seq<int>, colorOrder: seq<int>, b: nat)
    requires IsOrderOf(keyOrder, g.Keys) && IsOrderOf(colorOrder, UsedParts(g, part)) && CoordsInt32(g)
    requires WriteTxt(g, part, keyOrder, colorOrder).Success?
    requires b < |PrintedGroups(g, part, keyOrder, colorOrder)|
    ensures GroupRead(WriteTxt(g, part, keyOrder, colorOrder).value, Printed(g, part, keyOrder).height,
      AssignColors(g, part).value, PrintedGroups(g, part, keyOrder, colorOrder), b)
  {
    PrintedGroupsIn(g, part, keyOrder, colorOrder);
    GroupSpan(g, part, keyOrder, colorOrder, b);
    var m := Printed(g, part, keyOrder);
    var colored := AssignColors(g, part).value;
    var gs := PrintedGroups(g, part, keyOrder, colorOrder);
    GroupReadAt(WriteTxt(g, part, keyOrder, colorOrder).value, m.height, colored, gs, b,
      MatrixText(m, m.height) + [EmptyText, EmptyText] + GroupText(colored, gs[..b]));
  }

  /** Every vertex the written groups list is a vertex of the coloured graph. */
  lemma PrintedGroupsIn(g: Graph, part: map<int, int>, keyOrder: seq<int>, colorOrder: seq<int>)
    requires IsOrderOf(keyOrder, g.Keys) && IsOrderOf(colorOrder, UsedParts(g, part)) && CoordsInt32(g)
    requires WriteTxt(g, part, keyOrder, colorOrder).Success?
    ensures forall c, v :: 0 <= c < |PrintedGroups(g, part, keyOrder, colorOrder)| && v in PrintedGroups(g, part, keyOrder, colorOrder)[c] ==>
      v in AssignColors(g, part).value
  {
    WriteTxtShape(g, part, keyOrder, colorOrder);
  }

  /** In a written file, group `b`'s records and closing empty line follow the matrix, two
      empty lines and the earlier groups' text, which hold `b + 2` empty lines. */
  lemma GroupSpan(g: Graph, part: map<int, int>, keyOrder: seq<int>, colorOrder: seq<int>, b: nat)
    requires IsOrderOf(keyOrder, g.Keys) && IsOrderOf(colorOrder, UsedParts(g, part)) && CoordsInt32(g)
    requires WriteTxt(g, part, keyOrder, colorOrder).Success?
    requires b < |PrintedGroups(g, part, keyOrder, colorOrder)|
    requires forall c, v :: 0 <= c < |PrintedGroups(g, part, keyOrder, colorOrder)| && v in PrintedGroups(g, part, keyOrder, colorOrder)[c] ==>
      v in AssignColors(g, part).value
    ensures var m := Printed(g, part, keyOrder); var colored := AssignColors(g, part).value;
      var gs := PrintedGroups(g, part, keyOrder, colorOrder);
      var pre := MatrixText(m, m.height) + [EmptyText, EmptyText] + GroupText(colored, gs[..b]);
      && pre + RecordLines(GroupPairs(colored, gs[b])) + [EmptyText] <= WriteTxt(g, part, keyOrder, colorOrder).value
      && |pre| == m.height + 2 + |GroupText(colored, gs[..b])|
      && Blanks(pre) == b + 2
  {
    WriteTxtShape(g, part, keyOrder, colorOrder);
    GroupWindow(WriteTxt(g, part, keyOrder, colorOrder).value, Printed(g, part, keyOrder),
      AssignColors(g, part).value, PrintedGroups(g, part, keyOrder, colorOrder), b);
  }

  /** Group `b` is read as a run once its records and closing empty line are known to
      follow a prefix `pre` of the right length holding `b + 2` empty lines. */
  lemma GroupReadAt(ls: seq<TextLine>, h: int, g: Graph, gs: seq<seq<int>>, b: nat, pre: seq<TextLine>)
    requires forall c, v :: 0 <= c < |gs| && v in gs[c] ==> v in g
    requires b < |gs|
    requires pre + RecordLines(GroupPairs(g, gs[b])) + [EmptyText] <= ls
    requires |pre| == h + 2 + |GroupText(g, gs[..b])| && Blanks(pre) == b + 2
    ensures GroupRead(ls, h, g, gs, b)
  {
    WindowRun(ls, pre, RecordLines(GroupPairs(g, gs[b])), h + 2 + |GroupText(g, gs[..b])|, b + 2);
  }

  /** In the lines of a matrix, two empty lines and the group text, group `b`'s records
      and closing empty line follow the two empty lines and the earlier groups' text. */
  lemma GroupWindow(ls: seq<TextLine>, m: Matrix, g: Graph, gs: seq<seq<int>>, b: nat)
    requires m.width >= 0 && m.height >= 0 && |m.cells| == m.width * m.height
    requires forall c, v :: 0 <= c < |gs| && v in gs[c] ==> v in g
    requires b < |gs|
    requires ls == MatrixText(m, m.height) + [EmptyText, EmptyText] + GroupText(g, gs)
    ensures var pre := MatrixText(m, m.height) + [EmptyText, EmptyText] + GroupText(g, gs[..b]);
      pre + RecordLines(GroupPairs(g, gs[b])) + [EmptyText] <= ls && Blanks(pre) == b + 2
  {
    GroupSplit(MatrixText(m, m.height) + [EmptyText, EmptyText], g, gs, b);
    HeaderBlanks(m);
  }

  /** After any `head`, group `b`'s records and closing empty line follow the text of the
      groups before it, and that text holds one empty line per earlier group. */
  lemma GroupSplit(head: seq<TextLine>, g: Graph, gs: seq<seq<int>>, b: nat)
    requires forall c, v :: 0 <= c < |gs| && v in gs[c] ==> v in g
    requires b < |gs|
    ensures head + GroupText(g, gs[..b]) + RecordLines(GroupPairs(g, gs[b])) + [EmptyText] <= head + GroupText(g, gs)
    ensures Blanks(head + GroupText(g, gs[..b])) == Blanks(head) + b
  {
    var before := GroupText(g, gs[..b]);
    var recs := RecordLines(GroupPairs(g, gs[b]));
    GroupTextStep(g, gs, b);
    GroupTextPrefix(g, gs, b + 1);
    PrefixExtend(head, GroupText(g, gs[..b + 1]), GroupText(g, gs));
    Assoc(head, before, recs, EmptyText);
    GroupTextBlanks(g, gs[..b]);
    BlanksAppend(head, before);
  }

  /** A run of non-empty lines after `pre`, closed by an empty line, is read with the
      colour counter at the number of empty lines in `pre`. */
  lemma WindowRun(ls: seq<TextLine>, pre: seq<TextLine>, recs: seq<TextLine>, start: int, n: int)
    requires pre + recs + [EmptyText] <= ls
    requires forall i :: 0 <= i < |recs| ==> !recs[i].EmptyText?
    requires start == |pre| && n == Blanks(pre)
    ensures RunRead(ls, start, recs, n)
  {
    Window(ls, pre, recs, EmptyText);
    ColourWindow(ls, pre, recs);
    assert ls[start..start + |recs| + 1] == recs + [EmptyText];
  }

  /** Reading up to any line of a run of non-empty lines after `pre` leaves the colour
      counter at the number of empty lines in `pre`. */
  lemma ColourWindow(ls: seq<TextLine>, pre: seq<TextLine>, recs: seq<TextLine>)
    requires forall i :: 0 <= i < |recs| ==> !recs[i].EmptyText?
    requires |pre| + |recs| <= |ls|
    requires forall j :: 0 <= j <= |recs| ==> |pre| + j <= |ls| && ls[..|pre| + j] == pre + recs[..j]
    ensures forall p :: |pre| <= p <= |pre| + |recs| && ReadTxt(ReadBackAll(ls[..p])).Success? ==>
      ReadTxt(ReadBackAll(ls[..p])).value.color == Blanks(pre)
  {
    forall p | |pre| <= p <= |pre| + |recs| && ReadTxt(ReadBackAll(ls[..p])).Success?
      ensures ReadTxt(ReadBackAll(ls[..p])).value.color == Blanks(pre)
    {
      var j := p - |pre|;
      assert ls[..p] == pre + recs[..j];
      PrefixColour(ls[..p], pre, recs, j);
    }
  }

  lemma Assoc<T>(h: seq<T>, a: seq<T>, r: seq<T>, e: T)
    ensures h + (a + r + [e]) == h + a + r + [e]
  {
  }

  /** Where `pre`, `recs` and `e` open `ls`: the positions of `recs` and `e`, and every
      prefix that ends inside `recs`. */
  lemma Window<T>(ls: seq<T>, pre: seq<T>, recs: seq<T>, e: T)
    requires pre + recs + [e] <= ls
    ensures |pre| + |recs| < |ls| && ls[|pre| + |recs|] == e
    ensures forall i :: 0 <= i < |recs| ==> ls[|pre| + i] == recs[i]
    ensures forall j :: 0 <= j <= |recs| ==> |pre| + j <= |ls| && ls[..|pre| + j] == pre + recs[..j]
  {
    var w := pre + recs + [e];
    assert ls[|pre| + |recs|] == w[|pre| + |recs|];
    forall i | 0 <= i < |recs| ensures ls[|pre| + i] == recs[i] {
      assert ls[|pre| + i] == w[|pre| + i];
    }
    forall j | 0 <= j <= |recs| ensures ls[..|pre| + j] == pre + recs[..j] {
      assert ls[..|pre| + j] == w[..|pre| + j];
    }
  }
}
