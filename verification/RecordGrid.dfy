/**
 The table a Record keeps in one flat vector: cell (row, col) is at row * cols + col. Here on values;
 RecordStore holds the objects.
 */
module RecordGrid {
  import opened Arithmetic
  import opened Guids
  import opened Wrappers

  datatype Kind = INT | STRING | OBJECT

  datatype Value = IntValue(number: int) | StringValue(text: string) | ObjectValue(id: Guid)

  function KindOf(v: Value): Kind {
    match v
    case IntValue(_) => INT
    case StringValue(_) => STRING
    case ObjectValue(_) => OBJECT
  }

  /** A DataList of rows' values, seen from outside. */
  type Tuple = seq<Value>

  predicate SameKinds(a: Tuple, b: Tuple) {
    |a| == |b| && forall i :: 0 <= i < |a| ==> KindOf(a[i]) == KindOf(b[i])
  }

  /** The used flags and the flat cells of a record with the given columns; None is a null pointer. */
  datatype Grid = Grid(columns: Tuple, used: seq<bool>, flat: seq<Option<Value>>)

  function Pos(g: Grid, row: nat, col: nat): nat {
    row * |g.columns| + col
  }

  predicate InGrid(g: Grid, row: int, col: int) {
    0 <= row < |g.used| && 0 <= col < |g.columns|
  }

  lemma PosInRange(g: Grid, row: nat, col: nat)
    requires InGrid(g, row, col)
    ensures Pos(g, row, col) < |g.used| * |g.columns|
  {
    var rest := |g.used| - 1 - row;
    assert |g.used| * |g.columns| == row * |g.columns| + |g.columns| + rest * |g.columns|;
  }

  /** Different cells of the grid are at different positions of the vector. */
  lemma PosInjective(g: Grid, row: nat, col: nat, row': nat, col': nat)
    requires InGrid(g, row, col) && InGrid(g, row', col') && Pos(g, row, col) == Pos(g, row', col')
    ensures row == row' && col == col'
  {
    var d := row - row';
    assert d * |g.columns| == col' - col;
    MultipleIsFar(|g.columns|, d);
  }

  predicate Sized(g: Grid) {
    |g.flat| == |g.used| * |g.columns|
  }

  function At(g: Grid, row: nat, col: nat): Option<Value>
    requires Sized(g) && InGrid(g, row, col)
  {
    PosInRange(g, row, col);
    g.flat[Pos(g, row, col)]
  }

  /** Allocated cells have their column's type, and used rows have all their cells allocated. */
  ghost predicate Ok(g: Grid) {
    && Sized(g)
    && forall row, col :: InGrid(g, row, col) ==>
      && (At(g, row, col).Some? ==> KindOf(At(g, row, col).value) == KindOf(g.columns[col]))
      && (g.used[row] ==> At(g, row, col).Some?)
  }

  // ------------------------------------------------------------------------------------------
  // The partial map it stands for
  // ------------------------------------------------------------------------------------------

  type Table = map<int, Tuple>

  ghost function Row(g: Grid, row: nat): (t: Tuple)
    requires Ok(g) && row < |g.used| && g.used[row]
    ensures |t| == |g.columns|
  {
    seq(|g.columns|, col requires 0 <= col < |g.columns| => At(g, row, col).value)
  }

  ghost function TableOf(g: Grid): Table
    requires Ok(g)
  {
    map row | 0 <= row < |g.used| && g.used[row] :: Row(g, row)
  }

  lemma TableIsTyped(g: Grid)
    requires Ok(g)
    ensures forall row :: row in TableOf(g) ==> 0 <= row < |g.used| && SameKinds(TableOf(g)[row], g.columns)
  {
  }

  // ------------------------------------------------------------------------------------------
  // Writing
  // ------------------------------------------------------------------------------------------

  function Write(g: Grid, row: nat, col: nat, v: Value): (r: Grid)
    requires Sized(g) && InGrid(g, row, col)
    ensures Sized(r) && r.columns == g.columns && r.used == g.used
  {
    PosInRange(g, row, col);
    g.(flat := g.flat[Pos(g, row, col) := Some(v)])
  }

  /** A write changes no other cell. */
  lemma WriteAt(g: Grid, row: nat, col: nat, v: Value, row': nat, col': nat)
    requires Sized(g) && InGrid(g, row, col) && InGrid(g, row', col')
    ensures At(Write(g, row, col, v), row', col')
      == if row == row' && col == col' then Some(v) else At(g, row', col')
  {
    PosInRange(g, row', col');
    if Pos(g, row, col) == Pos(g, row', col') {
      PosInjective(g, row, col, row', col');
    }
  }

  lemma WriteKeepsOk(g: Grid, row: nat, col: nat, v: Value)
    requires Ok(g) && InGrid(g, row, col) && KindOf(v) == KindOf(g.columns[col])
    ensures Ok(Write(g, row, col, v))
  {
    var r := Write(g, row, col, v);
    forall row', col' | InGrid(r, row', col')
      ensures At(r, row', col').Some? ==> KindOf(At(r, row', col').value) == KindOf(r.columns[col'])
      ensures r.used[row'] ==> At(r, row', col').Some?
    {
      WriteAt(g, row, col, v, row', col');
    }
  }

  /** One cell of a used row. */
  lemma WriteIsUpdate(g: Grid, row: nat, col: nat, v: Value)
    requires Ok(g) && row in TableOf(g) && col < |g.columns| && KindOf(v) == KindOf(g.columns[col])
    ensures Ok(Write(g, row, col, v))
    ensures TableOf(Write(g, row, col, v)) == TableOf(g)[row := TableOf(g)[row][col := v]]
  {
    WriteKeepsOk(g, row, col, v);
    var r := Write(g, row, col, v);
    forall row' | row' in TableOf(g)
      ensures Row(r, row') == if row' == row then Row(g, row)[col := v] else Row(g, row')
    {
      forall col' | 0 <= col' < |g.columns|
        ensures At(r, row', col') == if row == row' && col == col' then Some(v) else At(g, row', col')
      {
        WriteAt(g, row, col, v, row', col');
      }
    }
  }

  /** The first `n` cells of a row. */
  function WriteRow(g: Grid, row: nat, t: Tuple, n: nat): (r: Grid)
    requires Sized(g) && row < |g.used| && n <= |t| == |g.columns|
    ensures Sized(r) && r.columns == g.columns && r.used == g.used
    decreases n
  {
    if n == 0 then g else Write(WriteRow(g, row, t, n - 1), row, n - 1, t[n - 1])
  }

  lemma {:induction false} WriteRowAt(g: Grid, row: nat, t: Tuple, n: nat, row': nat, col': nat)
    requires Sized(g) && row < |g.used| && n <= |t| == |g.columns| && InGrid(g, row', col')
    ensures At(WriteRow(g, row, t, n), row', col')
      == if row == row' && col' < n then Some(t[col']) else At(g, row', col')
    decreases n
  {
    if n > 0 {
      WriteRowAt(g, row, t, n - 1, row', col');
      WriteAt(WriteRow(g, row, t, n - 1), row, n - 1, t[n - 1], row', col');
    }
  }

  /** A whole row written, then marked used, is one entry of the table. */
  lemma WriteRowIsUpdate(g: Grid, row: nat, t: Tuple)
    requires Ok(g) && row < |g.used| && SameKinds(t, g.columns)
    ensures var r := WriteRow(g, row, t, |t|).(used := g.used[row := true]);
      Ok(r) && TableOf(r) == TableOf(g)[row := t]
  {
    var r := WriteRow(g, row, t, |t|).(used := g.used[row := true]);
    forall row', col' | InGrid(g, row', col')
      ensures At(r, row', col') == if row == row' then Some(t[col']) else At(g, row', col')
    {
      WriteRowAt(g, row, t, |t|, row', col');
      assert At(r, row', col') == At(WriteRow(g, row, t, |t|), row', col');
    }
    assert Ok(r);
    RowWritten(g, r, row, t);
  }

  /** A grid with the cells of one row replaced and the row in use is the table with one entry replaced. */
  lemma RowWritten(g: Grid, r: Grid, row: nat, t: Tuple)
    requires Ok(g) && Ok(r) && row < |g.used| && |t| == |g.columns|
    requires r.columns == g.columns && r.used == g.used[row := true]
    requires forall row', col' :: InGrid(g, row', col') ==>
      At(r, row', col') == if row == row' then Some(t[col']) else At(g, row', col')
    ensures TableOf(r) == TableOf(g)[row := t]
  {
    assert Row(r, row) == t;
    forall row' | row' in TableOf(g) && row' != row
      ensures Row(r, row') == Row(g, row')
    {
    }
  }

  // ------------------------------------------------------------------------------------------
  // Swapping rows
  // ------------------------------------------------------------------------------------------

  /** The first `n` cells of two rows exchanged. */
  function SwapCells(g: Grid, a: nat, b: nat, n: nat): (r: Grid)
    requires Sized(g) && a < |g.used| && b < |g.used| && n <= |g.columns|
    ensures Sized(r) && r.columns == g.columns && r.used == g.used
    decreases n
  {
    if n == 0 then g
    else
      var s := SwapCells(g, a, b, n - 1);
      PosInRange(s, a, n - 1);
      PosInRange(s, b, n - 1);
      var p, q := Pos(s, a, n - 1), Pos(s, b, n - 1);
      s.(flat := s.flat[p := s.flat[q]][q := s.flat[p]])
  }

  lemma SwapOneAt(s: Grid, a: nat, b: nat, col: nat, row': nat, col': nat)
    requires Sized(s) && InGrid(s, a, col) && InGrid(s, b, col) && InGrid(s, row', col')
    ensures Pos(s, a, col) < |s.flat| && Pos(s, b, col) < |s.flat|
    ensures var p, q := Pos(s, a, col), Pos(s, b, col);
      var r := s.(flat := s.flat[p := s.flat[q]][q := s.flat[p]]);
      At(r, row', col') == At(s, if col' != col then row' else Exchanged(a, b, row'), col')
  {
    PosInRange(s, a, col);
    PosInRange(s, b, col);
    PosInRange(s, row', col');
    if Pos(s, a, col) == Pos(s, row', col') {
      PosInjective(s, a, col, row', col');
    }
    if Pos(s, b, col) == Pos(s, row', col') {
      PosInjective(s, b, col, row', col');
    }
  }

  function Exchanged(a: int, b: int, row: int): int {
    if row == a then b else if row == b then a else row
  }

  lemma {:induction false} SwapCellsAt(g: Grid, a: nat, b: nat, n: nat, row': nat, col': nat)
    requires Sized(g) && a < |g.used| && b < |g.used| && n <= |g.columns| && InGrid(g, row', col')
    ensures At(SwapCells(g, a, b, n), row', col') == At(g, if col' < n then Exchanged(a, b, row') else row', col')
    decreases n
  {
    if n > 0 {
      SwapOneAt(SwapCells(g, a, b, n - 1), a, b, n - 1, row', col');
      SwapCellsAt(g, a, b, n - 1, if col' != n - 1 then row' else Exchanged(a, b, row'), col');
    }
  }

  /** The table with two rows exchanged, where either may be absent. */
  function TableSwapped(t: Table, a: int, b: int): (r: Table)
    ensures forall row :: row in r <==> Exchanged(a, b, row) in t
    ensures forall row :: row in r ==> r[row] == t[Exchanged(a, b, row)]
  {
    var moved := map row | row in t.Keys + {a, b} && Exchanged(a, b, row) in t :: t[Exchanged(a, b, row)];
    moved
  }

  /** What SwapRowInfo does to the table: it refuses an origin that is not in use. */
  function SwapCall(t: Table, maxRow: nat, a: int, b: int): Table {
    if a in t && 0 <= b < maxRow then TableSwapped(t, a, b) else t
  }

  /** The origin's values are at the target, the target's, if it was in use, at the origin, and no other row changes. */
  lemma SwapMovesRows(t: Table, maxRow: nat, a: int, b: int, row: int)
    ensures var r := SwapCall(t, maxRow, a, b);
      if a in t && 0 <= b < maxRow then
        && b in r && r[b] == t[a]
        && (a in r <==> b in t) && (b in t ==> r[a] == t[b])
        && (row != a && row != b ==> (row in r <==> row in t) && (row in t ==> r[row] == t[row]))
      else r == t
  {
  }

  /** The same call again undoes a swap exactly when the target row was in use as well. */
  lemma SwapUndoneIff(t: Table, maxRow: nat, a: int, b: int)
    requires a in t && 0 <= b < maxRow
    ensures SwapCall(SwapCall(t, maxRow, a, b), maxRow, a, b) == t <==> b in t
  {
    var once := SwapCall(t, maxRow, a, b);
    assert a in once <==> b in t;
    if b in t {
      var twice := TableSwapped(once, a, b);
      assert forall row :: Exchanged(a, b, Exchanged(a, b, row)) == row;
      assert forall row :: row in twice <==> row in t;
      assert forall row :: row in t ==> twice[row] == t[row];
    }
  }

  function FlagsSwapped(g: Grid, a: nat, b: nat): Grid
    requires a < |g.used| && b < |g.used|
  {
    g.(used := g.used[a := g.used[b]][b := g.used[a]])
  }

  function RowsSwapped(g: Grid, a: nat, b: nat): Grid
    requires Sized(g) && a < |g.used| && b < |g.used|
  {
    FlagsSwapped(SwapCells(g, a, b, |g.columns|), a, b)
  }

  lemma RowsSwappedAt(g: Grid, a: nat, b: nat, row': nat, col': nat)
    requires Sized(g) && a < |g.used| && b < |g.used| && InGrid(g, row', col')
    ensures Sized(RowsSwapped(g, a, b)) && InGrid(RowsSwapped(g, a, b), row', col')
    ensures RowsSwapped(g, a, b).used[row'] == g.used[Exchanged(a, b, row')]
    ensures At(RowsSwapped(g, a, b), row', col') == At(g, Exchanged(a, b, row'), col')
  {
    var s := SwapCells(g, a, b, |g.columns|);
    SwapCellsAt(g, a, b, |g.columns|, row', col');
    assert At(FlagsSwapped(s, a, b), row', col') == At(s, row', col');
  }

  lemma SwapKeepsOk(g: Grid, a: nat, b: nat)
    requires Ok(g) && a < |g.used| && b < |g.used|
    ensures Ok(RowsSwapped(g, a, b))
  {
    var r := RowsSwapped(g, a, b);
    forall row', col' | InGrid(r, row', col')
      ensures At(r, row', col').Some? ==> KindOf(At(r, row', col').value) == KindOf(r.columns[col'])
      ensures r.used[row'] ==> At(r, row', col').Some?
    {
      RowsSwappedAt(g, a, b, row', col');
    }
  }

  lemma SwappedRow(g: Grid, a: nat, b: nat, row: nat)
    requires Ok(g) && a < |g.used| && b < |g.used| && row < |g.used|
    ensures Ok(RowsSwapped(g, a, b))
    ensures RowsSwapped(g, a, b).used[row] == g.used[Exchanged(a, b, row)]
    ensures g.used[Exchanged(a, b, row)] ==> Row(RowsSwapped(g, a, b), row) == Row(g, Exchanged(a, b, row))
  {
    SwapKeepsOk(g, a, b);
    forall col | 0 <= col < |g.columns|
      ensures At(RowsSwapped(g, a, b), row, col) == At(g, Exchanged(a, b, row), col)
    {
      RowsSwappedAt(g, a, b, row, col);
    }
  }

  /** Swapping cells and flags swaps two entries of the table. */
  lemma SwapIsSwap(g: Grid, a: nat, b: nat)
    requires Ok(g) && a < |g.used| && b < |g.used|
    ensures Ok(RowsSwapped(g, a, b))
    ensures TableOf(RowsSwapped(g, a, b)) == TableSwapped(TableOf(g), a, b)
  {
    SwapKeepsOk(g, a, b);
    var t := TableOf(RowsSwapped(g, a, b));
    forall row: int
      ensures row in t <==> Exchanged(a, b, row) in TableOf(g)
      ensures row in t ==> t[row] == TableOf(g)[Exchanged(a, b, row)]
    {
      if 0 <= row < |g.used| {
        SwappedRow(g, a, b, row);
      }
    }
  }

  // ------------------------------------------------------------------------------------------
  // Removing
  // ------------------------------------------------------------------------------------------

  lemma RemoveIsRemove(g: Grid, row: nat)
    requires Ok(g) && row < |g.used|
    ensures var r := g.(used := g.used[row := false]);
      Ok(r) && TableOf(r) == TableOf(g) - {row}
  {
    var r := g.(used := g.used[row := false]);
    assert forall row', col' :: InGrid(g, row', col') ==> At(r, row', col') == At(g, row', col');
    forall row' | row' in TableOf(r)
      ensures Row(r, row') == Row(g, row')
    {
    }
  }

  // ------------------------------------------------------------------------------------------
  // Searching
  // ------------------------------------------------------------------------------------------

  /** The used rows below `n` that hold `number` in column `col`, in ascending order. */
  function Matching(t: Table, col: nat, number: int, n: nat): seq<int> {
    if n == 0 then []
    else
      Matching(t, col, number, n - 1)
      + if n - 1 in t && col < |t[n - 1]| && t[n - 1][col] == IntValue(number) then [n - 1] else []
  }

  /** The result is exactly those rows, each once, ascending. */
  lemma {:induction false} MatchingIsExact(t: Table, col: nat, number: int, n: nat)
    ensures var found := Matching(t, col, number, n);
      && (forall row :: row in found <==>
        0 <= row < n && row in t && col < |t[row]| && t[row][col] == IntValue(number))
      && forall i, j :: 0 <= i < j < |found| ==> found[i] < found[j]
  {
    if n > 0 {
      MatchingIsExact(t, col, number, n - 1);
      var before := Matching(t, col, number, n - 1);
      assert forall i :: 0 <= i < |before| ==> before[i] in before;
    }
  }
}
