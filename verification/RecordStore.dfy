/**
 Record (src/core/record.cc): rows and columns of shared cells in one flat vector, refining the partial
 map from rows to typed tuples of RecordGrid. Event handlers are not called.
 */
module RecordStore {
  import opened Bytes
  import opened Guids
  import opened RecordGrid
  import opened Wrappers

  /** A cell: its type is fixed when it is made, its variant is assigned in place. */
  class SquickData {
    const kind: Kind
    var variantData: Value

    constructor (kind: Kind)
      ensures this.kind == kind && variantData == IntValue(0)
    {
      this.kind, variantData := kind, IntValue(0);
    }
  }

  /** TRECORDVEC: a vector of pointers to cells, null where none was needed yet. */
  class RecordVec {
    const items: array<SquickData?>
    ghost var cells: set<SquickData>

    constructor (size: nat)
      ensures Valid() && fresh(items) && cells == {} && Flat() == seq(size, _ => None)
    {
      items := new SquickData?[size](_ => null);
      cells := {};
    }

    /** No two positions share a cell, and every cell holds a value of its type. */
    ghost predicate Valid()
      reads this, items, cells
    {
      && (forall p, q :: 0 <= p < q < items.Length && items[p] != null ==> items[p] != items[q])
      && (forall p :: 0 <= p < items.Length && items[p] != null ==>
        items[p] in cells && KindOf(items[p].variantData) == items[p].kind)
    }

    ghost function Flat(): (flat: seq<Option<Value>>)
      requires Valid()
      reads this, items, cells
      ensures |flat| == items.Length
      ensures forall p :: 0 <= p < |flat| ==> flat[p].Some? == (items[p] != null)
    {
      seq(items.Length, p requires Valid() && 0 <= p < items.Length reads this, items, cells =>
        if items[p] == null then None else Some(items[p].variantData))
    }

    /** A cell that is not there yet gets the type of its first value. */
    method Assign(p: nat, v: Value)
      requires Valid() && p < items.Length
      requires Flat()[p].Some? ==> KindOf(Flat()[p].value) == KindOf(v)
      modifies this, items, cells
      ensures Valid() && fresh(cells - old(cells))
      ensures Flat() == old(Flat())[p := Some(v)]
    {
      if items[p] == null {
        var cell := new SquickData(KindOf(v));
        items[p] := cell;
        cells := cells + {cell};
      }
      items[p].variantData := v;
    }

    method Exchange(p: nat, q: nat)
      requires Valid() && p < items.Length && q < items.Length
      modifies items
      ensures Valid()
      ensures Flat() == old(Flat()[p := Flat()[q]][q := Flat()[p]])
    {
      var origin := items[p];
      items[p] := items[q];
      items[q] := origin;
    }
  }

  /** The null values of the getters. */
  function Default(kind: Kind): Value {
    match kind
    case INT => IntValue(0)
    case STRING => StringValue("")
    case OBJECT => ObjectValue(NULL_GUID)
  }

  lemma EmptyIsOk(g: Grid)
    requires Sized(g) && (forall r :: 0 <= r < |g.used| ==> !g.used[r])
    requires forall p :: 0 <= p < |g.flat| ==> g.flat[p] == None
    ensures Ok(g) && TableOf(g) == map[]
  {
    forall row, col | InGrid(g, row, col)
      ensures At(g, row, col) == None
    {
      PosInRange(g, row, col);
    }
  }

  /** In the middle of filling a row its next cell is still empty or of its column's type. */
  lemma NextCellFits(g: Grid, row: nat, t: Tuple, i: nat)
    requires Ok(g) && row < |g.used| && SameKinds(t, g.columns) && i < |t|
    ensures At(WriteRow(g, row, t, i), row, i).Some? ==>
      KindOf(At(WriteRow(g, row, t, i), row, i).value) == KindOf(t[i])
  {
    WriteRowAt(g, row, t, i, row, i);
  }

  class Record {
    const columns: Tuple
    const maxRow: nat
    const vec: RecordVec
    const used: array<bool>

    ghost function Content(): Grid
      requires vec.Valid()
      reads used, vec, vec.items, vec.cells
    {
      Grid(columns, used[..], vec.Flat())
    }

    ghost predicate Valid()
      reads used, vec, vec.items, vec.cells
    {
      vec.Valid() && used.Length == maxRow && Ok(Content())
    }

    /** The used rows and their values. */
    ghost function Rows(): (t: Table)
      requires Valid()
      reads used, vec, vec.items, vec.cells
      ensures forall row {:trigger row in t} {:trigger IsUsed(row)} :: row in t <==> IsUsed(row)
      ensures forall row :: row in t ==> SameKinds(t[row], columns)
    {
      TableIsTyped(Content());
      TableOf(Content())
    }

    constructor (columns: Tuple, maxRow: nat)
      ensures this.columns == columns && this.maxRow == maxRow
      ensures Valid() && fresh(vec) && fresh(vec.items) && fresh(used) && vec.cells == {}
      ensures Rows() == map[]
    {
      this.columns, this.maxRow := columns, maxRow;
      used := new bool[maxRow](_ => false);
      vec := new RecordVec(maxRow * |columns|);
      new;
      EmptyIsOk(Content());
    }

    function GetPos(row: nat, col: nat): nat {
      row * |columns| + col
    }

    predicate IsUsed(row: int)
      requires used.Length == maxRow
      reads used
    {
      0 <= row < maxRow && used[row]
    }

    /** AddRow: the row asked for, or the lowest free one for a negative row. */
    method AddRow(row: int, t: Tuple) returns (found: int)
      requires Valid()
      modifies used, vec, vec.items, vec.cells
      ensures Valid() && fresh(vec.cells - old(vec.cells)) && -1 <= found < maxRow
      ensures found == -1 <==>
        row >= maxRow || !SameKinds(t, columns) || (row < 0 && forall r :: 0 <= r < maxRow ==> r in old(Rows()))
      ensures found >= 0 && row >= 0 ==> found == row
      ensures found >= 0 && row < 0 ==> found !in old(Rows()) && forall r :: 0 <= r < found ==> r in old(Rows())
      ensures Rows() == if found == -1 then old(Rows()) else old(Rows())[found := t]
    {
      ghost var t0 := Rows();
      assert (forall r :: 0 <= r < maxRow ==> IsUsed(r)) <==> (forall r :: 0 <= r < maxRow ==> r in t0);
      found := RowFor(row, t);
      if found >= 0 {
        PutRow(found, t);
      }
    }

    /** The checks of AddRow. */
    method RowFor(row: int, t: Tuple) returns (found: int)
      requires used.Length == maxRow
      ensures -1 <= found < maxRow
      ensures found == -1 <==>
        row >= maxRow || !SameKinds(t, columns) || (row < 0 && forall r :: 0 <= r < maxRow ==> IsUsed(r))
      ensures found >= 0 && row >= 0 ==> found == row
      ensures found >= 0 && row < 0 ==> !IsUsed(found) && forall r :: 0 <= r < found ==> IsUsed(r)
    {
      found := row;
      if found >= maxRow {
        return -1;
      }
      if |t| != |columns| {
        return -1;
      }
      if found < 0 {
        found := LowestFree();
      }
      if found < 0 {
        return -1;
      }
      var same := HasColumnKinds(t);
      if !same {
        return -1;
      }
    }

    /** The type loop of AddRow and SetRow. */
    method HasColumnKinds(t: Tuple) returns (same: bool)
      requires |t| == |columns|
      ensures same == SameKinds(t, columns)
    {
      for i := 0 to |columns|
        invariant forall k :: 0 <= k < i ==> KindOf(t[k]) == KindOf(columns[k])
      {
        if KindOf(t[i]) != KindOf(columns[i]) {
          return false;
        }
      }
      same := true;
    }

    /** The end of AddRow: the row is marked used and filled. */
    method PutRow(row: nat, t: Tuple)
      requires Valid() && row < maxRow && SameKinds(t, columns)
      modifies used, vec, vec.items, vec.cells
      ensures Valid() && fresh(vec.cells - old(vec.cells))
      ensures Rows() == old(Rows())[row := t]
    {
      WriteRowIsUpdate(Content(), row, t);
      FillRow(row, t);
      used[row] := true;
    }

    /** One cell assigned, and allocated if it was not. */
    method PutCell(row: nat, col: nat, v: Value)
      requires vec.Valid() && used.Length == maxRow && Sized(Content()) && InGrid(Content(), row, col)
      requires At(Content(), row, col).Some? ==> KindOf(At(Content(), row, col).value) == KindOf(v)
      modifies vec, vec.items, vec.cells
      ensures vec.Valid() && fresh(vec.cells - old(vec.cells))
      ensures Content() == Write(old(Content()), row, col, v)
    {
      PosInRange(Content(), row, col);
      vec.Assign(GetPos(row, col), v);
    }

    /** The cell loop of AddRow and SetRow: the cells of one row, in turn. */
    method FillRow(row: nat, t: Tuple)
      requires Valid() && row < maxRow && SameKinds(t, columns)
      modifies vec, vec.items, vec.cells
      ensures vec.Valid() && fresh(vec.cells - old(vec.cells))
      ensures Content() == WriteRow(old(Content()), row, t, |t|)
    {
      for i := 0 to |columns|
        invariant vec.Valid() && fresh(vec.cells - old(vec.cells))
        invariant Content() == WriteRow(old(Content()), row, t, i)
      {
        NextCellFits(old(Content()), row, t, i);
        PutCell(row, i, t[i]);
      }
    }

    /** The search of AddRow for a free row. */
    method LowestFree() returns (found: int)
      requires used.Length == maxRow
      ensures -1 <= found < maxRow
      ensures found == -1 ==> forall r :: 0 <= r < maxRow ==> IsUsed(r)
      ensures found >= 0 ==> !IsUsed(found) && forall r :: 0 <= r < found ==> IsUsed(r)
    {
      for i := 0 to maxRow
        invariant forall r :: 0 <= r < i ==> IsUsed(r)
      {
        if !IsUsed(i) {
          return i;
        }
      }
      found := -1;
    }

    /** SetRow: writes what it accepts, and returns false either way. */
    method SetRow(row: int, t: Tuple) returns (ok: bool)
      requires Valid()
      modifies vec, vec.items, vec.cells
      ensures Valid() && fresh(vec.cells - old(vec.cells)) && !ok
      ensures Rows() ==
        if row in old(Rows()) && SameKinds(t, columns) then old(Rows())[row := t] else old(Rows())
    {
      if |t| != |columns| {
        return false;
      }
      if !IsUsed(row) {
        return false;
      }
      var same := HasColumnKinds(t);
      if !same {
        return false;
      }
      WriteRowIsUpdate(Content(), row, t);
      assert used[..][row := true] == used[..];
      FillRow(row, t);
      ok := false;
    }

    predicate ValidPos(row: int, col: int) {
      0 <= row < maxRow && 0 <= col < |columns|
    }

    /** SetInt, SetString and SetObject: the same code for the three types. */
    method Set(row: int, col: int, v: Value) returns (ok: bool)
      requires Valid()
      modifies vec, vec.items, vec.cells
      ensures Valid() && fresh(vec.cells - old(vec.cells))
      ensures ok == (row in old(Rows()) && 0 <= col < |columns| && KindOf(v) == KindOf(columns[col]))
      ensures Rows() == if ok then old(Rows())[row := old(Rows())[row][col := v]] else old(Rows())
    {
      if !ValidPos(row, col) {
        return false;
      }
      if KindOf(v) != KindOf(columns[col]) {
        return false;
      }
      if !IsUsed(row) {
        return false;
      }
      WriteIsUpdate(Content(), row, col, v);
      PosInRange(Content(), row, col);
      assert At(Content(), row, col).Some?;
      var p := GetPos(row, col);
      if vec.items[p].variantData != v {
        vec.Assign(p, v);
      } else {
        assert vec.Flat() == vec.Flat()[p := Some(v)];
      }
      ok := true;
    }

    /** GetInt, GetString and GetObject: the null value for a cell that is not there or of another type. */
    method Get(row: int, col: int, kind: Kind) returns (v: Value)
      requires Valid()
      ensures v == if row in Rows() && 0 <= col < |columns| && KindOf(columns[col]) == kind then Rows()[row][col]
                   else Default(kind)
    {
      if !ValidPos(row, col) {
        return Default(kind);
      }
      if !IsUsed(row) {
        return Default(kind);
      }
      PosInRange(Content(), row, col);
      assert At(Content(), row, col).Some?;
      var cell := vec.items[GetPos(row, col)];
      v := if cell.kind == kind then cell.variantData else Default(kind);
    }

    /** Remove: the cells of a removed row stay in the vector, out of the table. */
    method Remove(row: int) returns (ok: bool)
      requires Valid()
      modifies used
      ensures Valid() && ok == (row in old(Rows())) && Rows() == old(Rows()) - {row}
    {
      if IsUsed(row) {
        RemoveIsRemove(Content(), row);
        used[row] := false;
        return true;
      }
      ok := false;
    }

    method Clear()
      requires Valid()
      modifies used
      ensures Valid() && Rows() == map[]
    {
      var i: int := maxRow;
      while i > 0
        invariant Valid() && 0 <= i <= maxRow
        invariant forall row :: row in Rows() ==> row < i
      {
        i := i - 1;
        var ok := Remove(i);
      }
    }

    /** The cell loop of SwapRowInfo. */
    method SwapRowCells(origin: nat, target: nat)
      requires vec.Valid() && used.Length == maxRow && Sized(Content()) && origin < maxRow && target < maxRow
      modifies vec.items
      ensures vec.Valid() && Content() == SwapCells(old(Content()), origin, target, |columns|)
    {
      for i := 0 to |columns|
        invariant vec.Valid() && Content() == SwapCells(old(Content()), origin, target, i)
      {
        PosInRange(Content(), origin, i);
        PosInRange(Content(), target, i);
        vec.Exchange(GetPos(origin, i), GetPos(target, i));
      }
    }

    method SwapFlags(origin: nat, target: nat)
      requires vec.Valid() && used.Length == maxRow && origin < maxRow && target < maxRow
      modifies used
      ensures Content() == FlagsSwapped(old(Content()), origin, target)
    {
      used[origin], used[target] := used[target], used[origin];
    }

    /** SwapRowInfo: only the origin must be in use, so a row can be moved to a free place. */
    method SwapRowInfo(origin: int, target: int) returns (ok: bool)
      requires Valid()
      modifies used, vec.items
      ensures Valid() && ok == (origin in old(Rows()) && 0 <= target < maxRow)
      ensures Rows() == SwapCall(old(Rows()), maxRow, origin, target)
    {
      if !IsUsed(origin) || !(0 <= target < maxRow) {
        return false;
      }
      SwapIsSwap(Content(), origin, target);
      SwapRowCells(origin, target);
      SwapFlags(origin, target);
      ok := true;
    }

    /** The test of FindInt. */
    method Holds(row: int, col: nat, value: int) returns (hit: bool)
      requires Valid() && col < |columns| && KindOf(columns[col]) == INT
      ensures hit == (row in Rows() && Rows()[row][col] == IntValue(value))
    {
      hit := false;
      if IsUsed(row) {
        var v := Get(row, col, INT);
        hit := v == IntValue(value);
      }
    }

    /** FindInt: appends the matching rows to the caller's list and returns the length of that list. */
    method FindInt(col: int, value: int, found: seq<int>) returns (count: int, found': seq<int>)
      requires Valid()
      ensures count == -1 <==> !(0 <= col < |columns| && KindOf(columns[col]) == INT)
      ensures count == -1 ==> found' == found
      ensures count != -1 ==> found' == found + Matching(Rows(), col, value, maxRow) && count == |found'|
    {
      found' := found;
      if !(0 <= col < |columns|) {
        return -1, found';
      }
      if KindOf(columns[col]) != INT {
        return -1, found';
      }
      for i := 0 to maxRow
        invariant found' == found + Matching(Rows(), col, value, i)
      {
        AppendAssociative(found, Matching(Rows(), col, value, i), [i]);
        var hit := Holds(i, col, value);
        if hit {
          found' := found' + [i];
        }
      }
      count := |found'|;
    }
  }
}
