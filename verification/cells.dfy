/** Spreadsheet values as the parsers see them through pandas.
    A cell is missing (NaN / None), a string or a number; a row is the
    pandas Series of one table line, an ordered sequence of named cells.
    Datatype equality on rows is pandas' `Series.equals` / `drop_duplicates`
    equality: same names, same values in the same places, and a missing
    cell equals a missing cell. */
module Cells {
  import opened Wrappers

  datatype Cell = Missing | Str(text: string) | Num(number: real)

  type Row = seq<(string, Cell)>

  /** pandas' element-wise `==`: a missing value equals nothing, not even
      another missing value. */
  predicate PyEq(a: Cell, b: Cell) {
    !a.Missing? && a == b
  }

  /** `pd.isna(row).all()`. */
  predicate AllMissing(row: Row) {
    forall p | 0 <= p < |row| :: row[p].1.Missing?
  }

  /** The field names of a row, in order (the Series index). */
  function Keys(row: Row): (ks: seq<string>)
    ensures |ks| == |row|
    ensures forall p | 0 <= p < |row| :: ks[p] == row[p].0
  {
    seq(|row|, p requires 0 <= p < |row| => row[p].0)
  }

  /** The names of a row are its first name followed by the names of the rest. */
  lemma KeysCons(row: Row)
    requires |row| > 0
    ensures Keys(row) == [row[0].0] + Keys(row[1..])
  {
    var ks, rest := Keys(row), Keys(row[1..]);
    assert forall p | 0 <= p < |rest| :: ks[p + 1] == rest[p];
  }

  /** `row.get(k)`: the value of the first field named `k`, or None. */
  function Get(row: Row, k: string): (r: Option<Cell>)
    ensures r.None? <==> k !in Keys(row)
    ensures r.Some? ==> exists p | 0 <= p < |row| :: row[p] == (k, r.value)
    decreases |row|
  {
    if |row| == 0 then None
    else if row[0].0 == k then Some(row[0].1)
    else
      var r := Get(row[1..], k);
      KeysCons(row);
      r
  }

  /** `row[k]` for a field known to exist; an absent field reads as missing. */
  function Lookup(row: Row, k: string): (c: Cell)
    ensures k in Keys(row) ==> Get(row, k) == Some(c)
  {
    match Get(row, k)
    case Some(c) => c
    case None => Missing
  }

  /** Every field named `k` takes the value `v`; the rest is unchanged. */
  function Overwrite(row: Row, k: string, v: Cell): (r: Row)
    ensures Keys(r) == Keys(row)
    decreases |row|
  {
    if |row| == 0 then []
    else
      var tail := Overwrite(row[1..], k, v);
      var r := [if row[0].0 == k then (k, v) else row[0]] + tail;
      KeysCons(row);
      KeysCons(r);
      assert r[1..] == tail;
      r
  }

  /** `row[k] = v` on a Series: overwrites the field named `k` in place,
      or appends a new field at the end. */
  function Set(row: Row, k: string, v: Cell): Row {
    if k in Keys(row) then Overwrite(row, k, v) else row + [(k, v)]
  }

  lemma {:induction false} OverwriteGet(row: Row, k: string, v: Cell, k': string)
    ensures Get(Overwrite(row, k, v), k') == if k' == k && k in Keys(row) then Some(v) else Get(row, k')
    decreases |row|
  {
    if |row| > 0 {
      OverwriteGet(row[1..], k, v, k');
      KeysCons(row);
    }
  }

  lemma {:induction false} AppendGet(row: Row, k: string, v: Cell, k': string)
    ensures Get(row + [(k, v)], k') == if k' in Keys(row) then Get(row, k') else if k' == k then Some(v) else None
    decreases |row|
  {
    if |row| > 0 {
      assert (row + [(k, v)])[1..] == row[1..] + [(k, v)];
      KeysCons(row);
      AppendGet(row[1..], k, v, k');
    }
  }

  /** After `Set`, `k` reads back as `v` and every other field reads as before;
      the existing fields keep their names and positions. */
  lemma SetGet(row: Row, k: string, v: Cell, k': string)
    ensures Get(Set(row, k, v), k') == if k' == k then Some(v) else Get(row, k')
    ensures Keys(row) <= Keys(Set(row, k, v))
    ensures |Set(row, k, v)| == if k in Keys(row) then |row| else |row| + 1
  {
    if k in Keys(row) {
      OverwriteGet(row, k, v, k');
    } else {
      AppendGet(row, k, v, k');
      assert Keys(row + [(k, v)]) == Keys(row) + [k];
    }
  }

  /** A flat table read with a one-line header: named columns, and one
      sequence of cells per line. */
  datatype Sheet = Sheet(columns: seq<string>, rows: seq<seq<Cell>>)

  /** Cell `c` of a line; cells past the end of a short line read as missing,
      as pandas pads them. */
  function CellAt(cells: seq<Cell>, c: nat): Cell {
    if c < |cells| then cells[c] else Missing
  }

  /** Line `r` of a sheet as a Series indexed by the column names. */
  function SheetRow(sheet: Sheet, r: nat): (row: Row)
    requires r < |sheet.rows|
    ensures Keys(row) == sheet.columns
    ensures forall p | 0 <= p < |row| :: row[p].1 == CellAt(sheet.rows[r], p)
  {
    seq(|sheet.columns|, p requires 0 <= p < |sheet.columns| => (sheet.columns[p], CellAt(sheet.rows[r], p)))
  }

  /** The position of the first column called `name`. */
  function ColumnIndex(columns: seq<string>, name: string): (r: Option<nat>)
    ensures r.None? <==> name !in columns
    ensures r.Some? ==> r.value < |columns| && columns[r.value] == name
    ensures r.Some? ==> name !in columns[..r.value]
    decreases |columns|
  {
    if |columns| == 0 then None
    else if columns[0] == name then Some(0)
    else match ColumnIndex(columns[1..], name)
      case None => None
      case Some(p) =>
        assert columns[1..][..p] == columns[1..p + 1];
        Some(p + 1)
  }

  /** `Get` finds the first field with the name. */
  lemma {:induction false} GetFirst(row: Row, k: string, p: nat)
    requires p < |row| && row[p].0 == k && k !in Keys(row)[..p]
    ensures Get(row, k) == Some(row[p].1)
    decreases p
  {
    if p > 0 {
      assert Keys(row)[0] == row[0].0;
      assert Keys(row)[1..][..p - 1] == Keys(row[1..])[..p - 1];
      GetFirst(row[1..], k, p - 1);
    }
  }

  /** Reading column `name` of a sheet line picks the first column with
      that name. */
  lemma GetSheetRow(sheet: Sheet, r: nat, name: string)
    requires r < |sheet.rows|
    ensures Get(SheetRow(sheet, r), name) ==
      match ColumnIndex(sheet.columns, name)
      case None => None
      case Some(c) => Some(CellAt(sheet.rows[r], c))
  {
    match ColumnIndex(sheet.columns, name)
    case None =>
    case Some(c) =>
      GetFirst(SheetRow(sheet, r), name, c);
  }

  /** The first line, from `from` on, whose cell in column `c` equals `v`
      under pandas' `==`. */
  function FirstMatchingLine(rows: seq<seq<Cell>>, c: nat, v: Cell, from: nat): (r: Option<nat>)
    requires from <= |rows|
    ensures r.Some? ==> from <= r.value < |rows| && PyEq(CellAt(rows[r.value], c), v)
    ensures r.Some? ==> forall q | from <= q < r.value :: !PyEq(CellAt(rows[q], c), v)
    ensures r.None? ==> forall q | from <= q < |rows| :: !PyEq(CellAt(rows[q], c), v)
    decreases |rows| - from
  {
    if from == |rows| then None
    else if PyEq(CellAt(rows[from], c), v) then Some(from)
    else FirstMatchingLine(rows, c, v, from + 1)
  }

  /** Lines after a match never change which line matches first. */
  lemma {:induction false} FirstMatchingLineIgnoresLater(rows: seq<seq<Cell>>, more: seq<seq<Cell>>, c: nat, v: Cell, from: nat)
    requires from <= |rows|
    requires FirstMatchingLine(rows, c, v, from).Some?
    ensures FirstMatchingLine(rows + more, c, v, from) == FirstMatchingLine(rows, c, v, from)
    decreases |rows| - from
  {
    assert (rows + more)[from] == rows[from];
    if !PyEq(CellAt(rows[from], c), v) {
      FirstMatchingLineIgnoresLater(rows, more, c, v, from + 1);
    }
  }
}
