/** Catalogue lookup of the batch parser's row enrichment: the first line
    of the product sheet whose 'Chemical ID' equals the query. */
module ProductMapper {
  import opened Wrappers
  import opened Cells

  const ChemicalIdColumn := "Chemical ID"

  /** `get_product_values(df_sheet_two, chemical_id)`: `Failure` when the
      sheet has no 'Chemical ID' column (pandas raises KeyError), otherwise
      the first matching line as a Series, or None when no line matches. */
  function GetProductValues(catalogue: Sheet, chemicalId: Cell): (r: Result<Option<Row>>)
    ensures r.Failure? <==> ChemicalIdColumn !in catalogue.columns
    ensures r.Success? && r.value.Some? ==>
      exists k | 0 <= k < |catalogue.rows| ::
        && r.value.value == SheetRow(catalogue, k)
        && PyEq(Get(SheetRow(catalogue, k), ChemicalIdColumn).value, chemicalId)
        && forall q | 0 <= q < k :: !PyEq(Get(SheetRow(catalogue, q), ChemicalIdColumn).value, chemicalId)
    ensures r.Success? && r.value.None? ==>
      forall k | 0 <= k < |catalogue.rows| :: !PyEq(Get(SheetRow(catalogue, k), ChemicalIdColumn).value, chemicalId)
  {
    match ColumnIndex(catalogue.columns, ChemicalIdColumn)
    case None => Failure("KeyError: 'Chemical ID'")
    case Some(c) =>
      var m := FirstMatchingLine(catalogue.rows, c, chemicalId, 0);
      forall k | 0 <= k < |catalogue.rows|
        ensures Get(SheetRow(catalogue, k), ChemicalIdColumn) == Some(CellAt(catalogue.rows[k], c))
      {
        GetSheetRow(catalogue, k, ChemicalIdColumn);
      }
      match m
      case None => Success(None)
      case Some(k) => Success(Some(SheetRow(catalogue, k)))
  }

  /** A returned line carries exactly the queried identifier: the match is
      case-sensitive and a missing query matches nothing. */
  lemma MatchIsExact(catalogue: Sheet, chemicalId: Cell)
    requires GetProductValues(catalogue, chemicalId).Success?
    requires GetProductValues(catalogue, chemicalId).value.Some?
    ensures Get(GetProductValues(catalogue, chemicalId).value.value, ChemicalIdColumn) == Some(chemicalId)
    ensures !chemicalId.Missing?
  {
  }

  /** Lines after the first match never affect the result. */
  lemma LaterLinesIgnored(columns: seq<string>, rows: seq<seq<Cell>>, more: seq<seq<Cell>>, chemicalId: Cell)
    requires GetProductValues(Sheet(columns, rows), chemicalId).Success?
    requires GetProductValues(Sheet(columns, rows), chemicalId).value.Some?
    ensures GetProductValues(Sheet(columns, rows + more), chemicalId) == GetProductValues(Sheet(columns, rows), chemicalId)
  {
    var c := ColumnIndex(columns, ChemicalIdColumn).value;
    FirstMatchingLineIgnoresLater(rows, more, c, chemicalId, 0);
    var k := FirstMatchingLine(rows, c, chemicalId, 0).value;
    assert SheetRow(Sheet(columns, rows + more), k) == SheetRow(Sheet(columns, rows), k);
  }
}
