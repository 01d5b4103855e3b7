/** The supplier-product helpers: line lookup by 'Product ID' and the name
    and key formatting of `map_product`. The field reads (`get_value`,
    `get_datetime`) belong to an external library and enter as values. */
module SubstanceMapper {
  import opened Wrappers
  import opened Cells
  import Text

  const ProductIdColumn := "Product ID"
  const RecordNamePrefix := "Product/Material "

  /** `get_product_values(df_sheet_two, product_id)`: walks the lines in order
      and returns the first whose 'Product ID' equals the query; falls off the
      end (None) when none does. Reading the column of the first line raises
      KeyError when the sheet has no such column; an empty sheet never reads it. */
  function GetProductValues(sheet: Sheet, productId: Cell): (r: Result<Option<Row>>)
    ensures r.Failure? <==> |sheet.rows| > 0 && ProductIdColumn !in sheet.columns
    ensures r.Success? && r.value.Some? ==>
      exists k | 0 <= k < |sheet.rows| ::
        && r.value.value == SheetRow(sheet, k)
        && Get(SheetRow(sheet, k), ProductIdColumn) == Some(productId)
        && !productId.Missing?
        && forall q | 0 <= q < k :: !PyEq(Get(SheetRow(sheet, q), ProductIdColumn).value, productId)
    ensures r.Success? && r.value.None? ==>
      forall k | 0 <= k < |sheet.rows| :: Get(SheetRow(sheet, k), ProductIdColumn) != Some(productId) || productId.Missing?
  {
    if |sheet.rows| == 0 then Success(None)
    else match ColumnIndex(sheet.columns, ProductIdColumn)
      case None => Failure("KeyError: 'Product ID'")
      case Some(c) =>
        forall k | 0 <= k < |sheet.rows|
          ensures Get(SheetRow(sheet, k), ProductIdColumn) == Some(CellAt(sheet.rows[k], c))
        {
          GetSheetRow(sheet, k, ProductIdColumn);
        }
        match FirstMatchingLine(sheet.rows, c, productId, 0)
        case None => Success(None)
        case Some(k) => Success(Some(SheetRow(sheet, k)))
  }

  /** Python truthiness of the product name read by `get_value`. */
  predicate IsTruthy(name: Option<string>) {
    name.Some? && name.value != ""
  }

  /** `'Product/Material ' + (product_name_value if product_name_value else '')`. */
  function RecordName(productName: Option<string>): (r: string)
    ensures Text.Contains(r, RecordNamePrefix)
  {
    var r := RecordNamePrefix + (if IsTruthy(productName) then productName.value else "");
    Text.ContainsInfix("", RecordNamePrefix, r[|RecordNamePrefix|..]);
    assert "" + RecordNamePrefix + r[|RecordNamePrefix|..] == r;
    r
  }

  /** The name section of a product record: present only for a truthy name. */
  datatype ProductNameSection = ProductNameSection(name: string)

  function NameSection(productName: Option<string>): (r: Option<ProductNameSection>)
    ensures r.Some? <==> IsTruthy(productName)
    ensures r.Some? ==> r.value.name == productName.value
  {
    if IsTruthy(productName) then Some(ProductNameSection(productName.value)) else None
  }

  /** The record name is the prefix followed by the name, and the bare prefix
      when the name is empty or absent. */
  lemma RecordNameShape(productName: Option<string>)
    ensures IsTruthy(productName) ==> RecordName(productName) == RecordNamePrefix + productName.value
    ensures !IsTruthy(productName) ==> RecordName(productName) == RecordNamePrefix
    ensures RecordName(productName)[..|RecordNamePrefix|] == RecordNamePrefix
  {
  }

  /** Python's `f'{x}'` of an optional string: None prints as 'None'. */
  function Show(name: Option<string>): string {
    if name.Some? then name.value else "None"
  }

  /** The key `map_product` returns: `{i}_{j}_supplier_product_{name}`. */
  function ProductKey(i: int, j: int, productName: Option<string>): string {
    Text.IntToString(i) + "_" + Text.IntToString(j) + "_supplier_product_" + Show(productName)
  }

  /** The two indices are recoverable from a key: splitting at '_' yields them
      as the first two pieces, followed by 'supplier' and 'product'. */
  lemma ProductKeyPieces(i: int, j: int, productName: Option<string>)
    ensures var p := Text.Split(ProductKey(i, j, productName), '_');
      |p| >= 5 && p[0] == Text.IntToString(i) && p[1] == Text.IntToString(j)
      && p[2] == "supplier" && p[3] == "product"
  {
    var si := Text.IntToString(i);
    var sj := Text.IntToString(j);
    assert '_' !in si && '_' !in sj;
    KeyWordsHaveNoSeparator();
    assert ProductKey(i, j, productName) ==
      si + ['_'] + (sj + ['_'] + ("supplier" + ['_'] + ("product" + ['_'] + Show(productName))));
    FourPieces(si, sj, "supplier", "product", Show(productName));
  }

  lemma KeyWordsHaveNoSeparator()
    ensures '_' !in "supplier" && '_' !in "product"
  {
  }

  /** Four separator-free words, each followed by '_', are the first four
      pieces of the split. */
  lemma FourPieces(w0: string, w1: string, w2: string, w3: string, tail: string)
    requires '_' !in w0 && '_' !in w1 && '_' !in w2 && '_' !in w3
    ensures var p := Text.Split(w0 + ['_'] + (w1 + ['_'] + (w2 + ['_'] + (w3 + ['_'] + tail))), '_');
      |p| >= 5 && p[0] == w0 && p[1] == w1 && p[2] == w2 && p[3] == w3
  {
    var t3 := w3 + ['_'] + tail;
    var t2 := w2 + ['_'] + t3;
    var t1 := w1 + ['_'] + t2;
    Text.SplitHead(w3, '_', tail);
    Text.SplitHead(w2, '_', t3);
    Text.SplitHead(w1, '_', t2);
    Text.SplitHead(w0, '_', t1);
  }
}
