/** `enrich_row_with_product_data`: a process row is joined with the product
    catalogue through every field whose name contains 'chemical ID'. Each
    matched catalogue line contributes its non-missing fields under the key
    `prefix + ' ' + catalogueKey`, where the prefix is the field name with
    ' chemical ID' removed and surrounding whitespace stripped.

    The source writes into a copy of the row inside two nested loops; the
    model first lists those writes in loop order (`Writes`) and then applies
    them one by one with Series assignment semantics (`ApplyWrites`). */
module Enrichment {
  import opened Wrappers
  import opened Cells
  import Text
  import ProductMapper

  const Marker := "chemical ID"
  const MarkerWithSpace := " chemical ID"

  predicate IsChemicalIdField(name: string) {
    Text.Contains(name, Marker)
  }

  /** "Solvent 1 chemical ID" becomes "Solvent 1". */
  function Prefix(field: string): string {
    Text.Strip(Text.ReplaceAll(field, MarkerWithSpace, ""))
  }

  /** A catalogue field that is copied: not missing, and not named exactly
      'chemical ID' (the catalogue's own 'Chemical ID' is not excluded). */
  predicate Copied(entry: (string, Cell)) {
    !entry.1.Missing? && entry.0 != Marker
  }

  /** The writes one matched catalogue line contributes, in catalogue order. */
  function ProductWrites(prefix: string, product: Row): (ws: seq<(string, Cell)>)
    ensures forall w | w in ws :: exists e | e in product :: Copied(e) && w == (prefix + " " + e.0, e.1)
    ensures forall e | e in product && Copied(e) :: (prefix + " " + e.0, e.1) in ws
    decreases |product|
  {
    if |product| == 0 then []
    else
      var rest := ProductWrites(prefix, product[1..]);
      var e := product[0];
      assert forall e' | e' in product[1..] :: e' in product;
      if Copied(e) then [(prefix + " " + e.0, e.1)] + rest else rest
  }

  /** The writes one field of the row triggers: none unless its name contains
      'chemical ID', its value is present and the catalogue has a matching
      line; a catalogue without a 'Chemical ID' column raises. */
  function FieldWrites(field: (string, Cell), catalogue: Sheet): (r: Result<seq<(string, Cell)>>)
    ensures r.Success? ==> forall w | w in r.value :: WriteFromField(w, field, catalogue)
  {
    if !IsChemicalIdField(field.0) || field.1.Missing? then Success([])
    else match ProductMapper.GetProductValues(catalogue, field.1)
      case Failure(e) => Failure(e)
      case Success(None) => Success([])
      case Success(Some(product)) => Success(ProductWrites(Prefix(field.0), product))
  }

  /** A write `w` stems from field `field` of the row through a matched
      catalogue line. */
  ghost predicate WriteFromField(w: (string, Cell), field: (string, Cell), catalogue: Sheet) {
    && IsChemicalIdField(field.0) && !field.1.Missing?
    && var found := ProductMapper.GetProductValues(catalogue, field.1);
    && found.Success? && found.value.Some?
    && exists e | e in found.value.value :: Copied(e) && w == (Prefix(field.0) + " " + e.0, e.1)
  }

  /** All writes of a row, field by field in row order. */
  function Writes(row: Row, catalogue: Sheet): (r: Result<seq<(string, Cell)>>)
    ensures r.Success? ==> forall w | w in r.value :: exists f | f in row :: WriteFromField(w, f, catalogue)
    decreases |row|
  {
    if |row| == 0 then Success([])
    else
      var here :- FieldWrites(row[0], catalogue);
      var rest :- Writes(row[1..], catalogue);
      forall w | w in here + rest
        ensures exists f | f in row :: WriteFromField(w, f, catalogue)
      {
        if w in here {
          assert row[0] in row && WriteFromField(w, row[0], catalogue);
        } else {
          var f :| f in row[1..] && WriteFromField(w, f, catalogue);
          assert f in row;
        }
      }
      Success(here + rest)
  }

  /** The enrichment raises exactly when some present chemical-ID value has
      to be looked up in a catalogue without a 'Chemical ID' column. */
  lemma {:induction false} WritesFailure(row: Row, catalogue: Sheet)
    ensures Writes(row, catalogue).Failure? <==>
      (ProductMapper.ChemicalIdColumn !in catalogue.columns
       && exists f | f in row :: IsChemicalIdField(f.0) && !f.1.Missing?)
    decreases |row|
  {
    if |row| > 0 {
      WritesFailure(row[1..], catalogue);
      assert forall f | f in row :: f == row[0] || f in row[1..];
      assert forall f | f in row[1..] :: f in row;
    }
  }

  /** Every write a matched catalogue line calls for is made. */
  lemma {:induction false} WritesComplete(row: Row, catalogue: Sheet, f: (string, Cell), product: Row, e: (string, Cell))
    requires Writes(row, catalogue).Success?
    requires f in row && IsChemicalIdField(f.0) && !f.1.Missing?
    requires ProductMapper.GetProductValues(catalogue, f.1) == Success(Some(product))
    requires e in product && Copied(e)
    ensures (Prefix(f.0) + " " + e.0, e.1) in Writes(row, catalogue).value
    decreases |row|
  {
    var here := FieldWrites(row[0], catalogue);
    var rest := Writes(row[1..], catalogue);
    assert Writes(row, catalogue).value == here.value + rest.value;
    if f != row[0] {
      WritesComplete(row[1..], catalogue, f, product, e);
    }
  }

  /** `row_copy[key] = value` for every write, in order. */
  function ApplyWrites(row: Row, ws: seq<(string, Cell)>): Row
    decreases |ws|
  {
    if |ws| == 0 then row else ApplyWrites(Set(row, ws[0].0, ws[0].1), ws[1..])
  }

  /** The value of the last write to `k`, if any. */
  function LastWrite(ws: seq<(string, Cell)>, k: string): (r: Option<Cell>)
    ensures r.Some? ==> (k, r.value) in ws
    ensures r.None? ==> forall w | w in ws :: w.0 != k
    decreases |ws|
  {
    if |ws| == 0 then None
    else match LastWrite(ws[1..], k)
      case Some(v) => Some(v)
      case None => if ws[0].0 == k then Some(ws[0].1) else None
  }

  /** Last write wins: a written key reads as its last written value, and
      every other key reads as in the input row. */
  lemma {:induction false} ApplyWritesGet(row: Row, ws: seq<(string, Cell)>, k: string)
    ensures Get(ApplyWrites(row, ws), k) == if LastWrite(ws, k).Some? then LastWrite(ws, k) else Get(row, k)
    decreases |ws|
  {
    if |ws| > 0 {
      var row' := Set(row, ws[0].0, ws[0].1);
      ApplyWritesGet(row', ws[1..], k);
      SetGet(row, ws[0].0, ws[0].1, k);
    }
  }

  /** The input's fields keep their names and positions; new fields are
      appended after them, and each new field was written. */
  lemma {:induction false} ApplyWritesKeys(row: Row, ws: seq<(string, Cell)>)
    ensures Keys(row) <= Keys(ApplyWrites(row, ws))
    ensures forall k | k in Keys(ApplyWrites(row, ws)) :: k in Keys(row) || exists w | w in ws :: w.0 == k
    decreases |ws|
  {
    if |ws| > 0 {
      var row' := Set(row, ws[0].0, ws[0].1);
      SetGet(row, ws[0].0, ws[0].1, ws[0].0);
      ApplyWritesKeys(row', ws[1..]);
      forall k | k in Keys(row')
        ensures k in Keys(row) || k == ws[0].0
      {
        if k !in Keys(row) && k != ws[0].0 {
          SetGet(row, ws[0].0, ws[0].1, k);
        }
      }
    }
  }

  /** `enrich_row_with_product_data(row, df_sheet_two)`: without a catalogue
      the row comes back unchanged. */
  function Enrich(row: Row, catalogue: Option<Sheet>): (r: Result<Row>)
    ensures catalogue.None? ==> r == Success(row)
  {
    match catalogue
    case None => Success(row)
    case Some(sheet) =>
      var ws :- Writes(row, sheet);
      Success(ApplyWrites(row, ws))
  }

  /** Field by field, the enriched row is the input overlaid with the last
      catalogue value written under each prefixed key; fields no write
      touches keep their original value and position, and every added key
      comes from a matched catalogue line. */
  lemma EnrichGet(row: Row, sheet: Sheet, k: string)
    requires Enrich(row, Some(sheet)).Success?
    ensures var ws := Writes(row, sheet).value; var r := Enrich(row, Some(sheet)).value;
      && Keys(row) <= Keys(r)
      && Get(r, k) == (if LastWrite(ws, k).Some? then LastWrite(ws, k) else Get(row, k))
      && (LastWrite(ws, k).Some? ==> exists f | f in row :: WriteFromField((k, LastWrite(ws, k).value), f, sheet))
  {
    var ws := Writes(row, sheet).value;
    ApplyWritesGet(row, ws, k);
    ApplyWritesKeys(row, ws);
  }

  /** A field no write touches survives unchanged. */
  lemma OriginalFieldSurvives(row: Row, sheet: Sheet, k: string)
    requires Enrich(row, Some(sheet)).Success?
    requires forall w | w in Writes(row, sheet).value :: w.0 != k
    ensures Get(Enrich(row, Some(sheet)).value, k) == Get(row, k)
  {
    ApplyWritesGet(row, Writes(row, sheet).value, k);
  }
}
