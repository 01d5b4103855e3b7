# nomad-tfsc-general parsers in Dafny

A model of the parsing core of the `nomad-tfsc-general` NOMAD plugin, with
proofs of what each part promises. It covers:

- **the batch parser**. `TFSCGeneralExperimentParser.parse` reads an
  experiment sheet with two header rows (group, field). It collects the
  sample identifiers of 'Experiment Info' / 'Nomad ID' and derives the batch
  identifier from the first one. It deduplicates the substrate fields into
  substrate records and builds one sample per non-empty line, linked to the
  file of its substrate. It routes every deduplicated row of every other
  column group to the process builders whose name pattern the group name
  contains. Processes after the 'Material name' guard get rows enriched from
  the product catalogue on the optional second sheet. Finally it persists
  every record and lists one reference per record. Catalogue enrichment is
  `enrich_row_with_product_data`.
- **the J-V decoder**. `get_jv_data` and `get_jv_data_location_1` recognise
  the tab-separated "Location 1" format. They decode its last line into:
  - the header;
  - the per-pixel metrics (V_oc converted from mV, |J_sc|, efficiency
    V_oc·|J_sc|·FF/100);
  - the sweep-point count;
  - eight current/voltage windows, split into reverse and forward curves.
- **the measurement parser**. `TFSCGeneralParser.parse` picks the entry class
  from markers in the lower-case basename ('iv'/'txt', then 'eqe', then 'mpp',
  later ones overriding earlier ones). It names the entry, writes it, and
  when the entry already existed it may overwrite it with a merge
  (`update_general_process_entries`).
- **the catalogue lookups**. These are `get_product_values` in
  `product_mapper.py` and `substance_mapper.py`, plus the record name and key
  of `map_product`.
- **`get_datetime`** of the parser utilities.

Spreadsheet rows are sequences of (field name, cell) pairs. A cell is
missing, a text or a number. The collaborators stay symbolic:
- the `map_*` builders of the batch parser become recorded calls (`MapCall`);
- file names of built records come from a function parameter;
- `float()` is a parameter `parse: string -> Option<real>`;
- `convert_datetime`, the search index and the archive reader are left
  abstract in the same way.

Behaviours the model states explicitly:
- The sweep-point count truncates with `int()`; it does not round.
- Only the Location 1 format is recognised. The second decoder is an empty
  stub.
- A merge happens only when the search finds exactly one entry of type
  'TFSC_General_Measurement'.
- The batch parser builds every record before it persists any, so an error
  persists nothing.
- The format test counts tabs in the unstripped lines of the stripped text.

Behaviours of the code that the model keeps as written:
- The Sputtering and ALD builders receive the raw row, although the row is
  enriched for them too. An enrichment error still aborts the parse.
- The catalogue field named exactly 'chemical ID' is skipped, while the
  catalogue's own 'Chemical ID' column is copied.
- A name without dots gets a trailing blank.

## Model

| member | source | states |
|---|---|---|
| Cells.Get | src/nomad_tfsc_general/parsers/tfsc_general_batch_parser.py:234 | `row.get(k)` is None exactly when no field is named `k`, else the value of such a field |
| Cells.SetGet | src/nomad_tfsc_general/parsers/tfsc_general_batch_parser.py:130 | after `row[k] = v` the key reads back as `v`, every other key as before, old fields keep their place and a new key adds one field |
| Cells.GetSheetRow | src/nomad_tfsc_general/parsers/product_mapper.py:13-16 | a catalogue line read as a Series answers a column name with the cell of the first column of that name |
| Cells.FirstMatchingLine | src/nomad_tfsc_general/parsers/product_mapper.py:13-16 | the first line whose cell equals the query under pandas `==`, with no earlier match; none when no line matches |
| Cells.FirstMatchingLineIgnoresLater | src/nomad_tfsc_general/parsers/product_mapper.py:16 | lines after the first match never change which line is returned |
| Dedup.DropDuplicatesOrdered | src/nomad_tfsc_general/parsers/tfsc_general_batch_parser.py:189 | `drop_duplicates()` keeps rows in input order |
| Dedup.DropDuplicatesKeepsFirst | src/nomad_tfsc_general/parsers/tfsc_general_batch_parser.py:213 | a line is kept if and only if its row does not occur on an earlier line |
| Dedup.DropDuplicatesComplete | src/nomad_tfsc_general/parsers/tfsc_general_batch_parser.py:213 | every row of the input is represented by a kept line at or before it |
| Dedup.DropDuplicatesDistinct | src/nomad_tfsc_general/parsers/tfsc_general_batch_parser.py:189 | no two kept rows are equal |
| ProductMapper.GetProductValues | src/nomad_tfsc_general/parsers/product_mapper.py:7-17 | KeyError exactly without a 'Chemical ID' column; otherwise the first line whose identifier equals the query, or None when none does |
| ProductMapper.MatchIsExact | src/nomad_tfsc_general/parsers/product_mapper.py:13-16 | a returned line carries exactly the queried identifier, and a missing query matches nothing |
| ProductMapper.LaterLinesIgnored | src/nomad_tfsc_general/parsers/product_mapper.py:13-17 | appending lines after a match leaves the result unchanged |
| SubstanceMapper.GetProductValues | src/nomad_tfsc_general/parsers/substance_mapper.py:5-8 | the first line whose 'Product ID' equals the query, None when the loop falls through, KeyError only for a non-empty sheet without that column |
| SubstanceMapper.NameSection | src/nomad_tfsc_general/parsers/substance_mapper.py:16-19 | the product-name section exists exactly for a truthy name and carries that name |
| SubstanceMapper.RecordNameShape | src/nomad_tfsc_general/parsers/substance_mapper.py:15 | the record name is 'Product/Material ' followed by the name, or the bare prefix for an empty or absent name |
| SubstanceMapper.ProductKeyPieces | src/nomad_tfsc_general/parsers/substance_mapper.py:30 | splitting the returned key at '_' gives back both indices, then 'supplier' and 'product' |
| Dates.ParseDmy | src/nomad_tfsc_general/parsers/utils.py:9 | a text is accepted exactly when it is three '-'-separated fields of `%d`, `%m`, `%Y` shape (one- or two-digit day and month, four-digit year) naming a real Gregorian date, and then yields that date |
| Dates.GetDatetime | src/nomad_tfsc_general/parsers/utils.py:3-11 | a success is 26 characters ending in ' 00:00:00.000000' |
| Dates.FieldsCarriedOver | src/nomad_tfsc_general/parsers/utils.py:9-10 | the output's year, month and day digit groups read back as the date of the input |
| Dates.FormatInjective | src/nomad_tfsc_general/parsers/utils.py:10 | distinct dates give distinct outputs |
| Dates.GetDatetimeInjective | src/nomad_tfsc_general/parsers/utils.py:9-11 | texts denoting distinct dates give distinct results |
| Dates.ValidDateAccepted | src/nomad_tfsc_general/parsers/utils.py:9-11 | every real date written DD-MM-YYYY is accepted and reformatted to its YYYY-MM-DD form |
| Dates.UnpaddedAccepted | src/nomad_tfsc_general/parsers/utils.py:9-11 | a real date whose day and month are below 10, written unpadded as D-M-YYYY, is accepted and reformatted to its YYYY-MM-DD form |
| Dates.ImpossibleDateRejected | src/nomad_tfsc_general/parsers/utils.py:9 | a day past the end of its month raises |
| Dates.FirstListElementOnly | src/nomad_tfsc_general/parsers/utils.py:5-6 | a non-empty list is read through its first element only |
| Dates.NonTextRejected | src/nomad_tfsc_general/parsers/utils.py:5-9 | an empty list or a value that is not text raises |
| Enrichment.ProductWrites | src/nomad_tfsc_general/parsers/tfsc_general_batch_parser.py:119-130 | a matched line contributes exactly its present fields not named 'chemical ID', each under the prefixed key |
| Enrichment.FieldWrites | src/nomad_tfsc_general/parsers/tfsc_general_batch_parser.py:102-116 | every write of a field comes from a present chemical-ID value matched in the catalogue |
| Enrichment.Writes | src/nomad_tfsc_general/parsers/tfsc_general_batch_parser.py:100-130 | every write stems from some chemical-ID field of the row |
| Enrichment.WritesFailure | src/nomad_tfsc_general/parsers/tfsc_general_batch_parser.py:106-109 | enrichment raises exactly when a present chemical-ID value meets a catalogue without a 'Chemical ID' column |
| Enrichment.WritesComplete | src/nomad_tfsc_general/parsers/tfsc_general_batch_parser.py:102-130 | every copied field of every matched line is written |
| Enrichment.ApplyWritesGet | src/nomad_tfsc_general/parsers/tfsc_general_batch_parser.py:130 | the last write to a key wins; unwritten keys read as in the input |
| Enrichment.ApplyWritesKeys | src/nomad_tfsc_general/parsers/tfsc_general_batch_parser.py:97-132 | the input's fields all remain and every added field was written |
| Enrichment.Enrich | src/nomad_tfsc_general/parsers/tfsc_general_batch_parser.py:94-95 | without a catalogue the row is returned unchanged |
| Enrichment.EnrichGet | src/nomad_tfsc_general/parsers/tfsc_general_batch_parser.py:82-132 | each key of the enriched row holds its last catalogue write or its original value, and each write traces back to a matched field |
| Enrichment.OriginalFieldSurvives | src/nomad_tfsc_general/parsers/tfsc_general_batch_parser.py:97-132 | a field no write touches keeps its value |
| BatchParser.GroupFields | src/nomad_tfsc_general/parsers/tfsc_general_batch_parser.py:188 | the fields of a group are exactly the second-level names under it |
| BatchParser.DropMissing | src/nomad_tfsc_general/parsers/tfsc_general_batch_parser.py:171 | `dropna()` keeps exactly the present cells, and its first element is the first present cell of the input |
| BatchParser.DropMissingAppend | src/nomad_tfsc_general/parsers/tfsc_general_batch_parser.py:171 | `dropna()` filters piecewise, so it keeps the order and the multiplicity of the present cells |
| BatchParser.SampleIds | src/nomad_tfsc_general/parsers/tfsc_general_batch_parser.py:171 | KeyError exactly without the 'Nomad ID' column; otherwise exactly the present identifiers of the column, the first being the first present one in table order |
| BatchParser.ParseBatchBatchRecord | src/nomad_tfsc_general/parsers/tfsc_general_batch_parser.py:171-173 | after a success the record right after the substrates is the batch of all sample identifiers, named after the first present 'Nomad ID' in table order |
| BatchParser.BatchIdDropsLastSegment | src/nomad_tfsc_general/parsers/tfsc_general_batch_parser.py:172 | the batch identifier is the first sample identifier without its last '_' segment |
| BatchParser.BatchIdWithoutSeparator | src/nomad_tfsc_general/parsers/tfsc_general_batch_parser.py:172 | an identifier without '_' gives the empty batch identifier |
| BatchParser.BatchIdExample | src/nomad_tfsc_general/parsers/tfsc_general_batch_parser.py:172 | 'SAU_GeSo_1_1_C-1' belongs to batch 'SAU_GeSo_1_1' |
| BatchParser.Present | src/nomad_tfsc_general/parsers/tfsc_general_batch_parser.py:188 | the substrate fields kept are exactly those the sheet has |
| BatchParser.SubstrateSlice | src/nomad_tfsc_general/parsers/tfsc_general_batch_parser.py:188-189 | a line's substrate slice has exactly the kept substrate fields |
| BatchParser.NonEmpty | src/nomad_tfsc_general/parsers/tfsc_general_batch_parser.py:190-191 | exactly the kept slices that are not entirely missing become substrates |
| BatchParser.NonEmptyOrdered | src/nomad_tfsc_general/parsers/tfsc_general_batch_parser.py:189-192 | skipping the entirely missing slices keeps the order of the kept lines |
| BatchParser.SubstratesOrdered | src/nomad_tfsc_general/parsers/tfsc_general_batch_parser.py:189-192 | the substrates come in the order of the lines they were first seen on |
| BatchParser.FindSubstrate | src/nomad_tfsc_general/parsers/tfsc_general_batch_parser.py:194-197 | the name of the first equal substrate; nothing exactly when no substrate is equal |
| BatchParser.SubstratesAreFirstOccurrences | src/nomad_tfsc_general/parsers/tfsc_general_batch_parser.py:189-192 | each substrate is a non-empty slice on the first line where it occurs |
| BatchParser.SubstratesDistinct | src/nomad_tfsc_general/parsers/tfsc_general_batch_parser.py:189-192 | substrates and their names are pairwise distinct |
| BatchParser.SubstrateFound | src/nomad_tfsc_general/parsers/tfsc_general_batch_parser.py:189-206 | a line's slice is found exactly when it is not entirely missing |
| BatchParser.SubstrateFoundName | src/nomad_tfsc_general/parsers/tfsc_general_batch_parser.py:192-206 | the substrate found is named after the first line with an equal slice |
| BatchParser.SampleAt | src/nomad_tfsc_general/parsers/tfsc_general_batch_parser.py:203-207 | a non-empty line becomes one sample naming its substrate's file, an empty line nothing, a line without a substrate raises |
| BatchParser.SampleCallsOutcome | src/nomad_tfsc_general/parsers/tfsc_general_batch_parser.py:203-207 | the sample loop succeeds exactly when every line is empty or found, and then builds one sample per non-empty line |
| BatchParser.SamplesFailOnlyWithoutSubstrate | src/nomad_tfsc_general/parsers/tfsc_general_batch_parser.py:188-207 | samples fail exactly when a non-empty line has entirely missing substrate fields |
| BatchParser.SampleCallsSound | src/nomad_tfsc_general/parsers/tfsc_general_batch_parser.py:203-207 | every sample is a non-empty line's row with its substrate's file |
| BatchParser.SampleCallsComplete | src/nomad_tfsc_general/parsers/tfsc_general_batch_parser.py:203-207 | every non-empty line's sample is in the loop's list, at the position the non-empty lines before it give |
| BatchParser.ParseBatchSamplesInPlace | src/nomad_tfsc_general/parsers/tfsc_general_batch_parser.py:203-207 | after a success every non-empty line of 'Experiment Info' has its sample in the persisted sample list, one per line in table order |
| BatchParser.FiringKinds | src/nomad_tfsc_general/parsers/tfsc_general_batch_parser.py:223-335 | reference: a kind fires when its pattern is in the group name and, after the first three, the row names a material |
| BatchParser.NoMaterialNoLaterKinds | src/nomad_tfsc_general/parsers/tfsc_general_batch_parser.py:234-235 | without a material name no kind after the guard fires |
| BatchParser.DispatchIsReference | src/nomad_tfsc_general/parsers/tfsc_general_batch_parser.py:223-335 | the dispatch makes one call per firing kind in test order with the row that kind receives; it fails exactly when a guarded kind fires and enrichment fails |
| BatchParser.DispatchComplete | src/nomad_tfsc_general/parsers/tfsc_general_batch_parser.py:223-335 | every firing kind gets its call |
| BatchParser.MatchingLines | src/nomad_tfsc_general/parsers/tfsc_general_batch_parser.py:215-219 | exactly the lines with an equal row, in increasing order |
| BatchParser.LabIds | src/nomad_tfsc_general/parsers/tfsc_general_batch_parser.py:215-219 | the identifier cells of exactly the lines whose group row equals the row, in table order |
| BatchParser.RouteRowsSound | src/nomad_tfsc_general/parsers/tfsc_general_batch_parser.py:213-335 | every call of a group is a firing kind of a kept non-empty row, with its lab ids and the row the kind receives |
| BatchParser.RouteRowsComplete | src/nomad_tfsc_general/parsers/tfsc_general_batch_parser.py:213-335 | every firing kind of every kept non-empty row gets its call |
| BatchParser.RouteGroupsSound | src/nomad_tfsc_general/parsers/tfsc_general_batch_parser.py:209-335 | every process call belongs to a group other than 'Experiment Info' and to the first line of a distinct non-empty row |
| BatchParser.RouteGroupsComplete | src/nomad_tfsc_general/parsers/tfsc_general_batch_parser.py:209-335 | every non-empty line of every other group gets a call for each firing kind |
| BatchParser.Assemble | src/nomad_tfsc_general/parsers/tfsc_general_batch_parser.py:337-346 | substrates are persisted first under `<i>_substrate.archive.json`, then every built record under its own name plus '.archive.json', with one reference per file in the same order |
| BatchParser.ParseBatch | src/nomad_tfsc_general/parsers/tfsc_general_batch_parser.py:158-348 | one reference per persisted entry, all in the upload |
| BatchParser.ParseBatchLayout | src/nomad_tfsc_general/parsers/tfsc_general_batch_parser.py:171-348 | a success lists substrates, the batch, one sample per non-empty line, then the process records; the batch record and the per-line samples are pinned down by ParseBatchBatchRecord and ParseBatchSamplesInPlace |
| BatchParser.ParseBatchSampleFiles | src/nomad_tfsc_general/parsers/tfsc_general_batch_parser.py:192-206 | every persisted sample names the file of a persisted substrate record, the one holding the substrate fields of the sample's own line |
| BatchParser.ParseBatchProcessRecords | src/nomad_tfsc_general/parsers/tfsc_general_batch_parser.py:209-221 | every record after the samples is a router process call |
| BatchParser.ParseBatchNeedsNomadIdColumn | src/nomad_tfsc_general/parsers/tfsc_general_batch_parser.py:171 | a sheet without 'Nomad ID' fails |
| BatchParser.ParseBatchNeedsSubstrate | src/nomad_tfsc_general/parsers/tfsc_general_batch_parser.py:203-207 | a non-empty line with entirely missing substrate fields makes the parse fail |
| JvParser.Slice | src/nomad_tfsc_general/schema_packages/file_parser/jv_parser.py:41 | a Python slice within range is the plain subsequence and never longer than its source |
| JvParser.TakeDrop | src/nomad_tfsc_general/schema_packages/file_parser/jv_parser.py:109-118 | the two halves at any split point rebuild the list |
| JvParser.Trunc | src/nomad_tfsc_general/schema_packages/file_parser/jv_parser.py:59 | `int()` truncates toward zero |
| JvParser.ParseAll | src/nomad_tfsc_general/schema_packages/file_parser/jv_parser.py:43-56 | a list of floats reads exactly when each value parses, value by value |
| JvParser.ReadHeader | src/nomad_tfsc_general/schema_packages/file_parser/jv_parser.py:35-39 | the header reads exactly when fields 2, 3, 4 and 6 parse on a line of at least 7 fields, with those values |
| Text.ReplaceAllAbsent | src/nomad_tfsc_general/schema_packages/file_parser/jv_parser.py:43 | `replace` leaves a text without the pattern unchanged |
| Text.ReplaceAllFinal | src/nomad_tfsc_general/schema_packages/file_parser/jv_parser.py:43 | a text ending in the pattern, with no earlier occurrence, loses exactly that occurrence |
| JvParser.MarkerRemoved | src/nomad_tfsc_general/schema_packages/file_parser/jv_parser.py:43 | a value without the marker is kept, and a value without '$' followed by the marker loses the marker |
| JvParser.MarkerRemovedOnce | src/nomad_tfsc_general/schema_packages/file_parser/jv_parser.py:43 | the cleaning is one left-to-right pass: a marker formed by removing an inner one stays |
| JvParser.ToVolts | src/nomad_tfsc_general/schema_packages/file_parser/jv_parser.py:49-50 | every voltage is divided by 1000 |
| JvParser.ReadMetrics | src/nomad_tfsc_general/schema_packages/file_parser/jv_parser.py:41-56 | the metrics read exactly when all eight four-field groups parse, with their values |
| JvParser.SweepPointCount | src/nomad_tfsc_general/schema_packages/file_parser/jv_parser.py:59-60 | ZeroDivisionError exactly for a zero step; otherwise even, twice the truncated count |
| JvParser.SweepPointCountExamples | src/nomad_tfsc_general/schema_packages/file_parser/jv_parser.py:59-60 | a 0.4 V step over 1 V gives 6 points |
| JvParser.VoltageOffset | src/nomad_tfsc_general/schema_packages/file_parser/jv_parser.py:74-75 | the voltage windows start where the four current windows end |
| JvParser.WindowsDisjoint | src/nomad_tfsc_general/schema_packages/file_parser/jv_parser.py:64-78 | the windows follow the header and do not overlap |
| JvParser.FullWindow | src/nomad_tfsc_general/schema_packages/file_parser/jv_parser.py:65-67 | on a long enough line each window is exactly n fields |
| JvParser.PixelBlocks | src/nomad_tfsc_general/schema_packages/file_parser/jv_parser.py:63-78 | the blocks read exactly when every window parses, each block being its window's values |
| JvParser.CurveNamesDistinct | src/nomad_tfsc_general/schema_packages/file_parser/jv_parser.py:107-115 | the eight curve names are distinct |
| JvParser.Curves | src/nomad_tfsc_general/schema_packages/file_parser/jv_parser.py:99-119 | reverse then forward per pixel, none dark, and each pair rebuilds the pixel's windows |
| JvParser.Efficiency | src/nomad_tfsc_general/schema_packages/file_parser/jv_parser.py:90-93 | V_oc·J_sc·FF/100 element-wise over the shortest list |
| JvParser.DetectionByTabCount | src/nomad_tfsc_general/schema_packages/file_parser/jv_parser.py:125-131 | the format is recognised exactly when a line holds at least 40 tabs; then the result is the decoding, else 'Unknown format' |
| JvParser.LastLineOnly | src/nomad_tfsc_general/schema_packages/file_parser/jv_parser.py:29-35 | only the last line's fields are used |
| JvParser.EarlierLinesIgnored | src/nomad_tfsc_general/schema_packages/file_parser/jv_parser.py:29-35 | earlier lines do not change the decoding |
| JvParser.DecodedCurves | src/nomad_tfsc_general/schema_packages/file_parser/jv_parser.py:99-119 | the curve pairs are the parsed current window p and voltage window 4+p |
| JvParser.DecodedReverseHalf | src/nomad_tfsc_general/schema_packages/file_parser/jv_parser.py:102-118 | with a positive count each curve holds half the window |
| JvParser.DecodedHeader | src/nomad_tfsc_general/schema_packages/file_parser/jv_parser.py:80-83 | the area is the first pixel's; an all-digit date is converted, any other kept verbatim; the intensity is 100 |
| JvParser.DecodedCurrents | src/nomad_tfsc_general/schema_packages/file_parser/jv_parser.py:85-96 | J_sc and J_MPP are the absolute cleaned reverse short-circuit currents |
| JvParser.DecodedVoltages | src/nomad_tfsc_general/schema_packages/file_parser/jv_parser.py:86-97 | V_oc is the reverse mV reading in volts and U_MPP repeats it |
| JvParser.DecodedEfficiency | src/nomad_tfsc_general/schema_packages/file_parser/jv_parser.py:87-95 | the fill factors are read as they are, P_MPP is made absolute, and the efficiencies follow the efficiency rule |
| JvParser.DecodeFailures | src/nomad_tfsc_general/schema_packages/file_parser/jv_parser.py:35-60 | a short header, an unreadable start or a zero step fails |
| JvParser.ShortLastLineFails | src/nomad_tfsc_general/schema_packages/file_parser/jv_parser.py:125-129 | a wide earlier line selects the format but a short last line fails |
| MeasurementParser.Basename | src/nomad_tfsc_general/parsers/tfsc_general_measurement_parser.py:90 | the basename holds no '/' and is the path's last component |
| MeasurementParser.KindOf | src/nomad_tfsc_general/parsers/tfsc_general_measurement_parser.py:92-100 | 'mpp' beats 'eqe', which beats 'iv'/'txt'; with none of them the entry is generic |
| MeasurementParser.KindExampleJv | src/nomad_tfsc_general/parsers/tfsc_general_measurement_parser.py:95-96 | upper-case 'IV' selects a J-V measurement |
| MeasurementParser.KindExampleMpp | src/nomad_tfsc_general/parsers/tfsc_general_measurement_parser.py:99-100 | 'MPP' overrides 'IV' |
| MeasurementParser.KindExampleEqe | src/nomad_tfsc_general/parsers/tfsc_general_measurement_parser.py:97-98 | 'EQE' selects an EQE measurement |
| MeasurementParser.KindExampleGeneric | src/nomad_tfsc_general/parsers/tfsc_general_measurement_parser.py:92 | a name without markers stays generic |
| MeasurementParser.SearchId | src/nomad_tfsc_general/parsers/tfsc_general_measurement_parser.py:103 | the search id is the dot-free prefix of the basename |
| MeasurementParser.EntryNameReassembles | src/nomad_tfsc_general/parsers/tfsc_general_measurement_parser.py:106 | the basename is the search id, the middle pieces and the extension joined by dots, and the name puts a blank after the id |
| MeasurementParser.EntryNameShortCases | src/nomad_tfsc_general/parsers/tfsc_general_measurement_parser.py:106 | a name without a middle part is the stem and a blank |
| MeasurementParser.Overlay | src/nomad_tfsc_general/parsers/tfsc_general_measurement_parser.py:79-80 | the stored fields win except 'm_def'; the new entry's other fields remain |
| MeasurementParser.UpdateGeneralProcessEntries | src/nomad_tfsc_general/parsers/tfsc_general_measurement_parser.py:61-85 | a merge exactly for one hit of type 'TFSC_General_Measurement', of the new entry's class; a failed read leaves the new entry's fields |
| MeasurementParser.MergeKeepsStoredFields | src/nomad_tfsc_general/parsers/tfsc_general_measurement_parser.py:72-84 | per key: stored values win, new-only keys survive, nothing else appears |
| MeasurementParser.Parse | src/nomad_tfsc_general/parsers/tfsc_general_measurement_parser.py:89-117 | one write without overwrite to basename + '.archive.json'; an overwriting second write exactly when not created and the merge applies |
| MeasurementParser.ParseMergedWrite | src/nomad_tfsc_general/parsers/tfsc_general_measurement_parser.py:113-117 | the overwriting write holds the merge of the new entry with the stored one |

## Left out

- File reading (`pd.read_excel`, opening the upload's files), the NOMAD
  search, `create_archive`, `get_reference` and `get_entry_id_from_file_name`
  are external. Their answers are parameters, or the model records the calls.
- The `map_*` builders, `get_value`, `map_product`'s quantity fields and
  `PubChemPureSubstanceSectionCustom` are outside this model. Only the
  arguments the parsers pass them are recorded.
- `float()`, `convert_datetime` and floating-point arithmetic are not
  modelled bit for bit. Parsing is a parameter, numbers are exact reals, and
  NaN and infinities are not represented.
- Text operations are ASCII-only. `lower` and `isdigit` match Python on
  ASCII, and `strip` removes the blanks listed in `Text.IsSpace`; other
  Unicode letters, digits and spaces are not modelled.
- pandas dtype effects (`astype('object')`, numeric text versus numbers),
  duplicate column labels within a group, and the row index labels beyond
  line positions are not modelled.
- `Dates.FormatNomad` always writes the year with four digits. For years
  below 1000, the C library behind `strftime` may write fewer digits, and
  that platform dependence is not modelled.
- `datetime.now()` in the measurement parser and `set_sample_reference` are
  not modelled: one is a clock, the other a search with side effects only.
- `get_jv_data_location_2` is an empty stub in the source. No file reaches
  it.
- `is_mainfile`, the schema classes, the apps and the entry-point modules are
  outside the core.
- `JvParser.SweepPointCount`: a negative step yields a count of at most 2,
  and Python's slicing then behaves as `Slice` models. The bounds are not
  stated more precisely.
- `BatchParser.FindSubstrate`: the source compares slices with
  `Series.equals`, which also compares dtypes. The slices come from an
  object-dtype row, while the stored substrates are float64 when every kept
  substrate column is numeric. Then no substrate matches and the sample loop
  raises TypeError on a line whose substrate fields are present. The model
  compares values only, so `SamplesFailOnlyWithoutSubstrate` states the
  failure condition for value equality and not for this dtype case.
- `MeasurementParser.UpdateGeneralProcessEntries`: dictionaries are maps, so
  key order in the merged entry is not modelled.
