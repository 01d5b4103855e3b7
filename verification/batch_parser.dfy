/** `TFSCGeneralExperimentParser.parse`: an experiment plan with a two-level
    header (column group, field) becomes a batch, its substrates, its samples
    and one record per distinct process row, followed by the list of
    references to all persisted records.

    The spreadsheet reader, the `map_*` record builders, `create_archive` and
    `get_reference` are outside the model: every builder call is recorded as
    a `MapCall` value, the record name a builder returns is the function
    parameter `nameOf`, and a reference is the pair of upload id and file
    name. */
module BatchParser {
  import opened Wrappers
  import opened Cells
  import Text
  import Dedup
  import Enrichment

  /** The first sheet: one (group, field) header pair per column, and the
      cells of every line below the header. */
  datatype Plan = Plan(columns: seq<(string, string)>, lines: seq<seq<Cell>>)

  const InfoGroup := "Experiment Info"
  const NomadIdField := "Nomad ID"
  const MaterialField := "Material name"
  const ArchiveSuffix := ".archive.json"

  /** The fields of the 'Experiment Info' group that describe a substrate,
      in the order the parser lists them. */
  const SubstrateFields: seq<string> := [
    "Date", "Sample dimension", "Sample area [cm^2]", "Pixel area [cm^2]",
    "Number of pixels", "Notes", "Substrate material", "Substrate conductive layer",
    "Transmission [%]", "Sheet Resistance [Ohms/square]", "TCO thickness [nm]"
  ]

  // ---------------------------------------------------------------------------
  // Column groups

  /** The positions of the columns of group `g`, in sheet order. */
  function Positions(columns: seq<(string, string)>, g: string): (ps: seq<nat>)
    ensures forall t | 0 <= t < |ps| :: ps[t] < |columns| && columns[ps[t]].0 == g
    ensures forall c | 0 <= c < |columns| && columns[c].0 == g :: c in ps
    decreases |columns|
  {
    if |columns| == 0 then []
    else
      var ps := Positions(columns[..|columns| - 1], g);
      if columns[|columns| - 1].0 == g then ps + [|columns| - 1] else ps
  }

  /** `df[g].columns`: the field names of group `g`. */
  function GroupFields(columns: seq<(string, string)>, g: string): (fs: seq<string>)
    ensures forall f :: f in fs <==> (g, f) in columns
  {
    var ps := Positions(columns, g);
    var fs := seq(|ps|, t requires 0 <= t < |ps| => columns[ps[t]].1);
    assert forall f | (g, f) in columns :: f in fs by {
      forall f | (g, f) in columns
        ensures f in fs
      {
        var c :| 0 <= c < |columns| && columns[c] == (g, f);
        var t :| 0 <= t < |ps| && ps[t] == c;
        assert fs[t] == f;
      }
    }
    fs
  }

  /** Line `x` of `df[g]`: the group's fields with their cells. */
  function GroupRow(plan: Plan, g: string, x: nat): (row: Row)
    requires x < |plan.lines|
    ensures Keys(row) == GroupFields(plan.columns, g)
  {
    var ps := Positions(plan.columns, g);
    seq(|ps|, t requires 0 <= t < |ps| => (plan.columns[ps[t]].1, CellAt(plan.lines[x], ps[t])))
  }

  /** `df.columns.get_level_values(0).unique()`. */
  function Groups(plan: Plan): seq<string> {
    Dedup.Unique(seq(|plan.columns|, c requires 0 <= c < |plan.columns| => plan.columns[c].0))
  }

  // ---------------------------------------------------------------------------
  // Sample identifiers and the batch identifier

  /** `df['Experiment Info']['Nomad ID']` at line `x`. */
  function NomadIdAt(plan: Plan, x: nat): Cell
    requires x < |plan.lines|
  {
    Lookup(GroupRow(plan, InfoGroup, x), NomadIdField)
  }

  /** The 'Nomad ID' cell of every line. */
  function NomadIds(plan: Plan): (ids: seq<Cell>)
    ensures |ids| == |plan.lines|
  {
    seq(|plan.lines|, x requires 0 <= x < |plan.lines| => NomadIdAt(plan, x))
  }

  /** `.dropna()`: the present cells, in order. */
  function DropMissing(cells: seq<Cell>): (r: seq<Cell>)
    ensures forall c | c in r :: !c.Missing?
    ensures forall c | c in cells && !c.Missing? :: c in r
    ensures forall c | c in r :: c in cells
    ensures |r| > 0 ==> exists x | 0 <= x < |cells| :: FirstPresentAt(cells, x) && r[0] == cells[x]
    decreases |cells|
  {
    if |cells| == 0 then []
    else
      var rest := DropMissing(cells[1..]);
      assert forall c | c in cells :: c == cells[0] || c in cells[1..];
      if cells[0].Missing? then
        assert |rest| > 0 ==> exists x | 0 <= x < |cells| :: FirstPresentAt(cells, x) && rest[0] == cells[x] by {
          if |rest| > 0 {
            var x :| 0 <= x < |cells[1..]| && FirstPresentAt(cells[1..], x) && rest[0] == cells[1..][x];
            assert FirstPresentAt(cells, x + 1);
          }
        }
        rest
      else
        assert FirstPresentAt(cells, 0);
        [cells[0]] + rest
  }

  /** Position `x` holds the first present cell. */
  predicate FirstPresentAt(cells: seq<Cell>, x: nat) {
    x < |cells| && !cells[x].Missing? && forall y | 0 <= y < x :: cells[y].Missing?
  }

  /** `dropna()` filters piecewise: it keeps the order and the multiplicity
      of the present cells. */
  lemma {:induction false} DropMissingAppend(a: seq<Cell>, b: seq<Cell>)
    ensures DropMissing(a + b) == DropMissing(a) + DropMissing(b)
    decreases |a|
  {
    if |a| > 0 {
      assert (a + b)[0] == a[0];
      assert (a + b)[1..] == a[1..] + b;
      DropMissingAppend(a[1..], b);
    } else {
      assert a + b == b;
    }
  }

  /** `dropna()` of a single cell. */
  lemma DropMissingSingle(c: Cell)
    ensures DropMissing([c]) == if c.Missing? then [] else [c]
  {
    assert [c][1..] == [];
  }

  /** `df['Experiment Info']['Nomad ID'].dropna().to_list()`; pandas raises
      KeyError when the group or the field is absent. The first identifier
      is the first present 'Nomad ID' in table order. */
  function SampleIds(plan: Plan): (r: Result<seq<Cell>>)
    ensures r.Failure? <==> (InfoGroup, NomadIdField) !in plan.columns
    ensures r.Success? ==> forall x | 0 <= x < |plan.lines| && !NomadIdAt(plan, x).Missing? :: NomadIdAt(plan, x) in r.value
    ensures r.Success? ==> forall c | c in r.value :: !c.Missing? && exists x | 0 <= x < |plan.lines| :: NomadIdAt(plan, x) == c
    ensures r.Success? && |r.value| > 0 ==>
      exists x | 0 <= x < |plan.lines| :: FirstNomadIdAt(plan, x) && r.value[0] == NomadIdAt(plan, x)
  {
    if (InfoGroup, NomadIdField) !in plan.columns then Failure("KeyError: 'Nomad ID'")
    else
      PresentNomadIds(plan);
      FirstPresentNomadId(plan);
      Success(DropMissing(NomadIds(plan)))
  }

  lemma PresentNomadIds(plan: Plan)
    ensures forall x | 0 <= x < |plan.lines| && !NomadIdAt(plan, x).Missing? :: NomadIdAt(plan, x) in DropMissing(NomadIds(plan))
    ensures forall c | c in DropMissing(NomadIds(plan)) :: !c.Missing? && exists x | 0 <= x < |plan.lines| :: NomadIdAt(plan, x) == c
  {
    var all := NomadIds(plan);
    assert forall x | 0 <= x < |plan.lines| :: NomadIdAt(plan, x) == all[x];
  }

  lemma FirstPresentNomadId(plan: Plan)
    ensures var r := DropMissing(NomadIds(plan));
      |r| > 0 ==> exists x | 0 <= x < |plan.lines| :: FirstNomadIdAt(plan, x) && r[0] == NomadIdAt(plan, x)
  {
    var all := NomadIds(plan);
    var r := DropMissing(all);
    if |r| > 0 {
      var x :| 0 <= x < |all| && FirstPresentAt(all, x) && r[0] == all[x];
      assert all[x] == NomadIdAt(plan, x);
    }
  }

  /** Line `x` holds the first present 'Nomad ID'. */
  predicate FirstNomadIdAt(plan: Plan, x: nat) {
    FirstPresentAt(NomadIds(plan), x)
  }

  /** `'_'.join(first_id.split('_')[:-1])`. */
  function BatchId(firstId: string): string {
    var p := Text.Split(firstId, '_');
    Text.Join(p[..|p| - 1], "_")
  }

  /** The batch identifier is the sample identifier without its last
      '_'-separated segment. */
  lemma BatchIdDropsLastSegment(prefix: string, last: string)
    requires '_' !in last
    ensures BatchId(prefix + "_" + last) == prefix
  {
    Text.SplitAround(prefix, '_', last);
    Text.SplitClean(last, '_');
    var p := Text.Split(prefix + "_" + last, '_');
    assert p[..|p| - 1] == Text.Split(prefix, '_');
    Text.JoinSplit(prefix, '_');
  }

  /** An identifier without '_' yields the empty batch identifier. */
  lemma BatchIdWithoutSeparator(firstId: string)
    requires '_' !in firstId
    ensures BatchId(firstId) == ""
  {
    Text.SplitClean(firstId, '_');
  }

  /** Sample 'SAU_GeSo_1_1_C-1' belongs to batch 'SAU_GeSo_1_1'. */
  lemma BatchIdExample()
    ensures BatchId("SAU_GeSo_1_1_C-1") == "SAU_GeSo_1_1"
  {
    var last := "C-1";
    assert '_' !in last;
    assert "SAU_GeSo_1_1_C-1" == "SAU_GeSo_1_1" + "_" + last;
    BatchIdDropsLastSegment("SAU_GeSo_1_1", last);
  }

  // ---------------------------------------------------------------------------
  // Substrates

  /** The names of `wanted` that occur in `available`, in the order of `wanted`. */
  function Present(wanted: seq<string>, available: seq<string>): (r: seq<string>)
    ensures forall f :: f in r <==> f in wanted && f in available
    decreases |wanted|
  {
    if |wanted| == 0 then []
    else
      var rest := Present(wanted[1..], available);
      assert forall f :: f in wanted <==> f == wanted[0] || f in wanted[1..];
      if wanted[0] in available then [wanted[0]] + rest else rest
  }

  /** `substrates_col` after filtering to the fields the sheet has. */
  function SubstrateColumns(plan: Plan): seq<string> {
    Present(SubstrateFields, GroupFields(plan.columns, InfoGroup))
  }

  /** `df['Experiment Info'][substrates_col]` at line `x`. */
  function SubstrateSlice(plan: Plan, x: nat): (row: Row)
    requires x < |plan.lines|
    ensures Keys(row) == SubstrateColumns(plan)
  {
    var cols := SubstrateColumns(plan);
    seq(|cols|, t requires 0 <= t < |cols| => (cols[t], Lookup(GroupRow(plan, InfoGroup, x), cols[t])))
  }

  /** The substrate fields of every line. */
  function SubstrateSlices(plan: Plan): (slices: seq<Row>)
    ensures |slices| == |plan.lines|
    ensures forall x | 0 <= x < |plan.lines| :: slices[x] == SubstrateSlice(plan, x)
  {
    seq(|plan.lines|, x requires 0 <= x < |plan.lines| => SubstrateSlice(plan, x))
  }

  /** The 'Experiment Info' row of every line. */
  function InfoRows(plan: Plan): (infos: seq<Row>)
    ensures |infos| == |plan.lines|
    ensures forall x | 0 <= x < |plan.lines| :: infos[x] == GroupRow(plan, InfoGroup, x)
  {
    seq(|plan.lines|, x requires 0 <= x < |plan.lines| => GroupRow(plan, InfoGroup, x))
  }

  /** A substrate: the line it was first seen on and its field values. */
  datatype Substrate = Substrate(line: nat, row: Row)

  /** The kept lines that are not entirely missing. */
  function NonEmpty(kept: seq<(nat, Row)>): (subs: seq<Substrate>)
    ensures forall s | s in subs :: !AllMissing(s.row) && (s.line, s.row) in kept
    ensures forall k | k in kept && !AllMissing(k.1) :: Substrate(k.0, k.1) in subs
    decreases |kept|
  {
    if |kept| == 0 then []
    else
      var rest := NonEmpty(kept[1..]);
      assert forall k | k in kept :: k == kept[0] || k in kept[1..];
      if AllMissing(kept[0].1) then rest else [Substrate(kept[0].0, kept[0].1)] + rest
  }

  /** The substrate loop over the substrate slices: `drop_duplicates()`,
      skipping rows that are entirely missing. */
  function Substrates(slices: seq<Row>): seq<Substrate> {
    NonEmpty(Dedup.DropDuplicates(slices))
  }

  /** `f'{i}_substrate'`. */
  function SubstrateName(s: Substrate): string {
    Text.NatToString(s.line) + "_substrate"
  }

  /** `find_substrate(d)`: the name of the first substrate equal to `d`, or
      nothing when the loop falls through. */
  function FindSubstrate(subs: seq<Substrate>, d: Row): (r: Option<string>)
    ensures r.Some? ==> exists t | 0 <= t < |subs| :: subs[t].row == d && r.value == SubstrateName(subs[t])
    ensures r.None? <==> forall s | s in subs :: s.row != d
    decreases |subs|
  {
    if |subs| == 0 then None
    else if subs[0].row == d then Some(SubstrateName(subs[0]))
    else
      var r := FindSubstrate(subs[1..], d);
      assert forall s | s in subs :: s == subs[0] || s in subs[1..];
      assert r.Some? ==> exists t | 0 <= t < |subs| :: subs[t].row == d && r.value == SubstrateName(subs[t]) by {
        if r.Some? {
          var t :| 0 <= t < |subs[1..]| && subs[1..][t].row == d && r.value == SubstrateName(subs[1..][t]);
          assert subs[t + 1] == subs[1..][t];
        }
      }
      r
  }

  /** The lines of `kept` strictly increase. */
  predicate KeptIncreasing(kept: seq<(nat, Row)>) {
    forall s, t | 0 <= s < t < |kept| :: kept[s].0 < kept[t].0
  }

  /** The lines of `subs` strictly increase. */
  predicate LinesIncreasing(subs: seq<Substrate>) {
    forall s, t | 0 <= s < t < |subs| :: subs[s].line < subs[t].line
  }

  /** Filtering keeps the order of the kept lines. */
  lemma {:induction false} NonEmptyOrdered(kept: seq<(nat, Row)>)
    requires KeptIncreasing(kept)
    ensures LinesIncreasing(NonEmpty(kept))
    decreases |kept|
  {
    if |kept| > 0 {
      assert KeptIncreasing(kept[1..]);
      NonEmptyOrdered(kept[1..]);
      if !AllMissing(kept[0].1) {
        NonEmptyAfter(kept[1..], kept[0].0);
        ConsIncreasing(Substrate(kept[0].0, kept[0].1), NonEmpty(kept[1..]));
      }
    }
  }

  lemma ConsIncreasing(head: Substrate, rest: seq<Substrate>)
    requires LinesIncreasing(rest)
    requires forall s | s in rest :: head.line < s.line
    ensures LinesIncreasing([head] + rest)
  {
    var subs := [head] + rest;
    forall s, t | 0 <= s < t < |subs|
      ensures subs[s].line < subs[t].line
    {
      assert subs[t] == rest[t - 1];
      if s > 0 {
        assert subs[s] == rest[s - 1];
      }
    }
  }

  lemma {:induction false} NonEmptyAfter(kept: seq<(nat, Row)>, bound: nat)
    requires forall j | 0 <= j < |kept| :: bound < kept[j].0
    ensures forall s | s in NonEmpty(kept) :: bound < s.line
    decreases |kept|
  {
    if |kept| > 0 {
      NonEmptyAfter(kept[1..], bound);
    }
  }

  /** The substrates are persisted in the order of the lines they were first
      seen on. */
  lemma SubstratesOrdered(slices: seq<Row>)
    ensures LinesIncreasing(Substrates(slices))
  {
    Dedup.DropDuplicatesOrdered(slices);
    NonEmptyOrdered(Dedup.DropDuplicates(slices));
  }

  /** Every substrate is a distinct, not entirely missing slice, first seen
      on its line. */
  lemma {:induction false} SubstratesAreFirstOccurrences(slices: seq<Row>, s: Substrate)
    requires s in Substrates(slices)
    ensures s.line < |slices| && s.row == slices[s.line]
    ensures !AllMissing(s.row)
    ensures forall x | 0 <= x < s.line :: slices[x] != s.row
  {
    var kept := Dedup.DropDuplicates(slices);
    var t :| 0 <= t < |kept| && kept[t] == (s.line, s.row);
    Dedup.DropDuplicatesKeepsFirst(slices, s.line);
    assert Dedup.FirstOccurrence(slices, s.line);
    forall x | 0 <= x < s.line
      ensures slices[x] != s.row
    {
      assert slices[..s.line][x] == slices[x];
    }
  }

  /** No two substrates are equal, and their names are distinct. */
  lemma {:induction false} SubstratesDistinct(slices: seq<Row>, s: Substrate, s': Substrate)
    requires s in Substrates(slices) && s' in Substrates(slices) && s != s'
    ensures s.row != s'.row
    ensures SubstrateName(s) != SubstrateName(s')
  {
    SubstratesAreFirstOccurrences(slices, s);
    SubstratesAreFirstOccurrences(slices, s');
    if s.line != s'.line {
      if SubstrateName(s) == SubstrateName(s') {
        assert Text.NatToString(s.line) == SubstrateName(s)[..|SubstrateName(s)| - 10];
        assert Text.NatToString(s'.line) == SubstrateName(s')[..|SubstrateName(s')| - 10];
        Text.NatToStringInjective(s.line, s'.line);
      }
    }
  }

  /** A line's slice is found exactly when it is not entirely missing. */
  lemma {:induction false} SubstrateFound(slices: seq<Row>, x: nat)
    requires x < |slices|
    ensures FindSubstrate(Substrates(slices), slices[x]).Some? <==> !AllMissing(slices[x])
  {
    var subs := Substrates(slices);
    if !AllMissing(slices[x]) {
      var kept := Dedup.DropDuplicates(slices);
      Dedup.DropDuplicatesComplete(slices, x);
      var t :| 0 <= t < |kept| && kept[t].1 == slices[x] && kept[t].0 <= x;
      assert kept[t] in kept;
      assert Substrate(kept[t].0, kept[t].1) in subs;
    }
  }

  /** A found substrate is the one named after the first line with an equal
      slice: samples that share substrate fields share the substrate record. */
  lemma {:induction false} SubstrateFoundName(slices: seq<Row>, x: nat)
    requires x < |slices|
    requires FindSubstrate(Substrates(slices), slices[x]).Some?
    ensures exists f | 0 <= f <= x ::
      && slices[f] == slices[x]
      && (forall y | 0 <= y < f :: slices[y] != slices[x])
      && FindSubstrate(Substrates(slices), slices[x]) == Some(Text.NatToString(f) + "_substrate")
  {
    var subs := Substrates(slices);
    var r := FindSubstrate(subs, slices[x]);
    var t :| 0 <= t < |subs| && subs[t].row == slices[x] && r.value == SubstrateName(subs[t]);
    assert subs[t] in subs;
    SubstratesAreFirstOccurrences(slices, subs[t]);
    var f := subs[t].line;
    assert f <= x;
  }

  /** The process kinds the router knows, in the order it tests them. */
  datatype ProcessKind =
    | Cleaning | LaserScribing | GenericProcess
    | Evaporation | SpinCoating | SlotDieCoating | Sputtering | InkjetPrinting
    | AtomicLayerDeposition | BladeCoating | GravurePrinting | ScreenPrinting

  /** One call of a `map_*` builder with the arguments the model keeps. */
  datatype MapCall =
    | MapBatch(sampleIds: seq<Cell>, batchId: string)
    | MapSample(row: Row, substrateFile: string)
    | MapProcess(kind: ProcessKind, groupIndex: nat, lineIndex: nat, labIds: seq<Cell>, row: Row)

  /** Line `y` is skipped as empty or has a matching substrate. */
  predicate SampleLineFound(infos: seq<Row>, slices: seq<Row>, subs: seq<Substrate>, y: nat)
    requires y < |infos| == |slices|
  {
    AllMissing(infos[y]) || FindSubstrate(subs, slices[y]).Some?
  }

  /** The sample loop body for line `x`: a line of 'Experiment Info' that is
      not entirely missing becomes a sample referencing its substrate's file;
      when no substrate is found, `None + '.archive.json'` raises TypeError. */
  function SampleAt(infos: seq<Row>, slices: seq<Row>, subs: seq<Substrate>, x: nat): (r: Result<seq<MapCall>>)
    requires x < |infos| == |slices|
    ensures r.Success? <==> SampleLineFound(infos, slices, subs, x)
    ensures r.Success? ==> |r.value| == (if AllMissing(infos[x]) then 0 else 1)
    ensures r.Success? && |r.value| == 1 ==>
      r.value[0] == MapSample(infos[x], FindSubstrate(subs, slices[x]).value + ArchiveSuffix)
  {
    if AllMissing(infos[x]) then Success([])
    else match FindSubstrate(subs, slices[x])
      case None => Failure("TypeError: unsupported operand type(s) for +: 'NoneType' and 'str'")
      case Some(name) => Success([MapSample(infos[x], name + ArchiveSuffix)])
  }

  /** The sample loop from line `x` on. */
  function SampleCalls(infos: seq<Row>, slices: seq<Row>, subs: seq<Substrate>, x: nat): (r: Result<seq<MapCall>>)
    requires x <= |infos| == |slices|
    ensures r.Success? ==> forall c | c in r.value :: c.MapSample?
    decreases |infos| - x
  {
    if x == |infos| then Success([])
    else
      var here :- SampleAt(infos, slices, subs, x);
      var rest :- SampleCalls(infos, slices, subs, x + 1);
      Success(here + rest)
  }

  /** The number of rows from `x` on that are not entirely missing. */
  function NonEmptyRows(rows: seq<Row>, x: nat): nat
    requires x <= |rows|
    decreases |rows| - x
  {
    if x == |rows| then 0
    else (if AllMissing(rows[x]) then 0 else 1) + NonEmptyRows(rows, x + 1)
  }

  /** The sample loop fails exactly when some line that is not entirely
      missing has no matching substrate; otherwise it builds one sample per
      such line. */
  lemma {:induction false} SampleCallsOutcome(infos: seq<Row>, slices: seq<Row>, subs: seq<Substrate>, x: nat)
    requires x <= |infos| == |slices|
    ensures SampleCalls(infos, slices, subs, x).Success? ==>
      forall y | x <= y < |infos| :: SampleLineFound(infos, slices, subs, y)
    ensures (forall y | x <= y < |infos| :: SampleLineFound(infos, slices, subs, y)) ==>
      SampleCalls(infos, slices, subs, x).Success?
    ensures SampleCalls(infos, slices, subs, x).Success? ==> |SampleCalls(infos, slices, subs, x).value| == NonEmptyRows(infos, x)
    decreases |infos| - x
  {
    if x < |infos| {
      var here := SampleAt(infos, slices, subs, x);
      var rest := SampleCalls(infos, slices, subs, x + 1);
      SampleCallsOutcome(infos, slices, subs, x + 1);
      assert SampleCalls(infos, slices, subs, x) == if here.Failure? then Failure(here.reason)
        else if rest.Failure? then Failure(rest.reason) else Success(here.value + rest.value);
    }
  }

  /** With the substrates of the same slices, the sample loop fails exactly
      when a line that is not entirely missing has entirely missing
      substrate fields. */
  lemma SamplesFailOnlyWithoutSubstrate(infos: seq<Row>, slices: seq<Row>)
    requires |infos| == |slices|
    ensures SampleCalls(infos, slices, Substrates(slices), 0).Success? ==>
      forall y | 0 <= y < |infos| :: AllMissing(infos[y]) || !AllMissing(slices[y])
    ensures (forall y | 0 <= y < |infos| :: AllMissing(infos[y]) || !AllMissing(slices[y])) ==>
      SampleCalls(infos, slices, Substrates(slices), 0).Success?
  {
    var subs := Substrates(slices);
    SampleCallsOutcome(infos, slices, subs, 0);
    forall y | 0 <= y < |infos|
      ensures SampleLineFound(infos, slices, subs, y) == (AllMissing(infos[y]) || !AllMissing(slices[y]))
    {
      SubstrateFound(slices, y);
    }
  }

  /** `c` is the sample built for line `y`. */
  predicate SampleOf(infos: seq<Row>, slices: seq<Row>, subs: seq<Substrate>, y: nat, c: MapCall)
    requires y < |infos| == |slices|
  {
    && !AllMissing(infos[y])
    && FindSubstrate(subs, slices[y]).Some?
    && c == MapSample(infos[y], FindSubstrate(subs, slices[y]).value + ArchiveSuffix)
  }

  /** A successful sample loop is line `x`'s sample, if any, then the rest. */
  lemma SampleCallsStep(infos: seq<Row>, slices: seq<Row>, subs: seq<Substrate>, x: nat)
    requires x < |infos| == |slices|
    requires SampleCalls(infos, slices, subs, x).Success?
    ensures SampleAt(infos, slices, subs, x).Success? && SampleCalls(infos, slices, subs, x + 1).Success?
    ensures SampleCalls(infos, slices, subs, x).value ==
      SampleAt(infos, slices, subs, x).value + SampleCalls(infos, slices, subs, x + 1).value
  {
  }

  /** Every sample is built from a line that is not entirely missing, with
      that line's 'Experiment Info' row and the file of the substrate its
      substrate fields match. */
  lemma {:induction false} SampleCallsSound(infos: seq<Row>, slices: seq<Row>, subs: seq<Substrate>, x: nat, c: MapCall)
    requires x <= |infos| == |slices|
    requires SampleCalls(infos, slices, subs, x).Success?
    requires c in SampleCalls(infos, slices, subs, x).value
    ensures exists y | x <= y < |infos| :: SampleOf(infos, slices, subs, y, c)
    decreases |infos| - x
  {
    SampleCallsStep(infos, slices, subs, x);
    if c in SampleCalls(infos, slices, subs, x + 1).value {
      SampleCallsSound(infos, slices, subs, x + 1, c);
    } else {
      SampleCallsSoundHere(infos, slices, subs, x, c);
    }
  }

  lemma SampleCallsSoundHere(infos: seq<Row>, slices: seq<Row>, subs: seq<Substrate>, x: nat, c: MapCall)
    requires x < |infos| == |slices|
    requires SampleAt(infos, slices, subs, x).Success? && SampleCalls(infos, slices, subs, x + 1).Success?
    requires c in SampleAt(infos, slices, subs, x).value + SampleCalls(infos, slices, subs, x + 1).value
    requires c !in SampleCalls(infos, slices, subs, x + 1).value
    ensures exists y | x <= y < |infos| :: SampleOf(infos, slices, subs, y, c)
  {
    InLeft(c, SampleAt(infos, slices, subs, x).value, SampleCalls(infos, slices, subs, x + 1).value);
    SampleAtSound(infos, slices, subs, x, c);
  }

  /** Every line from `x` on that is not entirely missing has its sample in
      the loop's list, at the position the non-empty lines before it give:
      the samples appear in table order, one per such line. */
  lemma {:induction false} SampleCallsComplete(infos: seq<Row>, slices: seq<Row>, subs: seq<Substrate>, x: nat, y: nat)
    requires x <= y < |infos| == |slices|
    requires SampleCalls(infos, slices, subs, x).Success?
    requires !AllMissing(infos[y])
    ensures SampleInPlace(infos, slices, subs, x, y)
    decreases y - x, 1
  {
    if x == y {
      SampleCallsStep(infos, slices, subs, x);
      SampleCallsFirst(infos, slices, subs, x);
    } else {
      SampleCallsCompleteStep(infos, slices, subs, x, y);
    }
  }

  /** The inductive step of `SampleCallsComplete` for a line after `x`. */
  lemma {:induction false} SampleCallsCompleteStep(infos: seq<Row>, slices: seq<Row>, subs: seq<Substrate>, x: nat, y: nat)
    requires x < y < |infos| == |slices|
    requires SampleCalls(infos, slices, subs, x).Success?
    requires !AllMissing(infos[y])
    ensures SampleInPlace(infos, slices, subs, x, y)
    decreases y - x, 0
  {
    SampleCallsStep(infos, slices, subs, x);
    SampleCallsComplete(infos, slices, subs, x + 1, y);
    SampleCallsLater(infos, slices, subs, x, y);
  }

  /** Line `y`'s sample sits in the loop's list from `x` at the position the
      non-empty lines from `x` up to `y` give. */
  predicate SampleInPlace(infos: seq<Row>, slices: seq<Row>, subs: seq<Substrate>, x: nat, y: nat)
    requires x <= y < |infos| == |slices|
  {
    && SampleCalls(infos, slices, subs, x).Success?
    && SampleListed(infos, slices, subs, y, SampleCalls(infos, slices, subs, x).value,
         NonEmptyRows(infos, x) - NonEmptyRows(infos, y))
  }

  /** Position `k` of `cs` holds line `y`'s sample. */
  predicate SampleListed(infos: seq<Row>, slices: seq<Row>, subs: seq<Substrate>, y: nat, cs: seq<MapCall>, k: int)
    requires y < |infos| == |slices|
  {
    0 <= k < |cs| && SampleOf(infos, slices, subs, y, cs[k])
  }

  /** The sample of a non-empty line `x` heads the loop from `x`. */
  lemma SampleCallsFirst(infos: seq<Row>, slices: seq<Row>, subs: seq<Substrate>, x: nat)
    requires x < |infos| == |slices|
    requires SampleAt(infos, slices, subs, x).Success? && SampleCalls(infos, slices, subs, x + 1).Success?
    requires SampleCalls(infos, slices, subs, x).Success?
    requires SampleCalls(infos, slices, subs, x).value ==
      SampleAt(infos, slices, subs, x).value + SampleCalls(infos, slices, subs, x + 1).value
    requires !AllMissing(infos[x])
    ensures SampleInPlace(infos, slices, subs, x, x)
  {
  }

  /** A later line's sample keeps its place behind line `x`'s sample. */
  lemma SampleCallsLater(infos: seq<Row>, slices: seq<Row>, subs: seq<Substrate>, x: nat, y: nat)
    requires x < y < |infos| == |slices|
    requires SampleCalls(infos, slices, subs, x).Success?
    requires SampleInPlace(infos, slices, subs, x + 1, y)
    ensures SampleInPlace(infos, slices, subs, x, y)
  {
    SampleCallsSplit(infos, slices, subs, x);
    SampleShift(infos, slices, subs, y, SampleCalls(infos, slices, subs, x).value, SampleAt(infos, slices, subs, x).value,
      SampleCalls(infos, slices, subs, x + 1).value, NonEmptyRows(infos, x), NonEmptyRows(infos, x + 1), NonEmptyRows(infos, y));
  }

  /** Putting calls in front of a list moves a listed sample back by their number. */
  lemma SampleShift(infos: seq<Row>, slices: seq<Row>, subs: seq<Substrate>, y: nat,
                    whole: seq<MapCall>, here: seq<MapCall>, rest: seq<MapCall>, total: int, n: int, m: int)
    requires y < |infos| == |slices|
    requires whole == here + rest && total == |here| + n
    requires SampleListed(infos, slices, subs, y, rest, n - m)
    ensures SampleListed(infos, slices, subs, y, whole, total - m)
  {
    assert whole[total - m] == rest[n - m];
  }

  /** The facts about one step of the sample loop that placing a later sample needs. */
  lemma SampleCallsSplit(infos: seq<Row>, slices: seq<Row>, subs: seq<Substrate>, x: nat)
    requires x < |infos| == |slices|
    requires SampleCalls(infos, slices, subs, x).Success?
    ensures SampleAt(infos, slices, subs, x).Success? && SampleCalls(infos, slices, subs, x + 1).Success?
    ensures SampleCalls(infos, slices, subs, x).value ==
      SampleAt(infos, slices, subs, x).value + SampleCalls(infos, slices, subs, x + 1).value
    ensures NonEmptyRows(infos, x) == |SampleAt(infos, slices, subs, x).value| + NonEmptyRows(infos, x + 1)
  {
    SampleCallsStep(infos, slices, subs, x);
    SampleAtCount(infos, slices, subs, x);
  }

  /** Line `x` contributes one sample when it is not entirely missing, none otherwise. */
  lemma SampleAtCount(infos: seq<Row>, slices: seq<Row>, subs: seq<Substrate>, x: nat)
    requires x < |infos| == |slices|
    requires SampleAt(infos, slices, subs, x).Success?
    ensures NonEmptyRows(infos, x) == |SampleAt(infos, slices, subs, x).value| + NonEmptyRows(infos, x + 1)
  {
  }

  lemma InLeft<T>(c: T, a: seq<T>, b: seq<T>)
    requires c in a + b && c !in b
    ensures c in a
  {
  }

  lemma SampleAtSound(infos: seq<Row>, slices: seq<Row>, subs: seq<Substrate>, x: nat, c: MapCall)
    requires x < |infos| == |slices|
    requires SampleAt(infos, slices, subs, x).Success?
    requires c in SampleAt(infos, slices, subs, x).value
    ensures SampleOf(infos, slices, subs, x, c)
  {
  }

  // ---------------------------------------------------------------------------
  // Dispatch of one process row

  /** The substring whose presence in the group name selects a kind. */
  function Pattern(k: ProcessKind): string {
    match k
    case Cleaning => "Cleaning"
    case LaserScribing => "Laser Scribing"
    case GenericProcess => "Generic Process"
    case Evaporation => "Evaporation"
    case SpinCoating => "Spin Coating"
    case SlotDieCoating => "Slot Die Coating"
    case Sputtering => "Sputtering"
    case InkjetPrinting => "Inkjet Printing"
    case AtomicLayerDeposition => "ALD"
    case BladeCoating => "Blade Coating"
    case GravurePrinting => "Gravure Printing"
    case ScreenPrinting => "Screen Printing"
  }

  /** Kinds checked after the 'Material name' guard. */
  predicate NeedsMaterial(k: ProcessKind) {
    !(k.Cleaning? || k.LaserScribing? || k.GenericProcess?)
  }

  /** Kinds whose builder receives the enriched row; Sputtering and ALD
      receive the row as read although it is enriched for them too. */
  predicate GetsEnrichedRow(k: ProcessKind) {
    NeedsMaterial(k) && !k.Sputtering? && !k.AtomicLayerDeposition?
  }

  const BasicKinds: seq<ProcessKind> := [Cleaning, LaserScribing, GenericProcess]
  const MaterialKinds: seq<ProcessKind> := [
    Evaporation, SpinCoating, SlotDieCoating, Sputtering, InkjetPrinting,
    AtomicLayerDeposition, BladeCoating, GravurePrinting, ScreenPrinting
  ]
  const AllKinds: seq<ProcessKind> := BasicKinds + MaterialKinds

  /** The first list holds the kinds checked before the guard, the second
      those checked after it. */
  lemma KindLists()
    ensures forall k | k in BasicKinds :: !NeedsMaterial(k)
    ensures forall k | k in MaterialKinds :: NeedsMaterial(k)
  {
  }

  /** `not pd.isna(row.get('Material name'))`: the field exists and is present. */
  predicate HasMaterial(row: Row) {
    Get(row, MaterialField).Some? && !Get(row, MaterialField).value.Missing?
  }

  /** The group-name tests of group `g`: `pattern in col` for every kind. */
  function Tests(g: string): ProcessKind -> bool {
    k => Text.Contains(g, Pattern(k))
  }

  /** The first three independent tests, made before the material guard. */
  function BasicCalls(kinds: seq<ProcessKind>, tests: ProcessKind -> bool, i: nat, j: nat, labIds: seq<Cell>, row: Row): seq<MapCall>
    decreases |kinds|
  {
    if |kinds| == 0 then []
    else
      (if tests(kinds[0]) then [MapProcess(kinds[0], i, j, labIds, row)] else [])
      + BasicCalls(kinds[1..], tests, i, j, labIds, row)
  }

  /** The tests after the material guard: each match enriches the row (an
      enrichment error propagates) and hands the builder the enriched or the
      raw row. */
  function MaterialCalls(kinds: seq<ProcessKind>, tests: ProcessKind -> bool, i: nat, j: nat, labIds: seq<Cell>, row: Row,
                         enriched: Result<Row>): Result<seq<MapCall>>
    decreases |kinds|
  {
    if |kinds| == 0 then Success([])
    else
      var here :- if tests(kinds[0]) then
          var e :- enriched;
          Success([MapProcess(kinds[0], i, j, labIds, if GetsEnrichedRow(kinds[0]) then e else row)])
        else Success([]);
      var rest :- MaterialCalls(kinds[1..], tests, i, j, labIds, row, enriched);
      Success(here + rest)
  }

  /** The body of the row loop for a row that is not entirely missing;
      `enriched` is the result of enriching the row. Every matching test
      after the guard enriches the same row the same way, so one result
      serves them all; its error surfaces only when such a test matches. */
  function Dispatch(tests: ProcessKind -> bool, i: nat, j: nat, labIds: seq<Cell>, row: Row, enriched: Result<Row>): Result<seq<MapCall>> {
    DispatchOver(BasicKinds, MaterialKinds, tests, i, j, labIds, row, enriched)
  }

  /** The guard between the two lists of tests. */
  function DispatchOver(basicKinds: seq<ProcessKind>, materialKinds: seq<ProcessKind>, tests: ProcessKind -> bool,
                        i: nat, j: nat, labIds: seq<Cell>, row: Row, enriched: Result<Row>): Result<seq<MapCall>> {
    var basic := BasicCalls(basicKinds, tests, i, j, labIds, row);
    if !HasMaterial(row) then Success(basic)
    else
      var rest :- MaterialCalls(materialKinds, tests, i, j, labIds, row, enriched);
      Success(basic + rest)
  }

  /** Reference definition: a kind fires when its group-name test holds
      and, unless it is one of the first three, the row names a material. */
  predicate Fires(tests: ProcessKind -> bool, row: Row, k: ProcessKind) {
    tests(k) && (NeedsMaterial(k) ==> HasMaterial(row))
  }

  /** The kinds of `kinds` that fire, in order. */
  function FiringKinds(kinds: seq<ProcessKind>, tests: ProcessKind -> bool, row: Row): (r: seq<ProcessKind>)
    ensures forall k :: k in r <==> k in kinds && Fires(tests, row, k)
    decreases |kinds|
  {
    if |kinds| == 0 then []
    else
      assert forall k :: k in kinds <==> k == kinds[0] || k in kinds[1..];
      (if Fires(tests, row, kinds[0]) then [kinds[0]] else []) + FiringKinds(kinds[1..], tests, row)
  }

  lemma {:induction false} FiringKindsAppend(a: seq<ProcessKind>, b: seq<ProcessKind>, tests: ProcessKind -> bool, row: Row)
    ensures FiringKinds(a + b, tests, row) == FiringKinds(a, tests, row) + FiringKinds(b, tests, row)
    decreases |a|
  {
    if |a| > 0 {
      var head := if Fires(tests, row, a[0]) then [a[0]] else [];
      assert (a + b)[0] == a[0];
      assert (a + b)[1..] == a[1..] + b;
      assert FiringKinds(a + b, tests, row) == head + FiringKinds(a[1..] + b, tests, row);
      assert FiringKinds(a, tests, row) == head + FiringKinds(a[1..], tests, row);
      FiringKindsAppend(a[1..], b, tests, row);
    } else {
      assert a + b == b;
    }
  }

  /** The row a kind's builder receives. */
  function RowFor(k: ProcessKind, row: Row, enriched: Result<Row>): Row {
    if GetsEnrichedRow(k) && enriched.Success? then enriched.value else row
  }

  /** One builder call per kind, each with the row that kind receives. */
  function CallsFor(kinds: seq<ProcessKind>, i: nat, j: nat, labIds: seq<Cell>, row: Row, enriched: Result<Row>): (r: seq<MapCall>)
    ensures |r| == |kinds|
  {
    seq(|kinds|, t requires 0 <= t < |kinds| => MapProcess(kinds[t], i, j, labIds, RowFor(kinds[t], row, enriched)))
  }

  lemma CallsForAppend(a: seq<ProcessKind>, b: seq<ProcessKind>, i: nat, j: nat, labIds: seq<Cell>, row: Row, enriched: Result<Row>)
    ensures CallsFor(a + b, i, j, labIds, row, enriched) == CallsFor(a, i, j, labIds, row, enriched) + CallsFor(b, i, j, labIds, row, enriched)
  {
  }

  lemma {:induction false} BasicCallsAreReference(kinds: seq<ProcessKind>, tests: ProcessKind -> bool, i: nat, j: nat, labIds: seq<Cell>, row: Row, enriched: Result<Row>)
    requires forall k | k in kinds :: !NeedsMaterial(k)
    ensures BasicCalls(kinds, tests, i, j, labIds, row) == CallsFor(FiringKinds(kinds, tests, row), i, j, labIds, row, enriched)
    decreases |kinds|
  {
    if |kinds| > 0 {
      var k := kinds[0];
      assert k in kinds;
      var fired := if Fires(tests, row, k) then [k] else [];
      var made := if tests(k) then [MapProcess(k, i, j, labIds, row)] else [];
      assert FiringKinds(kinds, tests, row) == fired + FiringKinds(kinds[1..], tests, row);
      assert BasicCalls(kinds, tests, i, j, labIds, row) == made + BasicCalls(kinds[1..], tests, i, j, labIds, row);
      assert forall k' | k' in kinds[1..] :: k' in kinds;
      BasicCallsAreReference(kinds[1..], tests, i, j, labIds, row, enriched);
      CallsForAppend(fired, FiringKinds(kinds[1..], tests, row), i, j, labIds, row, enriched);
      assert RowFor(k, row, enriched) == row;
      assert made == CallsFor(fired, i, j, labIds, row, enriched);
    }
  }

  /** One step of the tests after the guard. */
  lemma MaterialCallsStep(kinds: seq<ProcessKind>, tests: ProcessKind -> bool, i: nat, j: nat, labIds: seq<Cell>, row: Row, enriched: Result<Row>)
    requires |kinds| > 0
    ensures var r, rest := MaterialCalls(kinds, tests, i, j, labIds, row, enriched), MaterialCalls(kinds[1..], tests, i, j, labIds, row, enriched);
      && (!tests(kinds[0]) ==> r == rest)
      && (tests(kinds[0]) && enriched.Failure? ==> r.Failure?)
      && (tests(kinds[0]) && enriched.Success? ==>
            r == if rest.Success? then Success(CallsFor([kinds[0]], i, j, labIds, row, enriched) + rest.value) else rest)
  {
    var k := kinds[0];
    var rest := MaterialCalls(kinds[1..], tests, i, j, labIds, row, enriched);
    if rest.Success? {
      assert [] + rest.value == rest.value;
    }
    if enriched.Success? {
      var call := MapProcess(k, i, j, labIds, if GetsEnrichedRow(k) then enriched.value else row);
      assert CallsFor([k], i, j, labIds, row, enriched)[0] == call;
      assert CallsFor([k], i, j, labIds, row, enriched) == [call];
    }
  }

  lemma FiringKindsCons(kinds: seq<ProcessKind>, tests: ProcessKind -> bool, row: Row)
    requires |kinds| > 0
    ensures FiringKinds(kinds, tests, row) ==
      (if Fires(tests, row, kinds[0]) then [kinds[0]] else []) + FiringKinds(kinds[1..], tests, row)
  {
  }

  lemma {:induction false} MaterialCallsAreReference(kinds: seq<ProcessKind>, tests: ProcessKind -> bool, i: nat, j: nat, labIds: seq<Cell>, row: Row, enriched: Result<Row>)
    requires forall k | k in kinds :: NeedsMaterial(k)
    requires HasMaterial(row)
    ensures MaterialCalls(kinds, tests, i, j, labIds, row, enriched).Failure? <==>
      |FiringKinds(kinds, tests, row)| > 0 && enriched.Failure?
    ensures MaterialCalls(kinds, tests, i, j, labIds, row, enriched).Success? ==>
      MaterialCalls(kinds, tests, i, j, labIds, row, enriched).value == CallsFor(FiringKinds(kinds, tests, row), i, j, labIds, row, enriched)
    decreases |kinds|
  {
    if |kinds| > 0 {
      var k := kinds[0];
      assert k in kinds;
      var fired := if Fires(tests, row, k) then [k] else [];
      var later := FiringKinds(kinds[1..], tests, row);
      FiringKindsCons(kinds, tests, row);
      assert forall k' | k' in kinds[1..] :: k' in kinds;
      MaterialCallsAreReference(kinds[1..], tests, i, j, labIds, row, enriched);
      MaterialCallsStep(kinds, tests, i, j, labIds, row, enriched);
      if tests(k) {
        assert fired == [k];
        if enriched.Success? {
          CallsForAppend(fired, later, i, j, labIds, row, enriched);
        }
      } else {
        assert fired == [] && fired + later == later;
      }
    }
  }

  /** Without a material name none of the later kinds fires. */
  lemma {:induction false} NoMaterialNoLaterKinds(kinds: seq<ProcessKind>, tests: ProcessKind -> bool, row: Row)
    requires forall k | k in kinds :: NeedsMaterial(k)
    requires !HasMaterial(row)
    ensures FiringKinds(kinds, tests, row) == []
  {
    if |FiringKinds(kinds, tests, row)| > 0 {
      assert FiringKinds(kinds, tests, row)[0] in FiringKinds(kinds, tests, row);
    }
  }

  lemma DispatchOverIsReference(bk: seq<ProcessKind>, mk: seq<ProcessKind>, tests: ProcessKind -> bool,
                                i: nat, j: nat, labIds: seq<Cell>, row: Row, enriched: Result<Row>)
    requires forall k | k in bk :: !NeedsMaterial(k)
    requires forall k | k in mk :: NeedsMaterial(k)
    ensures DispatchOver(bk, mk, tests, i, j, labIds, row, enriched).Failure? ==>
      (exists k | k in FiringKinds(bk + mk, tests, row) :: NeedsMaterial(k)) && enriched.Failure?
    ensures (exists k | k in FiringKinds(bk + mk, tests, row) :: NeedsMaterial(k)) && enriched.Failure? ==>
      DispatchOver(bk, mk, tests, i, j, labIds, row, enriched).Failure?
    ensures DispatchOver(bk, mk, tests, i, j, labIds, row, enriched).Success? ==>
      DispatchOver(bk, mk, tests, i, j, labIds, row, enriched).value == CallsFor(FiringKinds(bk + mk, tests, row), i, j, labIds, row, enriched)
  {
    var all := FiringKinds(bk + mk, tests, row);
    var basic := FiringKinds(bk, tests, row);
    var later := FiringKinds(mk, tests, row);
    FiringKindsAppend(bk, mk, tests, row);
    var b := BasicCalls(bk, tests, i, j, labIds, row);
    BasicCallsAreReference(bk, tests, i, j, labIds, row, enriched);
    var d := DispatchOver(bk, mk, tests, i, j, labIds, row, enriched);
    if HasMaterial(row) {
      var m := MaterialCalls(mk, tests, i, j, labIds, row, enriched);
      assert d == if m.Failure? then Failure(m.reason) else Success(b + m.value);
      MaterialCallsAreReference(mk, tests, i, j, labIds, row, enriched);
      CallsForAppend(basic, later, i, j, labIds, row, enriched);
      if |later| > 0 {
        assert later[0] in all && NeedsMaterial(later[0]);
      }
      if exists k | k in all :: NeedsMaterial(k) {
        var k :| k in all && NeedsMaterial(k);
        assert k in later;
      }
    } else {
      assert d == Success(b);
      NoMaterialNoLaterKinds(mk, tests, row);
      assert all == basic;
    }
  }

  /** The dispatch agrees with the reference: one call per firing kind, in
      the order the kinds are checked, each with the row that kind receives;
      it fails only when a kind after the material guard fires and the
      enrichment fails. */
  lemma DispatchIsReference(tests: ProcessKind -> bool, i: nat, j: nat, labIds: seq<Cell>, row: Row, enriched: Result<Row>)
    ensures Dispatch(tests, i, j, labIds, row, enriched).Failure? ==>
      (exists k | k in FiringKinds(AllKinds, tests, row) :: NeedsMaterial(k)) && enriched.Failure?
    ensures (exists k | k in FiringKinds(AllKinds, tests, row) :: NeedsMaterial(k)) && enriched.Failure? ==>
      Dispatch(tests, i, j, labIds, row, enriched).Failure?
    ensures Dispatch(tests, i, j, labIds, row, enriched).Success? ==>
      Dispatch(tests, i, j, labIds, row, enriched).value == CallsFor(FiringKinds(AllKinds, tests, row), i, j, labIds, row, enriched)
  {
    KindLists();
    DispatchOverIsReference(BasicKinds, MaterialKinds, tests, i, j, labIds, row, enriched);
  }

  // ---------------------------------------------------------------------------
  // The column-group router

  /** The lines from `x` on whose row equals `row`, in table order. */
  function MatchingLines(rows: seq<Row>, row: Row, x: nat): (r: seq<nat>)
    requires x <= |rows|
    ensures forall y | y in r :: x <= y < |rows| && rows[y] == row
    ensures forall y | x <= y < |rows| && rows[y] == row :: y in r
    ensures forall s, t | 0 <= s < t < |r| :: r[s] < r[t]
    decreases |rows| - x
  {
    if x == |rows| then []
    else
      var rest := MatchingLines(rows, row, x + 1);
      assert forall t | 0 <= t < |rest| :: rest[t] in rest;
      (if rows[x] == row then [x] else []) + rest
  }

  /** `lab_ids`: the identifier cells (missing ones included) of every line
      whose group row equals `row` (`Series.equals`, so missing equals
      missing), in table order. */
  function LabIds(idCells: seq<Cell>, rows: seq<Row>, row: Row): (r: seq<Cell>)
    requires |idCells| == |rows|
    ensures |r| == |MatchingLines(rows, row, 0)|
    ensures forall t | 0 <= t < |r| :: MatchingLines(rows, row, 0)[t] < |rows| && r[t] == idCells[MatchingLines(rows, row, 0)[t]]
  {
    var ys := MatchingLines(rows, row, 0);
    assert forall t | 0 <= t < |ys| :: ys[t] in ys;
    seq(|ys|, t requires 0 <= t < |ys| => idCells[ys[t]])
  }

  /** `df[g]` line by line. */
  function GroupRows(plan: Plan, g: string): (rows: seq<Row>)
    ensures |rows| == |plan.lines|
    ensures forall x | 0 <= x < |plan.lines| :: rows[x] == GroupRow(plan, g, x)
  {
    seq(|plan.lines|, x requires 0 <= x < |plan.lines| => GroupRow(plan, g, x))
  }

  /** The row loop of one group over its deduplicated rows (line index and
      row): empty rows are skipped, every other row is dispatched with its
      lab ids and its enrichment. */
  function RouteRows(tests: ProcessKind -> bool, i: nat, kept: seq<(nat, Row)>, idCells: seq<Cell>, rows: seq<Row>,
                     catalogue: Option<Sheet>): Result<seq<MapCall>>
    requires |idCells| == |rows|
    decreases |kept|
  {
    if |kept| == 0 then Success([])
    else
      var j := kept[0].0;
      var row := kept[0].1;
      var labIds := LabIds(idCells, rows, row);
      var here :- if AllMissing(row) then Success([])
        else Dispatch(tests, i, j, labIds, row, Enrichment.Enrich(row, catalogue));
      var rest :- RouteRows(tests, i, kept[1..], idCells, rows, catalogue);
      Success(here + rest)
  }

  /** One group: `df[g].drop_duplicates().iterrows()`. */
  function RouteGroup(plan: Plan, catalogue: Option<Sheet>, g: string, i: nat): Result<seq<MapCall>> {
    var rows := GroupRows(plan, g);
    RouteRows(Tests(g), i, Dedup.DropDuplicates(rows), NomadIds(plan), rows, catalogue)
  }

  /** The group loop from position `i` of the distinct group names on;
      'Experiment Info' is skipped but still counted. */
  function RouteGroups(plan: Plan, catalogue: Option<Sheet>, i: nat): Result<seq<MapCall>>
    requires i <= |Groups(plan)|
    decreases |Groups(plan)| - i
  {
    if i == |Groups(plan)| then Success([])
    else
      var here :- GroupCalls(plan, catalogue, i);
      var rest :- RouteGroups(plan, catalogue, i + 1);
      Success(here + rest)
  }

  /** The calls of the group at position `i`; none for 'Experiment Info'. */
  function GroupCalls(plan: Plan, catalogue: Option<Sheet>, i: nat): Result<seq<MapCall>>
    requires i < |Groups(plan)|
  {
    var g := Groups(plan)[i];
    if g == InfoGroup then Success([]) else RouteGroup(plan, catalogue, g, i)
  }

  /** A successful group loop is the group's calls followed by the rest. */
  lemma RouteGroupsStep(plan: Plan, catalogue: Option<Sheet>, i: nat)
    requires i < |Groups(plan)|
    requires RouteGroups(plan, catalogue, i).Success?
    ensures GroupCalls(plan, catalogue, i).Success? && RouteGroups(plan, catalogue, i + 1).Success?
    ensures RouteGroups(plan, catalogue, i).value == GroupCalls(plan, catalogue, i).value + RouteGroups(plan, catalogue, i + 1).value
  {
  }

  /** The router tests every kind. */
  lemma EveryKindIsRouted(k: ProcessKind)
    ensures k in AllKinds
  {
    match k
    case Cleaning => assert AllKinds[0] == k;
    case LaserScribing => assert AllKinds[1] == k;
    case GenericProcess => assert AllKinds[2] == k;
    case Evaporation => assert AllKinds[3] == k;
    case SpinCoating => assert AllKinds[4] == k;
    case SlotDieCoating => assert AllKinds[5] == k;
    case Sputtering => assert AllKinds[6] == k;
    case InkjetPrinting => assert AllKinds[7] == k;
    case AtomicLayerDeposition => assert AllKinds[8] == k;
    case BladeCoating => assert AllKinds[9] == k;
    case GravurePrinting => assert AllKinds[10] == k;
    case ScreenPrinting => assert AllKinds[11] == k;
  }

  lemma DispatchOverComplete(bk: seq<ProcessKind>, mk: seq<ProcessKind>, tests: ProcessKind -> bool,
                             i: nat, j: nat, labIds: seq<Cell>, row: Row, enriched: Result<Row>, k: ProcessKind)
    requires forall k | k in bk :: !NeedsMaterial(k)
    requires forall k | k in mk :: NeedsMaterial(k)
    requires k in bk + mk && Fires(tests, row, k)
    requires DispatchOver(bk, mk, tests, i, j, labIds, row, enriched).Success?
    ensures MapProcess(k, i, j, labIds, RowFor(k, row, enriched)) in DispatchOver(bk, mk, tests, i, j, labIds, row, enriched).value
  {
    DispatchOverIsReference(bk, mk, tests, i, j, labIds, row, enriched);
    var ks := FiringKinds(bk + mk, tests, row);
    var u :| 0 <= u < |ks| && ks[u] == k;
    assert CallsFor(ks, i, j, labIds, row, enriched)[u] == MapProcess(k, i, j, labIds, RowFor(k, row, enriched));
  }

  /** Every firing kind gets its call. */
  lemma DispatchComplete(tests: ProcessKind -> bool, i: nat, j: nat, labIds: seq<Cell>, row: Row, enriched: Result<Row>, k: ProcessKind)
    requires Fires(tests, row, k)
    requires Dispatch(tests, i, j, labIds, row, enriched).Success?
    ensures MapProcess(k, i, j, labIds, RowFor(k, row, enriched)) in Dispatch(tests, i, j, labIds, row, enriched).value
  {
    EveryKindIsRouted(k);
    KindLists();
    DispatchOverComplete(BasicKinds, MaterialKinds, tests, i, j, labIds, row, enriched, k);
  }

  /** Every call of a group's row loop is one firing kind of one kept row
      that is not entirely missing, with that row's lab ids and the row the
      kind receives. */
  lemma {:induction false} RouteRowsSound(tests: ProcessKind -> bool, i: nat, kept: seq<(nat, Row)>, idCells: seq<Cell>, rows: seq<Row>,
                                          catalogue: Option<Sheet>, c: MapCall)
    requires |idCells| == |rows|
    requires RouteRows(tests, i, kept, idCells, rows, catalogue).Success?
    requires c in RouteRows(tests, i, kept, idCells, rows, catalogue).value
    ensures c.MapProcess? && c.groupIndex == i
    ensures exists t | 0 <= t < |kept| ::
      && c.lineIndex == kept[t].0 && !AllMissing(kept[t].1)
      && c.labIds == LabIds(idCells, rows, kept[t].1)
      && Fires(tests, kept[t].1, c.kind)
      && c.row == RowFor(c.kind, kept[t].1, Enrichment.Enrich(kept[t].1, catalogue))
    decreases |kept|
  {
    var row := kept[0].1;
    var labIds := LabIds(idCells, rows, row);
    var enriched := Enrichment.Enrich(row, catalogue);
    var d := Dispatch(tests, i, kept[0].0, labIds, row, enriched);
    var here := if AllMissing(row) then Success([]) else d;
    var rest := RouteRows(tests, i, kept[1..], idCells, rows, catalogue);
    assert here.Success? && rest.Success?;
    assert RouteRows(tests, i, kept, idCells, rows, catalogue).value == here.value + rest.value;
    if c in rest.value {
      RouteRowsSound(tests, i, kept[1..], idCells, rows, catalogue, c);
      var t :| 0 <= t < |kept[1..]| && c.lineIndex == kept[1..][t].0 && !AllMissing(kept[1..][t].1)
        && c.labIds == LabIds(idCells, rows, kept[1..][t].1) && Fires(tests, kept[1..][t].1, c.kind)
        && c.row == RowFor(c.kind, kept[1..][t].1, Enrichment.Enrich(kept[1..][t].1, catalogue));
      assert kept[1..][t] == kept[t + 1];
    } else {
      DispatchIsReference(tests, i, kept[0].0, labIds, row, enriched);
      var ks := FiringKinds(AllKinds, tests, row);
      var u :| 0 <= u < |ks| && c == CallsFor(ks, i, kept[0].0, labIds, row, enriched)[u];
      assert ks[u] in ks;
    }
  }

  /** Every firing kind of every kept row that is not entirely missing gets
      its call. */
  lemma {:induction false} RouteRowsComplete(tests: ProcessKind -> bool, i: nat, kept: seq<(nat, Row)>, idCells: seq<Cell>, rows: seq<Row>,
                                             catalogue: Option<Sheet>, t: nat, k: ProcessKind)
    requires |idCells| == |rows|
    requires RouteRows(tests, i, kept, idCells, rows, catalogue).Success?
    requires t < |kept| && !AllMissing(kept[t].1) && Fires(tests, kept[t].1, k)
    ensures MapProcess(k, i, kept[t].0, LabIds(idCells, rows, kept[t].1), RowFor(k, kept[t].1, Enrichment.Enrich(kept[t].1, catalogue)))
      in RouteRows(tests, i, kept, idCells, rows, catalogue).value
    decreases |kept|
  {
    var row := kept[0].1;
    var labIds := LabIds(idCells, rows, row);
    var enriched := Enrichment.Enrich(row, catalogue);
    var d := Dispatch(tests, i, kept[0].0, labIds, row, enriched);
    var here := if AllMissing(row) then Success([]) else d;
    var rest := RouteRows(tests, i, kept[1..], idCells, rows, catalogue);
    assert here.Success? && rest.Success?;
    assert RouteRows(tests, i, kept, idCells, rows, catalogue).value == here.value + rest.value;
    if t > 0 {
      assert kept[1..][t - 1] == kept[t];
      RouteRowsComplete(tests, i, kept[1..], idCells, rows, catalogue, t - 1, k);
    } else {
      DispatchComplete(tests, i, kept[0].0, labIds, row, enriched, k);
    }
  }

  /** `c` is the call the router makes for the first line `x` of a distinct
      row of group `Groups(plan)[gi]`, kind `c.kind`. */
  predicate ProcessCallOf(plan: Plan, catalogue: Option<Sheet>, c: MapCall) {
    && c.MapProcess?
    && c.groupIndex < |Groups(plan)| && Groups(plan)[c.groupIndex] != InfoGroup
    && c.lineIndex < |plan.lines|
    && var g := Groups(plan)[c.groupIndex];
    && var rows := GroupRows(plan, g);
    && !AllMissing(rows[c.lineIndex])
    && Dedup.FirstOccurrence(rows, c.lineIndex)
    && c.labIds == LabIds(NomadIds(plan), rows, rows[c.lineIndex])
    && Fires(Tests(g), rows[c.lineIndex], c.kind)
    && c.row == RowFor(c.kind, rows[c.lineIndex], Enrichment.Enrich(rows[c.lineIndex], catalogue))
  }

  /** Every call the group loop makes is a process call: of a group other
      than 'Experiment Info', for the first line of a distinct row that is
      not entirely missing, with the lab ids of all lines sharing that row,
      for a kind that fires, with the row that kind receives. */
  lemma {:induction false} RouteGroupsSound(plan: Plan, catalogue: Option<Sheet>, i: nat, c: MapCall)
    requires i <= |Groups(plan)|
    requires RouteGroups(plan, catalogue, i).Success?
    requires c in RouteGroups(plan, catalogue, i).value
    ensures ProcessCallOf(plan, catalogue, c) && i <= c.groupIndex
    decreases |Groups(plan)| - i
  {
    var g := Groups(plan)[i];
    var here := if g == InfoGroup then Success([]) else RouteGroup(plan, catalogue, g, i);
    var rest := RouteGroups(plan, catalogue, i + 1);
    assert here.Success? && rest.Success?;
    assert RouteGroups(plan, catalogue, i).value == here.value + rest.value;
    if c in rest.value {
      RouteGroupsSound(plan, catalogue, i + 1, c);
    } else {
      var rows := GroupRows(plan, g);
      var kept := Dedup.DropDuplicates(rows);
      RouteRowsSound(Tests(g), i, kept, NomadIds(plan), rows, catalogue, c);
      var t :| 0 <= t < |kept| && c.lineIndex == kept[t].0 && !AllMissing(kept[t].1)
        && c.labIds == LabIds(NomadIds(plan), rows, kept[t].1) && Fires(Tests(g), kept[t].1, c.kind)
        && c.row == RowFor(c.kind, kept[t].1, Enrichment.Enrich(kept[t].1, catalogue));
      Dedup.DropDuplicatesKeepsFirst(rows, kept[t].0);
      assert rows[c.lineIndex] == kept[t].1;
    }
  }

  /** The call that the router makes for kind `k` and line `x` of group
      `gi`: it carries the first line with the same row. */
  predicate HasProcessCall(calls: seq<MapCall>, plan: Plan, catalogue: Option<Sheet>, gi: nat, x: nat, k: ProcessKind)
    requires gi < |Groups(plan)| && x < |plan.lines|
  {
    var rows := GroupRows(plan, Groups(plan)[gi]);
    exists f | 0 <= f <= x ::
      && rows[f] == rows[x]
      && MapProcess(k, gi, f, LabIds(NomadIds(plan), rows, rows[x]), RowFor(k, rows[x], Enrichment.Enrich(rows[x], catalogue))) in calls
  }

  lemma HasProcessCallGrows(calls: seq<MapCall>, more: seq<MapCall>, plan: Plan, catalogue: Option<Sheet>, gi: nat, x: nat, k: ProcessKind)
    requires gi < |Groups(plan)| && x < |plan.lines|
    requires HasProcessCall(calls, plan, catalogue, gi, x, k)
    ensures HasProcessCall(more + calls, plan, catalogue, gi, x, k)
  {
    var rows := GroupRows(plan, Groups(plan)[gi]);
    var f :| 0 <= f <= x && rows[f] == rows[x]
      && MapProcess(k, gi, f, LabIds(NomadIds(plan), rows, rows[x]), RowFor(k, rows[x], Enrichment.Enrich(rows[x], catalogue))) in calls;
    assert MapProcess(k, gi, f, LabIds(NomadIds(plan), rows, rows[x]), RowFor(k, rows[x], Enrichment.Enrich(rows[x], catalogue))) in more + calls;
  }

  lemma HasProcessCallGrowsRight(calls: seq<MapCall>, more: seq<MapCall>, plan: Plan, catalogue: Option<Sheet>, gi: nat, x: nat, k: ProcessKind)
    requires gi < |Groups(plan)| && x < |plan.lines|
    requires HasProcessCall(calls, plan, catalogue, gi, x, k)
    ensures HasProcessCall(calls + more, plan, catalogue, gi, x, k)
  {
    var rows := GroupRows(plan, Groups(plan)[gi]);
    var f :| 0 <= f <= x && rows[f] == rows[x]
      && MapProcess(k, gi, f, LabIds(NomadIds(plan), rows, rows[x]), RowFor(k, rows[x], Enrichment.Enrich(rows[x], catalogue))) in calls;
    assert MapProcess(k, gi, f, LabIds(NomadIds(plan), rows, rows[x]), RowFor(k, rows[x], Enrichment.Enrich(rows[x], catalogue))) in calls + more;
  }

  /** Within its own group, a non-empty line gets a call for every kind that
      fires, carried by the first line with the same row. */
  lemma RouteGroupComplete(plan: Plan, catalogue: Option<Sheet>, gi: nat, x: nat, k: ProcessKind)
    requires gi < |Groups(plan)| && x < |plan.lines|
    requires !AllMissing(GroupRows(plan, Groups(plan)[gi])[x])
    requires Fires(Tests(Groups(plan)[gi]), GroupRows(plan, Groups(plan)[gi])[x], k)
    requires RouteGroup(plan, catalogue, Groups(plan)[gi], gi).Success?
    ensures HasProcessCall(RouteGroup(plan, catalogue, Groups(plan)[gi], gi).value, plan, catalogue, gi, x, k)
  {
    var g := Groups(plan)[gi];
    var rows := GroupRows(plan, g);
    var kept := Dedup.DropDuplicates(rows);
    Dedup.DropDuplicatesComplete(rows, x);
    var t :| 0 <= t < |kept| && kept[t].1 == rows[x] && kept[t].0 <= x;
    RouteRowsComplete(Tests(g), gi, kept, NomadIds(plan), rows, catalogue, t, k);
    assert rows[kept[t].0] == rows[x];
  }

  /** Every line of a group other than 'Experiment Info' whose row is not
      entirely missing gets a call for every kind that fires. */
  lemma {:induction false} RouteGroupsComplete(plan: Plan, catalogue: Option<Sheet>, i: nat, gi: nat, x: nat, k: ProcessKind)
    requires i <= gi && LineFires(plan, gi, x, k)
    requires RouteGroups(plan, catalogue, i).Success?
    ensures HasProcessCall(RouteGroups(plan, catalogue, i).value, plan, catalogue, gi, x, k)
    decreases |Groups(plan)| - i
  {
    if gi > i {
      RouteGroupsStep(plan, catalogue, i);
      RouteGroupsComplete(plan, catalogue, i + 1, gi, x, k);
      RouteGroupsCompleteLater(plan, catalogue, i, gi, x, k);
    } else {
      RouteGroupsCompleteHere(plan, catalogue, gi, x, k);
    }
  }

  /** Line `x` of group `gi`, a group other than 'Experiment Info', is not
      entirely missing and kind `k` fires on it. */
  predicate LineFires(plan: Plan, gi: nat, x: nat, k: ProcessKind) {
    && gi < |Groups(plan)| && Groups(plan)[gi] != InfoGroup && x < |plan.lines|
    && !AllMissing(GroupRows(plan, Groups(plan)[gi])[x])
    && Fires(Tests(Groups(plan)[gi]), GroupRows(plan, Groups(plan)[gi])[x], k)
  }

  /** A call the later groups make survives the groups before them. */
  lemma RouteGroupsCompleteLater(plan: Plan, catalogue: Option<Sheet>, i: nat, gi: nat, x: nat, k: ProcessKind)
    requires i < gi < |Groups(plan)| && x < |plan.lines|
    requires RouteGroups(plan, catalogue, i).Success?
    requires GroupCalls(plan, catalogue, i).Success? && RouteGroups(plan, catalogue, i + 1).Success?
    requires RouteGroups(plan, catalogue, i).value == GroupCalls(plan, catalogue, i).value + RouteGroups(plan, catalogue, i + 1).value
    requires HasProcessCall(RouteGroups(plan, catalogue, i + 1).value, plan, catalogue, gi, x, k)
    ensures HasProcessCall(RouteGroups(plan, catalogue, i).value, plan, catalogue, gi, x, k)
  {
    HasProcessCallGrows(RouteGroups(plan, catalogue, i + 1).value, GroupCalls(plan, catalogue, i).value, plan, catalogue, gi, x, k);
  }

  /** The same for a line of the group the loop is at. */
  lemma RouteGroupsCompleteHere(plan: Plan, catalogue: Option<Sheet>, gi: nat, x: nat, k: ProcessKind)
    requires LineFires(plan, gi, x, k)
    requires RouteGroups(plan, catalogue, gi).Success?
    ensures HasProcessCall(RouteGroups(plan, catalogue, gi).value, plan, catalogue, gi, x, k)
  {
    RouteGroupsStep(plan, catalogue, gi);
    RouteGroupComplete(plan, catalogue, gi, x, k);
    HasProcessCallGrowsRight(GroupCalls(plan, catalogue, gi).value, RouteGroups(plan, catalogue, gi + 1).value, plan, catalogue, gi, x, k);
  }

  // ---------------------------------------------------------------------------
  // Assembly

  /** A persisted record: a substrate's fields or a builder call. */
  datatype Record = SubstrateRecord(fields: Row) | BuiltRecord(call: MapCall)

  /** `create_archive(entity, archive, file_name)`. */
  datatype Entry = Entry(fileName: string, record: Record)

  /** `get_reference(upload_id, file_name)`. */
  datatype Reference = Reference(uploadId: string, fileName: string)

  /** The persisted records and the references of the raw entry, in order. */
  datatype Outcome = Outcome(entries: seq<Entry>, references: seq<Reference>)

  /** The builder calls in production order: the batch, the samples, the
      process records. `sample_ids[0].split` raises IndexError on an empty
      list and AttributeError on a number; the first error in this order is
      the one raised. */
  function Combine(ids: Result<seq<Cell>>, samples: Result<seq<MapCall>>, processes: Result<seq<MapCall>>): Result<seq<MapCall>> {
    var ids :- ids;
    if |ids| == 0 then Failure("IndexError: list index out of range")
    else if !ids[0].Str? then Failure("AttributeError: 'float' object has no attribute 'split'")
    else
      var samples :- samples;
      var processes :- processes;
      Success([MapBatch(ids, BatchId(ids[0].text))] + samples + processes)
  }

  /** The samples of the plan. */
  function PlanSamples(plan: Plan): Result<seq<MapCall>> {
    var slices := SubstrateSlices(plan);
    SampleCalls(InfoRows(plan), slices, Substrates(slices), 0)
  }

  function Archives(plan: Plan, catalogue: Option<Sheet>): Result<seq<MapCall>> {
    Combine(SampleIds(plan), PlanSamples(plan), RouteGroups(plan, catalogue, 0))
  }

  /** The final loops: substrates first, then every built record; one
      reference per persisted file. */
  function Assemble(uploadId: string, subs: seq<Substrate>, archives: seq<MapCall>, nameOf: MapCall -> string): (o: Outcome)
    ensures |o.entries| == |o.references| == |subs| + |archives|
    ensures forall t | 0 <= t < |o.references| :: o.references[t] == Reference(uploadId, o.entries[t].fileName)
    ensures forall t | 0 <= t < |subs| :: o.entries[t].record == SubstrateRecord(subs[t].row)
    ensures forall t | 0 <= t < |archives| :: o.entries[|subs| + t].record == BuiltRecord(archives[t])
    ensures forall t | 0 <= t < |subs| :: o.entries[t].fileName == SubstrateName(subs[t]) + ArchiveSuffix
    ensures forall t | 0 <= t < |archives| :: o.entries[|subs| + t].fileName == nameOf(archives[t]) + ArchiveSuffix
  {
    var first := seq(|subs|, t requires 0 <= t < |subs| =>
      Entry(SubstrateName(subs[t]) + ArchiveSuffix, SubstrateRecord(subs[t].row)));
    var built := seq(|archives|, t requires 0 <= t < |archives| =>
      Entry(nameOf(archives[t]) + ArchiveSuffix, BuiltRecord(archives[t])));
    var entries := first + built;
    Outcome(entries, seq(|entries|, t requires 0 <= t < |entries| => Reference(uploadId, entries[t].fileName)))
  }

  /** `parse`: all records are built before the first one is persisted, so a
      failure persists nothing. */
  function ParseBatch(plan: Plan, catalogue: Option<Sheet>, uploadId: string, nameOf: MapCall -> string): (r: Result<Outcome>)
    ensures r.Success? ==> |r.value.references| == |r.value.entries|
    ensures r.Success? ==> forall t | 0 <= t < |r.value.references| :: r.value.references[t].uploadId == uploadId
  {
    var archives :- Archives(plan, catalogue);
    Success(Assemble(uploadId, Substrates(SubstrateSlices(plan)), archives, nameOf))
  }

  /** The layout of an assembled outcome: substrates, the batch, the samples,
      the process records, one reference per entry. */
  predicate Layout(o: Outcome, subs: seq<Substrate>, ids: seq<Cell>, samples: seq<MapCall>, processes: seq<MapCall>)
    requires |ids| > 0 && ids[0].Str?
  {
    Placed(o, subs, MapBatch(ids, BatchId(ids[0].text)), samples, processes)
  }

  /** `o` persists the substrates, then `batch`, then the samples, then the
      process records. */
  predicate Placed(o: Outcome, subs: seq<Substrate>, batch: MapCall, samples: seq<MapCall>, processes: seq<MapCall>) {
    && |o.entries| == |o.references| == |subs| + 1 + |samples| + |processes|
    && (forall t | 0 <= t < |subs| :: o.entries[t].record == SubstrateRecord(subs[t].row))
    && RecordsAt(o, |subs|, [batch])
    && RecordsAt(o, |subs| + 1, samples)
    && RecordsAt(o, |subs| + 1 + |samples|, processes)
  }

  /** From entry `start` on, `o` persists the records of `calls`, in order. */
  predicate RecordsAt(o: Outcome, start: nat, calls: seq<MapCall>) {
    && start + |calls| <= |o.entries|
    && forall t | 0 <= t < |calls| :: o.entries[start + t].record == BuiltRecord(calls[t])
  }

  /** A run of consecutive builder calls is persisted as a run of entries
      after the substrates. */
  lemma AssembleRecordsAt(uploadId: string, subs: seq<Substrate>, archives: seq<MapCall>, nameOf: MapCall -> string,
                          k: nat, calls: seq<MapCall>)
    requires k + |calls| <= |archives| && archives[k..k + |calls|] == calls
    ensures RecordsAt(Assemble(uploadId, subs, archives, nameOf), |subs| + k, calls)
  {
    var o := Assemble(uploadId, subs, archives, nameOf);
    forall t | 0 <= t < |calls|
      ensures o.entries[|subs| + k + t].record == BuiltRecord(calls[t])
    {
      assert archives[k + t] == calls[t];
    }
  }

  /** A successful combination is the batch, the samples and the process
      records, in that order. */
  lemma CombineValue(ids: Result<seq<Cell>>, samples: Result<seq<MapCall>>, processes: Result<seq<MapCall>>)
    requires Combine(ids, samples, processes).Success?
    ensures ids.Success? && |ids.value| > 0 && ids.value[0].Str? && samples.Success? && processes.Success?
    ensures Combine(ids, samples, processes).value ==
      [MapBatch(ids.value, BatchId(ids.value[0].text))] + samples.value + processes.value
  {
  }

  lemma AssemblePlaced(uploadId: string, subs: seq<Substrate>, batch: MapCall, samples: seq<MapCall>,
                       processes: seq<MapCall>, nameOf: MapCall -> string)
    ensures Placed(Assemble(uploadId, subs, [batch] + samples + processes, nameOf), subs, batch, samples, processes)
  {
    var archives := [batch] + samples + processes;
    assert archives[0..1] == [batch];
    assert archives[1..1 + |samples|] == samples;
    assert archives[1 + |samples|..1 + |samples| + |processes|] == processes;
    AssembleRecordsAt(uploadId, subs, archives, nameOf, 0, [batch]);
    AssembleRecordsAt(uploadId, subs, archives, nameOf, 1, samples);
    AssembleRecordsAt(uploadId, subs, archives, nameOf, 1 + |samples|, processes);
  }

  lemma {:induction false} CombineLayout(ids: Result<seq<Cell>>, samples: Result<seq<MapCall>>, processes: Result<seq<MapCall>>,
                      uploadId: string, subs: seq<Substrate>, nameOf: MapCall -> string)
    requires Combine(ids, samples, processes).Success?
    ensures ids.Success? && |ids.value| > 0 && ids.value[0].Str? && samples.Success? && processes.Success?
    ensures Layout(Assemble(uploadId, subs, Combine(ids, samples, processes).value, nameOf), subs, ids.value, samples.value, processes.value)
  {
    CombineValue(ids, samples, processes);
    AssemblePlaced(uploadId, subs, MapBatch(ids.value, BatchId(ids.value[0].text)), samples.value, processes.value, nameOf);
  }

  /** The reference list holds the substrates, then the batch, then one
      sample per line of 'Experiment Info' that is not entirely missing,
      then the process records, in production order. */
  lemma ParseBatchLayout(plan: Plan, catalogue: Option<Sheet>, uploadId: string, nameOf: MapCall -> string)
    requires ParseBatch(plan, catalogue, uploadId, nameOf).Success?
    ensures SampleIds(plan).Success? && |SampleIds(plan).value| > 0 && SampleIds(plan).value[0].Str?
    ensures PlanSamples(plan).Success? && RouteGroups(plan, catalogue, 0).Success?
    ensures |PlanSamples(plan).value| == NonEmptyRows(InfoRows(plan), 0)
    ensures Layout(ParseBatch(plan, catalogue, uploadId, nameOf).value, Substrates(SubstrateSlices(plan)),
                   SampleIds(plan).value, PlanSamples(plan).value, RouteGroups(plan, catalogue, 0).value)
  {
    var slices := SubstrateSlices(plan);
    var subs := Substrates(slices);
    var ids, samples, processes := SampleIds(plan), PlanSamples(plan), RouteGroups(plan, catalogue, 0);
    var archives := Archives(plan, catalogue);
    assert archives == Combine(ids, samples, processes);
    assert ParseBatch(plan, catalogue, uploadId, nameOf) == Success(Assemble(uploadId, subs, archives.value, nameOf));
    CombineLayout(ids, samples, processes, uploadId, subs, nameOf);
    SampleCallsOutcome(InfoRows(plan), slices, subs, 0);
  }

  /** The record right after the substrates is the batch, named after the
      first present 'Nomad ID' in table order. */
  lemma ParseBatchBatchRecord(plan: Plan, catalogue: Option<Sheet>, uploadId: string, nameOf: MapCall -> string, x: nat)
    requires ParseBatch(plan, catalogue, uploadId, nameOf).Success?
    requires FirstNomadIdAt(plan, x)
    ensures x < |plan.lines| && NomadIdAt(plan, x).Str? && SampleIds(plan).Success?
    ensures var o := ParseBatch(plan, catalogue, uploadId, nameOf).value;
      var n := |Substrates(SubstrateSlices(plan))|;
      n < |o.entries| &&
      o.entries[n].record == BuiltRecord(MapBatch(SampleIds(plan).value, BatchId(NomadIdAt(plan, x).text)))
  {
    ParseBatchLayout(plan, catalogue, uploadId, nameOf);
    var ids := SampleIds(plan).value;
    var first :| 0 <= first < |plan.lines| && FirstNomadIdAt(plan, first) && ids[0] == NomadIdAt(plan, first);
    FirstPresentUnique(NomadIds(plan), x, first);
  }

  /** At most one position holds the first present cell. */
  lemma FirstPresentUnique(cells: seq<Cell>, x: nat, x': nat)
    requires FirstPresentAt(cells, x) && FirstPresentAt(cells, x')
    ensures x == x'
  {
  }

  /** Every line of 'Experiment Info' that is not entirely missing has its
      sample in the sample list that `ParseBatchLayout` persists right after
      the batch, at the position the non-empty lines before it give: one
      sample per such line, in table order. */
  lemma ParseBatchSamplesInPlace(plan: Plan, catalogue: Option<Sheet>, uploadId: string, nameOf: MapCall -> string, y: nat)
    requires ParseBatch(plan, catalogue, uploadId, nameOf).Success?
    requires y < |plan.lines| && !AllMissing(InfoRows(plan)[y])
    ensures SampleInPlace(InfoRows(plan), SubstrateSlices(plan), Substrates(SubstrateSlices(plan)), 0, y)
  {
    ParseBatchLayout(plan, catalogue, uploadId, nameOf);
    SampleCallsComplete(InfoRows(plan), SubstrateSlices(plan), Substrates(SubstrateSlices(plan)), 0, y);
  }

  /** Every persisted sample names the file of a persisted substrate record:
      the one holding the substrate fields of the sample's own line. */
  lemma ParseBatchSampleFiles(plan: Plan, catalogue: Option<Sheet>, uploadId: string, nameOf: MapCall -> string, c: MapCall)
    requires ParseBatch(plan, catalogue, uploadId, nameOf).Success?
    requires PlanSamples(plan).Success? && c in PlanSamples(plan).value
    ensures var o := ParseBatch(plan, catalogue, uploadId, nameOf).value;
      var subs := Substrates(SubstrateSlices(plan));
      exists y, t | 0 <= y < |plan.lines| && 0 <= t < |subs| ::
        && c == MapSample(InfoRows(plan)[y], o.entries[t].fileName)
        && o.entries[t].record == SubstrateRecord(SubstrateSlices(plan)[y])
  {
    var infos, slices := InfoRows(plan), SubstrateSlices(plan);
    var subs := Substrates(slices);
    var o := ParseBatch(plan, catalogue, uploadId, nameOf).value;
    assert o == Assemble(uploadId, subs, Archives(plan, catalogue).value, nameOf);
    SampleCallsSound(infos, slices, subs, 0, c);
    var y :| 0 <= y < |infos| && SampleOf(infos, slices, subs, y, c);
    var t :| 0 <= t < |subs| && subs[t].row == slices[y] && FindSubstrate(subs, slices[y]).value == SubstrateName(subs[t]);
    assert o.entries[t].fileName == SubstrateName(subs[t]) + ArchiveSuffix;
  }

  /** Every record after the samples is a process record as the router
      defines it. */
  lemma ParseBatchProcessRecords(plan: Plan, catalogue: Option<Sheet>, uploadId: string, nameOf: MapCall -> string, c: MapCall)
    requires RouteGroups(plan, catalogue, 0).Success?
    requires c in RouteGroups(plan, catalogue, 0).value
    ensures ProcessCallOf(plan, catalogue, c)
  {
    RouteGroupsSound(plan, catalogue, 0, c);
  }

  /** A plan without a 'Nomad ID' column in 'Experiment Info' fails. */
  lemma ParseBatchNeedsNomadIdColumn(plan: Plan, catalogue: Option<Sheet>, uploadId: string, nameOf: MapCall -> string)
    requires (InfoGroup, NomadIdField) !in plan.columns
    ensures ParseBatch(plan, catalogue, uploadId, nameOf).Failure?
  {
  }

  /** A line of 'Experiment Info' that is not entirely missing but has
      entirely missing substrate fields makes the parse fail. */
  lemma ParseBatchNeedsSubstrate(plan: Plan, catalogue: Option<Sheet>, uploadId: string, nameOf: MapCall -> string, y: nat)
    requires y < |plan.lines|
    requires !AllMissing(InfoRows(plan)[y]) && AllMissing(SubstrateSlices(plan)[y])
    ensures ParseBatch(plan, catalogue, uploadId, nameOf).Failure?
  {
    var slices := SubstrateSlices(plan);
    SamplesFailOnlyWithoutSubstrate(InfoRows(plan), slices);
    assert PlanSamples(plan).Failure?;
    CombineFailsWithSamples(SampleIds(plan), PlanSamples(plan), RouteGroups(plan, catalogue, 0));
    assert Archives(plan, catalogue).Failure?;
  }

  lemma CombineFailsWithSamples(ids: Result<seq<Cell>>, samples: Result<seq<MapCall>>, processes: Result<seq<MapCall>>)
    requires samples.Failure?
    ensures Combine(ids, samples, processes).Failure?
  {
  }
}
