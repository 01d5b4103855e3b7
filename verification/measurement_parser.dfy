/** The measurement-file parser (`TFSCGeneralParser.parse`) and the merge of
    a re-uploaded file into an existing generic measurement
    (`update_general_process_entries`).

    Entries are modelled as dictionaries from quantity names to their JSON
    text. The search index, the archive reader, `create_archive` and
    `get_entry_id_from_file_name` are collaborators: their answers enter as
    parameters. */
module MeasurementParser {
  import opened Wrappers
  import Text

  type Dict = map<string, string>

  /** The entry class chosen for a file. */
  datatype Kind = GenericMeasurement | JvMeasurement | EqeMeasurement | MppTracking

  const GenericClass := "TFSC_General_Measurement"
  const DefinitionKey := "m_def"
  const NameKey := "name"
  const DataFileKey := "data_file"
  const ArchiveSuffix := ".archive.json"

  function ClassName(k: Kind): string {
    match k
    case GenericMeasurement => GenericClass
    case JvMeasurement => "TFSC_General_JVmeasurement"
    case EqeMeasurement => "TFSC_General_EQEmeasurement"
    case MppTracking => "TFSC_General_SimpleMPPTracking"
  }

  /** `os.path.basename`: everything after the last '/'. */
  function Basename(path: string): (r: string)
    ensures '/' !in r
    ensures r == path || exists dir :: path == dir + "/" + r
  {
    var p := Text.Split(path, '/');
    var r := p[|p| - 1];
    Text.SplitPiecesClean(path, '/');
    if |p| == 1 then
      Text.JoinSplit(path, '/');
      r
    else
      Text.JoinSplit(path, '/');
      Text.JoinSnoc(p[..|p| - 1], "/", r);
      assert p == p[..|p| - 1] + [r];
      assert path == Text.Join(p[..|p| - 1], "/") + "/" + r;
      r
  }

  // ---------------------------------------------------------------------
  // Kind selection

  /** The four independent tests on the lower-case basename run in source
      order and a later match overrides an earlier one, so 'mpp' beats
      'eqe', which beats 'iv' and 'txt'; a name with none of them is a
      generic measurement. */
  function KindOf(basename: string): (r: Kind)
    ensures var low := Text.Lower(basename);
      && (r == MppTracking <==> Text.Contains(low, "mpp"))
      && (r == EqeMeasurement <==> !Text.Contains(low, "mpp") && Text.Contains(low, "eqe"))
      && (r == JvMeasurement <==>
            !Text.Contains(low, "mpp") && !Text.Contains(low, "eqe")
            && (Text.Contains(low, "iv") || Text.Contains(low, "txt")))
      && (r == GenericMeasurement <==>
            !Text.Contains(low, "mpp") && !Text.Contains(low, "eqe")
            && !Text.Contains(low, "iv") && !Text.Contains(low, "txt"))
  {
    var low := Text.Lower(basename);
    var k := GenericMeasurement;
    var k := if Text.Contains(low, "iv") || Text.Contains(low, "txt") then JvMeasurement else k;
    var k := if Text.Contains(low, "eqe") then EqeMeasurement else k;
    if Text.Contains(low, "mpp") then MppTracking else k
  }

  /** A pattern whose first letter does not occur is not contained. */
  lemma AbsentFirstChar(s: string, pat: string)
    requires |pat| > 0 && pat[0] !in s
    ensures !Text.Contains(s, pat)
  {
    forall k | 0 <= k <= |s| ensures !Text.OccursAt(s, pat, k) {
      if k + |pat| <= |s| {
        assert s[k..k + |pat|][0] == s[k];
      }
    }
  }

  /** Upper-case markers count too. */
  lemma KindExampleJv()
    ensures KindOf("S1_IV.dat") == JvMeasurement
  {
    var low := Text.Lower("S1_IV.dat");
    assert low == "s1_iv.dat";
    assert Text.OccursAt(low, "iv", 3);
    AbsentFirstChar(low, "mpp");
    AbsentFirstChar(low, "eqe");
  }

  /** A name holding both 'IV' and 'MPP' is an MPP tracking. */
  lemma KindExampleMpp()
    ensures KindOf("S1_IV_MPP.dat") == MppTracking
  {
    var low := Text.Lower("S1_IV_MPP.dat");
    assert low == "s1_iv_mpp.dat";
    assert Text.OccursAt(low, "mpp", 6);
  }

  lemma KindExampleEqe()
    ensures KindOf("S1.EQE") == EqeMeasurement
  {
    var low := Text.Lower("S1.EQE");
    assert low == "s1.eqe";
    assert Text.OccursAt(low, "eqe", 3);
    AbsentFirstChar(low, "mpp");
  }

  lemma KindExampleGeneric()
    ensures KindOf("S1.csv") == GenericMeasurement
  {
    var low := Text.Lower("S1.csv");
    assert low == "s1.csv";
    AbsentFirstChar(low, "mpp");
    AbsentFirstChar(low, "eqe");
    AbsentFirstChar(low, "iv");
    AbsentFirstChar(low, "txt");
  }

  // ---------------------------------------------------------------------
  // Naming

  /** `mainfile_split[1:-1]`: the dot-separated pieces between the first and
      the last. */
  function Middle(pieces: seq<string>): seq<string> {
    if |pieces| >= 2 then pieces[1..|pieces| - 1] else []
  }

  /** `search_id = mainfile_split[0]`: the basename up to its first '.'. */
  function SearchId(basename: string): (r: string)
    ensures '.' !in r
    ensures |r| <= |basename| && basename[..|r|] == r
    ensures |r| == |basename| || basename[|r|] == '.'
  {
    FirstPiecePrefix(basename, '.');
    Text.FirstPieceStops(basename, '.');
    Text.Split(basename, '.')[0]
  }

  lemma FirstPiecePrefix(s: string, c: char)
    ensures var head := Text.Split(s, c)[0];
      c !in head && |head| <= |s| && s[..|head|] == head
  {
    var p := Text.Split(s, c);
    Text.SplitPiecesClean(s, c);
    Text.JoinSplit(s, c);
    if |p| > 1 {
      assert Text.Join(p, [c]) == p[0] + [c] + Text.Join(p[1..], [c]);
    }
  }

  /** `f'{search_id} {".".join(mainfile_split[1:-1])}'`. */
  function EntryName(basename: string): string {
    SearchId(basename) + " " + Text.Join(Middle(Text.Split(basename, '.')), ".")
  }

  /** The name keeps everything of a dotted basename except the extension:
      the search id, a blank in place of the first dot, and the middle
      pieces with their dots. */
  lemma EntryNameReassembles(basename: string)
    requires |Text.Split(basename, '.')| >= 3
    ensures var p := Text.Split(basename, '.'); var mid := Text.Join(Middle(p), ".");
      && EntryName(basename) == SearchId(basename) + " " + mid
      && basename == SearchId(basename) + "." + mid + "." + p[|p| - 1]
  {
    var p := Text.Split(basename, '.');
    var m := p[1..|p| - 1];
    Text.JoinSplit(basename, '.');
    assert p[1..] == m + [p[|p| - 1]];
    Text.JoinSnoc(m, ".", p[|p| - 1]);
    assert Text.Join(p, ".") == p[0] + "." + Text.Join(p[1..], ".");
  }

  /** A basename without dots gives a name with a trailing blank, and one
      with a single dot drops its extension entirely. */
  lemma EntryNameShortCases(stem: string, ext: string)
    requires '.' !in stem && '.' !in ext
    ensures EntryName(stem) == stem + " "
    ensures EntryName(stem + "." + ext) == stem + " "
  {
    Text.SplitClean(stem, '.');
    Text.SplitClean(ext, '.');
    Text.SplitHead(stem, '.', ext);
    assert stem + "." + ext == stem + ['.'] + ext;
  }

  // ---------------------------------------------------------------------
  // Merge

  /** One search hit: its 'entry_type' (possibly absent), upload and entry. */
  datatype Hit = Hit(entryType: Option<string>, uploadId: string, entryId: string)

  /** `new_entry_dict.update(entry_data)` after `entry_data.pop('m_def')`. */
  function Overlay(newEntry: Dict, stored: Dict): (r: Dict)
    ensures r.Keys == newEntry.Keys + (stored.Keys - {DefinitionKey})
    ensures forall k | k in r ::
      r[k] == (if k in stored && k != DefinitionKey then stored[k] else newEntry[k])
  {
    newEntry + (stored - {DefinitionKey})
  }

  /** `update_general_process_entries`: only when the search returns exactly
      one hit whose type is the generic measurement is a merged entry built,
      of the same class as the new one; a failed read keeps the new entry's
      fields as they are. `read` stands for opening the stored archive
      (None when it raises). */
  function UpdateGeneralProcessEntries(kind: Kind, newEntry: Dict, hits: seq<Hit>,
                                       read: (string, string) -> Option<Dict>): (r: Option<(Kind, Dict)>)
    ensures r.Some? <==> |hits| == 1 && hits[0].entryType == Some(GenericClass)
    ensures r.Some? ==> r.value.0 == kind
    ensures r.Some? && read(hits[0].uploadId, hits[0].entryId).None? ==> r.value.1 == newEntry
  {
    var entryType := if |hits| == 1 then hits[0].entryType else None;
    if entryType != Some(GenericClass) then None
    else
      match read(hits[0].uploadId, hits[0].entryId)
      case None => Some((kind, newEntry))
      case Some(stored) => Some((kind, Overlay(newEntry, stored)))
  }

  /** After a successful read, stored fields other than 'm_def' win, fields
      only the new entry has are kept, and the new entry's class survives. */
  lemma MergeKeepsStoredFields(kind: Kind, newEntry: Dict, hit: Hit, read: (string, string) -> Option<Dict>, k: string)
    requires hit.entryType == Some(GenericClass)
    requires read(hit.uploadId, hit.entryId).Some?
    ensures var stored := read(hit.uploadId, hit.entryId).value;
      var merged := UpdateGeneralProcessEntries(kind, newEntry, [hit], read).value.1;
      && (k in stored && k != DefinitionKey ==> k in merged && merged[k] == stored[k])
      && (k in newEntry && (k !in stored || k == DefinitionKey) ==> k in merged && merged[k] == newEntry[k])
      && (k !in newEntry && (k !in stored || k == DefinitionKey) ==> k !in merged)
  {
  }

  // ---------------------------------------------------------------------
  // Parse

  /** A call of `create_archive(entry, archive, file_name, overwrite)`. */
  datatype Write = Write(fileName: string, entry: Dict, overwrite: bool)

  /** What `parse` produces: the entry name of the raw-file archive, the
      sample search id, the raw file's reference to the processed archive,
      and the archive writes. */
  datatype Outcome = Outcome(entryName: string, searchId: string, processedArchive: (string, string), writes: seq<Write>)

  /** The fields of a new measurement entry. */
  function NewEntry(kind: Kind, name: string, dataFile: string): Dict {
    map[DefinitionKey := ClassName(kind), NameKey := name, DataFileKey := dataFile]
  }

  /** `parse(mainfile, archive, logger)`. `entryIdOf` is
      `get_entry_id_from_file_name`; `created` is the answer of the first
      `create_archive`; `hits` the search result and `read` the archive
      reader of the merge.

      The raw file's entry is named after the basename. The new entry is
      written once, without overwrite, to the basename plus '.archive.json';
      it carries the chosen class, the name and the basename as data file.
      A second, overwriting write to the same file follows exactly when no
      new entry was created and the search found one generic measurement. */
  function Parse(mainfile: string, uploadId: string, entryIdOf: string -> string, created: bool,
                 hits: seq<Hit>, read: (string, string) -> Option<Dict>): (o: Outcome)
    ensures var base := Basename(mainfile);
      && o.entryName == base
      && 1 <= |o.writes| <= 2
      && (|o.writes| == 2 <==> !created && |hits| == 1 && hits[0].entryType == Some(GenericClass))
      && o.writes[0] == Write(base + ArchiveSuffix, NewEntry(KindOf(base), EntryName(base), base), false)
      && (|o.writes| == 2 ==> o.writes[1].fileName == base + ArchiveSuffix && o.writes[1].overwrite)
      && o.processedArchive == (uploadId, entryIdOf(base + ArchiveSuffix))
  {
    var base := Basename(mainfile);
    var kind := KindOf(base);
    var entry := NewEntry(kind, EntryName(base), base);
    var fileName := base + ArchiveSuffix;
    var first := Write(fileName, entry, false);
    var writes :=
      if created then [first]
      else match UpdateGeneralProcessEntries(kind, entry, hits, read)
        case None => [first]
        case Some((_, merged)) => [first, Write(fileName, merged, true)];
    Outcome(base, SearchId(base), (uploadId, entryIdOf(fileName)), writes)
  }

  /** The overwriting write keeps the new entry's class and name unless the
      stored archive overrides them. */
  lemma ParseMergedWrite(mainfile: string, uploadId: string, entryIdOf: string -> string,
                         hit: Hit, read: (string, string) -> Option<Dict>)
    requires hit.entryType == Some(GenericClass)
    ensures var o := Parse(mainfile, uploadId, entryIdOf, false, [hit], read);
      var base := Basename(mainfile);
      var newEntry := NewEntry(KindOf(base), EntryName(base), base);
      |o.writes| == 2 &&
      (read(hit.uploadId, hit.entryId).None? ==> o.writes[1].entry == newEntry) &&
      (read(hit.uploadId, hit.entryId).Some? ==> o.writes[1].entry == Overlay(newEntry, read(hit.uploadId, hit.entryId).value))
  {
  }
}
