/** sdp-data/create_education_data.py: the INEP pass-rate spreadsheet is
    read without a header, its columns are named by position, the municipal
    totals are kept, seven columns are projected and renamed, the key is
    normalised, the rates are rescaled, and incomplete rows are dropped.
    Also the local-file/retry decision of the download step. */
module EducationData {
  import opened Outcomes
  import opened Seqs
  import opened Text
  import opened Cells
  import opened Frames
  import opened MunicipalityKeys

  /** The sheet as read with `header=None` after the metadata rows: only
      positions, no labels. */
  datatype Sheet = Sheet(width: nat, rows: seq<Row>)

  predicate WellFormedSheet(sheet: Sheet)
  {
    forall r :: r in sheet.rows ==> |r| == sheet.width
  }

  /** The positional schema of the "MUNICIPIOS " sheet: identification,
      then the approval, repetition and dropout blocks of 18 columns each. */
  const Identification: seq<string> := [
    "NU_ANO_CENSO", "NO_REGIAO", "SG_UF", "CO_MUNICIPIO", "NO_MUNICIPIO",
    "NO_CATEGORIA", "NO_DEPENDENCIA"
  ]
  const Approval: seq<string> := [
    "APR_FUN_TOTAL", "APR_FUN_AI", "APR_FUN_AF", "APR_1ANO", "APR_2ANO", "APR_3ANO", "APR_4ANO", "APR_5ANO", "APR_6ANO", "APR_7ANO", "APR_8ANO", "APR_9ANO",
    "APR_MED_TOTAL", "APR_MED_1S", "APR_MED_2S", "APR_MED_3S", "APR_MED_4S", "APR_MED_NS"
  ]
  const Repetition: seq<string> := [
    "REP_FUN_TOTAL", "REP_FUN_AI", "REP_FUN_AF", "REP_1ANO", "REP_2ANO", "REP_3ANO", "REP_4ANO", "REP_5ANO", "REP_6ANO", "REP_7ANO", "REP_8ANO", "REP_9ANO",
    "REP_MED_TOTAL", "REP_MED_1S", "REP_MED_2S", "REP_MED_3S", "REP_MED_4S", "REP_MED_NS"
  ]
  const Dropout: seq<string> := [
    "ABA_FUN_TOTAL", "ABA_FUN_AI", "ABA_FUN_AF", "ABA_1ANO", "ABA_2ANO", "ABA_3ANO", "ABA_4ANO", "ABA_5ANO", "ABA_6ANO", "ABA_7ANO", "ABA_8ANO", "ABA_9ANO",
    "ABA_MED_TOTAL", "ABA_MED_1S", "ABA_MED_2S", "ABA_MED_3S", "ABA_MED_4S", "ABA_MED_NS"
  ]
  const SourceColumns: seq<string> := Identification + Approval + Repetition + Dropout

  const SourceWidth: nat := 61

  lemma SourceWidthIsSchemaLength()
    ensures |SourceColumns| == SourceWidth
  {
  }

  /** The row filter: municipal schools, all categories. */
  const MunicipalTotal: seq<(string, string)> := [("NO_CATEGORIA", "Total"), ("NO_DEPENDENCIA", "Municipal")]

  /** The projected source columns and the names they are renamed to. */
  const SourceFields: seq<string> := ["CO_MUNICIPIO", "APR_5ANO", "REP_5ANO", "ABA_5ANO", "APR_9ANO", "REP_9ANO", "ABA_9ANO"]
  const OutputColumns: seq<string> := [
    "ID_MUNICIPIO", "TX_APROVACAO_5ANO", "TX_REPROVACAO_5ANO", "TX_ABANDONO_5ANO",
    "TX_APROVACAO_9ANO", "TX_REPROVACAO_9ANO", "TX_ABANDONO_9ANO"
  ]

  /** The columns the rate transform visits: every output column except the key. */
  const RateColumns: seq<string> := OutputColumns[1..]

  /** Where the filtered and projected labels sit in the schema. */
  lemma SchemaFacts()
    ensures SourceColumns[5] == MunicipalTotal[0].0 && SourceColumns[6] == MunicipalTotal[1].0
    ensures forall k :: 0 <= k < |MunicipalTotal| ==> MunicipalTotal[k].0 in SourceColumns
    ensures forall n :: n in SourceFields ==> n in SourceColumns
    ensures |OutputColumns| == |SourceFields| && OutputColumns[0] == "ID_MUNICIPIO"
    ensures forall n :: n in RateColumns ==> n in OutputColumns
  {
    assert |Identification| == 7 && |Approval| == 18 && |Repetition| == 18 && |Dropout| == 18;
    assert SourceColumns[5] == Identification[5] == "NO_CATEGORIA";
    assert SourceColumns[6] == Identification[6] == "NO_DEPENDENCIA";
    assert SourceColumns[3] == Identification[3] == SourceFields[0];
    assert SourceColumns[14] == Approval[7] == SourceFields[1];
    assert SourceColumns[32] == Repetition[7] == SourceFields[2];
    assert SourceColumns[50] == Dropout[7] == SourceFields[3];
    assert SourceColumns[18] == Approval[11] == SourceFields[4];
    assert SourceColumns[36] == Repetition[11] == SourceFields[5];
    assert SourceColumns[54] == Dropout[11] == SourceFields[6];
  }

  /** `iloc[:, :n]` on one row. */
  function Cut(n: nat): Row -> Row
  {
    (row: Row) => Prefix(row, n)
  }

  lemma BlockLengths()
    ensures |Identification| == 7 && |Approval| == 18 && |Repetition| == 18 && |Dropout| == 18
    ensures |SourceColumns| == SourceWidth
  {
  }

  function Prefix(row: Row, n: nat): Row
  {
    if n <= |row| then row[..n] else row
  }

  /** `df.iloc[:, :61]` followed by `df.columns = colunas`: the first 61
      columns carry the declared names in order; a narrower sheet makes the
      assignment raise a length mismatch. */
  function NameColumns(sheet: Sheet): (r: FrameResult)
    requires WellFormedSheet(sheet)
    ensures r.Ok? <==> sheet.width >= SourceWidth
    ensures r.Err? ==> r.error == LengthMismatch(sheet.width, SourceWidth)
    ensures r.Ok? ==> r.value.columns == SourceColumns && WellFormed(r.value)
    ensures r.Ok? ==> r.value.rows == Map(sheet.rows, Cut(SourceWidth))
  {
    var kept := if sheet.width < SourceWidth then sheet.width else SourceWidth;
    var positional := Positional(sheet, kept);
    SourceWidthIsSchemaLength();
    SetColumns(positional, SourceColumns)
  }

  /** `iloc[:, :kept]`: columns labelled by their position. */
  function Positional(sheet: Sheet, kept: nat): (r: Frame)
    requires WellFormedSheet(sheet) && kept <= sheet.width
    ensures |r.columns| == kept && WellFormed(r)
    ensures r.rows == Map(sheet.rows, Cut(kept))
  {
    var rows := Map(sheet.rows, Cut(kept));
    assert forall i :: 0 <= i < |rows| ==> sheet.rows[i] in sheet.rows;
    Frame(seq(kept, (k: int) => IntText(k)), rows)
  }

  /** The key cell transform: `astype(str)`, anchored ".0" removal, `zfill(7)`. */
  function KeyCell(c: Cell): Cell
  {
    Str(EducationKey(c))
  }

  /** The whole of `processar_dados_educacionais` up to the CSV write. */
  function ProcessEducation(sheet: Sheet): (r: FrameResult)
    requires WellFormedSheet(sheet)
    ensures r.Ok? <==> sheet.width >= |SourceColumns|
    ensures r.Ok? ==> r.value.columns == OutputColumns && WellFormed(r.value)
  {
    var named :- NameColumns(sheet);
    Ok(Clean(named))
  }

  /** Everything after the labelling; with the 61 labels in place none of
      the lookups can raise. */
  function Clean(named: Frame): (r: Frame)
    requires WellFormed(named) && named.columns == SourceColumns
    ensures r.columns == OutputColumns && WellFormed(r)
  {
    SchemaFacts();
    var municipal := Where(named, MunicipalTotal).value;
    DropIncomplete(Normalise(Project(municipal)))
  }

  /** The projection on the seven source columns under their output names. */
  function Project(f: Frame): (r: Frame)
    requires WellFormed(f) && f.columns == SourceColumns
    ensures r.columns == OutputColumns && WellFormed(r) && |r.rows| == |f.rows|
    ensures forall i, k :: 0 <= i < |f.rows| && 0 <= k < |SourceFields| ==>
              r.rows[i][k] == ValueIn(SourceColumns, f.rows[i], SourceFields[k])
  {
    SchemaFacts();
    var projected := Select(f, SourceFields).value;
    SetColumns(projected, OutputColumns).value
  }

  /** The cleaning step: the key column through the key normalisation,
      every other column through the rate conversion. */
  function Normalise(f: Frame): (r: Frame)
    requires WellFormed(f) && f.columns == OutputColumns
    ensures r.columns == OutputColumns && WellFormed(r) && |r.rows| == |f.rows|
    ensures forall i :: 0 <= i < |f.rows| ==> r.rows[i][0] == KeyCell(f.rows[i][0])
    ensures forall i, j :: 0 <= i < |f.rows| && 1 <= j < |OutputColumns| ==> r.rows[i][j] == RateCell(f.rows[i][j])
  {
    OutputDistinct();
    NormaliseWith(f, KeyCell, RateCell)
  }

  /** The cleaning loop for any key and rate conversions, on any frame
      whose distinct labels start with the key column. */
  function NormaliseWith(f: Frame, keyFn: Cell -> Cell, rateFn: Cell -> Cell): (r: Frame)
    requires WellFormed(f) && |f.columns| >= 1 && Distinct(f.columns)
    ensures r.columns == f.columns && WellFormed(r) && |r.rows| == |f.rows|
    ensures forall i :: 0 <= i < |f.rows| ==> r.rows[i][0] == keyFn(f.rows[i][0])
    ensures forall i, j :: 0 <= i < |f.rows| && 1 <= j < |f.columns| ==> r.rows[i][j] == rateFn(f.rows[i][j])
  {
    var r := NormalisePasses(f, keyFn, rateFn);
    forall i | 0 <= i < |f.rows|
      ensures r.rows[i][0] == keyFn(f.rows[i][0])
    {
      NormaliseCell(f, keyFn, rateFn, i, 0);
    }
    forall i, j | 0 <= i < |f.rows| && 1 <= j < |f.columns|
      ensures r.rows[i][j] == rateFn(f.rows[i][j])
    {
      NormaliseCell(f, keyFn, rateFn, i, j);
    }
    r
  }

  /** The two passes in their source order: the key column, then each
      other column in turn. */
  function NormalisePasses(f: Frame, keyFn: Cell -> Cell, rateFn: Cell -> Cell): (r: Frame)
    requires WellFormed(f) && |f.columns| >= 1 && Distinct(f.columns)
    ensures r.columns == f.columns && WellFormed(r) && |r.rows| == |f.rows|
  {
    RestDistinct(f.columns);
    MapColumns(MapColumn(f, f.columns[0], keyFn).value, f.columns[1..], rateFn).value
  }

  lemma NormaliseCell(f: Frame, keyFn: Cell -> Cell, rateFn: Cell -> Cell, i: nat, j: nat)
    requires WellFormed(f) && |f.columns| >= 1 && Distinct(f.columns)
    requires i < |f.rows| && j < |f.columns|
    ensures NormalisePasses(f, keyFn, rateFn).rows[i][j]
            == if j == 0 then keyFn(f.rows[i][0]) else rateFn(f.rows[i][j])
  {
    RestDistinct(f.columns);
    var keyed := MapColumn(f, f.columns[0], keyFn).value;
    assert keyed.rows[i][j] == if j == 0 then keyFn(f.rows[i][0]) else f.rows[i][j] by {
      if j == 0 {
        assert f.columns[..0] == [];
      } else {
        assert f.columns[j] != f.columns[0];
      }
    }
    MapColumnsCell(keyed, f.columns[1..], rateFn, i, j);
  }

  // ---------------------------------------------------------------------
  // The same pipeline stated row by row on the raw sheet

  /** A raw sheet row describes the municipal network, all categories. */
  predicate IsMunicipalTotal(row: Row)
  {
    Satisfies(SourceColumns, row, MunicipalTotal)
  }

  /** What one raw sheet row becomes: the normalised key read from
      `CO_MUNICIPIO`, then the six rescaled rates read from the remaining
      `SourceFields`, in output order. */
  function ExtractRow(row: Row): (r: Row)
    ensures |r| == |OutputColumns|
    ensures r[0].Str? && |r[0].s| >= KeyWidth
    ensures forall j :: 1 <= j < |r| ==> r[j].Missing? || (r[j].Float? && r[j].d.scale == 3)
  {
    var r := seq(|SourceFields|, (k: int) requires 0 <= k < |SourceFields| => ExtractCell(row, k));
    assert forall j :: 0 <= j < |r| ==> r[j] == ExtractCell(row, j);
    r
  }

  /** The `k`-th output cell of a raw row. */
  function ExtractCell(row: Row, k: nat): (c: Cell)
    requires k < |SourceFields|
    ensures k == 0 ==> c.Str? && |c.s| >= KeyWidth
    ensures k > 0 ==> c.Missing? || (c.Float? && c.d.scale == 3)
  {
    var cell := ValueIn(SourceColumns, row, SourceFields[k]);
    if k == 0 then KeyCell(cell) else RateCell(cell)
  }

  /** The labels the pipeline reads sit at their first occurrence. */
  lemma LabelAt3()
    ensures IndexOf(SourceColumns, "CO_MUNICIPIO") == Some(3)
  {
    BlockLengths();
    assert SourceColumns[3] == "CO_MUNICIPIO";
    IndexOfAt(SourceColumns, 3);
  }

  lemma LabelAt5()
    ensures IndexOf(SourceColumns, "NO_CATEGORIA") == Some(5)
  {
    BlockLengths();
    assert SourceColumns[5] == "NO_CATEGORIA";
    IndexOfAt(SourceColumns, 5);
  }

  lemma LabelAt6()
    ensures IndexOf(SourceColumns, "NO_DEPENDENCIA") == Some(6)
  {
    BlockLengths();
    assert SourceColumns[6] == "NO_DEPENDENCIA";
    IndexOfAt(SourceColumns, 6);
  }

  lemma LabelAt14()
    ensures IndexOf(SourceColumns, "APR_5ANO") == Some(14)
  {
    BlockLengths();
    assert SourceColumns[14] == "APR_5ANO";
    IndexOfAt(SourceColumns, 14);
  }

  lemma LabelAt18()
    ensures IndexOf(SourceColumns, "APR_9ANO") == Some(18)
  {
    BlockLengths();
    assert SourceColumns[18] == "APR_9ANO";
    IndexOfAt(SourceColumns, 18);
  }

  lemma LabelAt32()
    ensures IndexOf(SourceColumns, "REP_5ANO") == Some(32)
  {
    BlockLengths();
    assert SourceColumns[32] == "REP_5ANO";
    assert SourceColumns[..32] == (Identification + Approval) + Repetition[..7];
    assert "REP_5ANO" !in Identification + Approval;
    assert "REP_5ANO" !in Repetition[..7];
    IndexOfAt(SourceColumns, 32);
  }

  lemma LabelAt36()
    ensures IndexOf(SourceColumns, "REP_9ANO") == Some(36)
  {
    BlockLengths();
    assert SourceColumns[36] == "REP_9ANO";
    assert SourceColumns[..36] == (Identification + Approval) + Repetition[..11];
    assert "REP_9ANO" !in Identification + Approval;
    assert "REP_9ANO" !in Repetition[..11];
    IndexOfAt(SourceColumns, 36);
  }

  lemma LabelAt50()
    ensures IndexOf(SourceColumns, "ABA_5ANO") == Some(50)
  {
    BlockLengths();
    assert SourceColumns[50] == "ABA_5ANO";
    assert SourceColumns[..50] == (Identification + Approval + Repetition) + Dropout[..7];
    assert "ABA_5ANO" !in Identification + Approval + Repetition;
    assert "ABA_5ANO" !in Dropout[..7];
    IndexOfAt(SourceColumns, 50);
  }

  lemma LabelAt54()
    ensures IndexOf(SourceColumns, "ABA_9ANO") == Some(54)
  {
    BlockLengths();
    assert SourceColumns[54] == "ABA_9ANO";
    assert SourceColumns[..54] == (Identification + Approval + Repetition) + Dropout[..11];
    assert "ABA_9ANO" !in Identification + Approval + Repetition;
    assert "ABA_9ANO" !in Dropout[..11];
    IndexOfAt(SourceColumns, 54);
  }

  /** Read by position on the raw row, the filter looks at columns 5 and 6. */
  lemma FilterPositions(row: Row)
    ensures IsMunicipalTotal(row) <==> At(row, 5) == Str("Total") && At(row, 6) == Str("Municipal")
  {
    LabelAt5();
    LabelAt6();
    assert MunicipalTotal[0] == ("NO_CATEGORIA", "Total") && MunicipalTotal[1] == ("NO_DEPENDENCIA", "Municipal");
    SatisfiesPair(SourceColumns, row, MunicipalTotal, 5, 6);
  }

  /** Where the projected fields sit in the raw sheet: the key in column
      3, the 5th-year rates in columns 14, 32 and 50, the 9th-year rates in
      columns 18, 36 and 54. */
  const FieldPositions: seq<nat> := [3, 14, 32, 50, 18, 36, 54]

  /** `ExtractRow` reads each output cell from its fixed raw column. */
  lemma ExtractRowPositions(row: Row)
    ensures forall k :: 0 <= k < |SourceFields| ==>
              ValueIn(SourceColumns, row, SourceFields[k]) == At(row, FieldPositions[k])
  {
    forall k | 0 <= k < |SourceFields|
      ensures ValueIn(SourceColumns, row, SourceFields[k]) == At(row, FieldPositions[k])
    {
      if k == 0 {
        LabelAt3();
      } else if k == 1 {
        LabelAt14();
      } else if k == 2 {
        LabelAt32();
      } else if k == 3 {
        LabelAt50();
      } else if k == 4 {
        LabelAt18();
      } else if k == 5 {
        LabelAt36();
      } else {
        LabelAt54();
      }
    }
  }

  /** Labels never reach past the last labelled column, so reading a
      label from the truncated row or from the raw row gives the same cell. */
  lemma ValueInPrefix(columns: seq<string>, row: Row, name: string)
    requires |columns| <= |row|
    ensures ValueIn(columns, Prefix(row, |columns|), name) == ValueIn(columns, row, name)
  {
  }

  lemma SatisfiesPrefix(columns: seq<string>, row: Row, tests: seq<(string, string)>)
    requires |columns| <= |row|
    ensures Satisfies(columns, Prefix(row, |columns|), tests) == Satisfies(columns, row, tests)
  {
    forall k | 0 <= k < |tests|
      ensures ValueIn(columns, Prefix(row, |columns|), tests[k].0) == ValueIn(columns, row, tests[k].0)
    {
      ValueInPrefix(columns, row, tests[k].0);
    }
  }

  lemma OutputColumnsDistinct()
    ensures Distinct(OutputColumns) && Distinct(RateColumns)
    ensures forall j :: 0 <= j < |OutputColumns| ==> (OutputColumns[j] in RateColumns <==> j > 0)
    ensures OutputColumns[0] == "ID_MUNICIPIO" && forall n :: n in RateColumns ==> n in OutputColumns
    ensures forall j :: 0 <= j < |OutputColumns| ==> (OutputColumns[j] == "ID_MUNICIPIO" <==> j == 0)
  {
    OutputDistinct();
  }

  lemma OutputDistinct()
    ensures Distinct(OutputColumns) && |OutputColumns| == 7
  {
    assert OutputColumns[1][13] != OutputColumns[4][13];
    assert OutputColumns[2][14] != OutputColumns[5][14];
    assert OutputColumns[3][12] != OutputColumns[6][12];
  }

  /** Frame-level filtering of the truncated rows is row-level filtering
      of the raw rows. */
  lemma FilterTruncated(rows: seq<Row>, columns: seq<string>, tests: seq<(string, string)>)
    requires forall row :: row in rows ==> |columns| <= |row|
    ensures Filter(Map(rows, Cut(|columns|)), Passes(columns, tests))
         == Map(Filter(rows, Passes(columns, tests)), Cut(|columns|))
  {
    forall row | row in rows
      ensures Passes(columns, tests)(row) == Passes(columns, tests)(Prefix(row, |columns|))
    {
      SatisfiesPrefix(columns, row, tests);
    }
    FilterMap(rows, Cut(|columns|), Passes(columns, tests), Passes(columns, tests));
  }

  lemma NormaliseProjectRows(municipal: Frame, kept: seq<Row>)
    requires WellFormed(municipal) && municipal.columns == SourceColumns
    requires forall row :: row in kept ==> |row| >= SourceWidth
    requires municipal.rows == Map(kept, Cut(SourceWidth))
    ensures Normalise(Project(municipal)).rows == Map(kept, ExtractRow)
  {
    SourceWidthIsSchemaLength();
    var projected := Project(municipal);
    var rated := Normalise(projected);
    forall i | 0 <= i < |kept|
      ensures rated.rows[i] == ExtractRow(kept[i])
    {
      assert kept[i] in kept;
      CleanedRow(projected.rows[i], kept[i], rated.rows[i]);
    }
  }

  /** One output row, from the projected cells to the raw row they came from. */
  lemma CleanedRow(projected: Row, raw: Row, out: Row)
    requires |raw| >= |SourceColumns| && |projected| == |SourceFields| && |out| == |SourceFields|
    requires forall k :: 0 <= k < |SourceFields| ==>
               projected[k] == ValueIn(SourceColumns, Prefix(raw, |SourceColumns|), SourceFields[k])
    requires out[0] == KeyCell(projected[0])
    requires forall j :: 1 <= j < |SourceFields| ==> out[j] == RateCell(projected[j])
    ensures out == ExtractRow(raw)
  {
    var e := ExtractRow(raw);
    ExtractRowCells(raw);
    forall k | 0 <= k < |SourceFields|
      ensures out[k] == e[k]
    {
      CleanedCell(raw, projected[k], out[k], k);
    }
  }

  lemma CleanedCell(raw: Row, p: Cell, o: Cell, k: nat)
    requires |raw| >= |SourceColumns| && k < |SourceFields|
    requires p == ValueIn(SourceColumns, Prefix(raw, |SourceColumns|), SourceFields[k])
    requires o == if k == 0 then KeyCell(p) else RateCell(p)
    ensures o == ExtractCell(raw, k)
  {
    ValueInPrefix(SourceColumns, raw, SourceFields[k]);
  }

  lemma ExtractRowCells(row: Row)
    ensures |ExtractRow(row)| == |SourceFields|
    ensures forall k :: 0 <= k < |SourceFields| ==> ExtractRow(row)[k] == ExtractCell(row, k)
  {
  }

  lemma ProcessIsClean(sheet: Sheet)
    requires WellFormedSheet(sheet) && sheet.width >= SourceWidth
    ensures NameColumns(sheet).Ok? && ProcessEducation(sheet) == Ok(Clean(NameColumns(sheet).value))
  {
  }

  /** `ProcessEducation` is exactly: keep the municipal-total rows, turn
      each into its output row, drop the rows with a missing cell. */
  lemma ProcessEducationRows(sheet: Sheet)
    requires WellFormedSheet(sheet) && sheet.width >= SourceWidth
    ensures ProcessEducation(sheet) ==
            Ok(Frame(OutputColumns, Filter(Map(Filter(sheet.rows, IsMunicipalTotal), ExtractRow), Complete)))
  {
    SchemaFacts();
    var kept := Filter(sheet.rows, IsMunicipalTotal);
    var named := NameColumns(sheet).value;
    var municipal := Where(named, MunicipalTotal).value;
    SourceWidthIsSchemaLength();
    FilterTruncated(sheet.rows, SourceColumns, MunicipalTotal);
    FilterCongruent(sheet.rows, Passes(SourceColumns, MunicipalTotal), IsMunicipalTotal);
    assert municipal.rows == Map(kept, Cut(SourceWidth));
    NormaliseProjectRows(municipal, kept);
    var rated := Normalise(Project(municipal));
    ProcessIsClean(sheet);
    assert Clean(named) == DropIncomplete(rated);
    assert DropIncomplete(rated) == Frame(OutputColumns, Filter(Map(kept, ExtractRow), Complete));
  }

  /** Every output row is complete: a key of at least seven characters and
      six rates on the thousandths grid. */
  lemma ProcessedRowShape(sheet: Sheet, row: Row)
    requires WellFormedSheet(sheet) && sheet.width >= SourceWidth
    requires row in ProcessEducation(sheet).value.rows
    ensures |row| == |OutputColumns| && Complete(row)
    ensures row[0].Str? && |row[0].s| >= KeyWidth
    ensures forall j :: 1 <= j < |row| ==> row[j].Float? && row[j].d.scale == 3
  {
    ProcessEducationRows(sheet);
    CompleteExtractedRow(Filter(sheet.rows, IsMunicipalTotal), row);
  }

  lemma CompleteExtractedRow(kept: seq<Row>, row: Row)
    requires row in Filter(Map(kept, ExtractRow), Complete)
    ensures |row| == |OutputColumns| && Complete(row)
    ensures row[0].Str? && |row[0].s| >= KeyWidth
    ensures forall j :: 1 <= j < |row| ==> row[j].Float? && row[j].d.scale == 3
  {
    var i :| 0 <= i < |kept| && Map(kept, ExtractRow)[i] == row;
  }

  // ---------------------------------------------------------------------
  // Locating the spreadsheet: a local copy, or a download with retries

  /** What one download attempt ends in: a request exception, a corrupt
      archive, or an extracted archive with (or without) a spreadsheet. */
  datatype Attempt = NetworkFailure(message: string) | BadArchive | Extracted(found: Option<string>)

  datatype FetchError = RequestFailed(message: string) | ArchiveError | NoSpreadsheet

  datatype FetchOutcome = Found(path: string) | Raised(error: FetchError)

  /** The number of requests made, the pauses taken between them (in
      seconds) and how the step ended. */
  datatype FetchRun = FetchRun(attempts: nat, sleeps: seq<nat>, outcome: FetchOutcome)

  const MaxRetries: nat := 3
  const FirstDelay: nat := 10

  /** The pause after the `k`-th failed request: the delay doubles each time. */
  function Backoff(k: nat): nat
  {
    if k == 0 then FirstDelay else 2 * Backoff(k - 1)
  }

  /** `baixar_e_extrair_dados`: `local` is the spreadsheet already under the
      destination folder, if any; `respond(k)` is how request `k` ends. */
  function Fetch(local: Option<string>, respond: nat -> Attempt): (r: FetchRun)
    ensures local.Some? ==> r == FetchRun(0, [], Found(local.value))
    ensures local.None? ==> 1 <= r.attempts <= MaxRetries
    ensures local.None? ==> |r.sleeps| == r.attempts - 1
    ensures local.None? ==> forall k :: 0 <= k < |r.sleeps| ==> r.sleeps[k] == Backoff(k)
    ensures local.None? ==> forall k :: 0 <= k < r.attempts - 1 ==> respond(k).NetworkFailure?
  {
    match local
    case Some(path) => FetchRun(0, [], Found(path))
    case None => Retry(0, respond)
  }

  /** Requests `k`, `k + 1`, ... up to the retry limit. */
  function Retry(k: nat, respond: nat -> Attempt): (r: FetchRun)
    requires k < MaxRetries
    ensures k < r.attempts <= MaxRetries
    ensures |r.sleeps| == r.attempts - 1 - k &&
            forall n :: 0 <= n < |r.sleeps| ==> r.sleeps[n] == Backoff(k + n)
    ensures forall n :: k <= n < r.attempts - 1 ==> respond(n).NetworkFailure?
    decreases MaxRetries - k
  {
    match respond(k)
    case Extracted(Some(path)) => FetchRun(k + 1, [], Found(path))
    case Extracted(None) => FetchRun(k + 1, [], Raised(NoSpreadsheet))
    case BadArchive => FetchRun(k + 1, [], Raised(ArchiveError))
    case NetworkFailure(message) =>
      if k < MaxRetries - 1 then
        var rest := Retry(k + 1, respond);
        FetchRun(rest.attempts, [Backoff(k)] + rest.sleeps, rest.outcome)
      else
        FetchRun(k + 1, [], Raised(RequestFailed(message)))
  }

  /** How the download ends is decided by the last request alone: a network
      failure is re-raised only once the retries are exhausted, and anything
      else ends the step at once. */
  lemma {:induction false} FetchSettlesOnLastAttempt(respond: nat -> Attempt, k: nat)
    requires k < MaxRetries
    ensures var r := Retry(k, respond);
            match respond(r.attempts - 1)
            case Extracted(Some(path)) => r.outcome == Found(path)
            case Extracted(None) => r.outcome == Raised(NoSpreadsheet)
            case BadArchive => r.outcome == Raised(ArchiveError)
            case NetworkFailure(message) => r.attempts == MaxRetries && r.outcome == Raised(RequestFailed(message))
    decreases MaxRetries - k
  {
    if respond(k).NetworkFailure? && k < MaxRetries - 1 {
      FetchSettlesOnLastAttempt(respond, k + 1);
    }
  }

  /** The first request that does not fail on the network is the last one
      made. */
  lemma {:induction false} FetchStopsAtFirstAnswer(respond: nat -> Attempt, k: nat, answered: nat)
    requires k <= answered < MaxRetries && !respond(answered).NetworkFailure?
    requires forall n :: k <= n < answered ==> respond(n).NetworkFailure?
    ensures Retry(k, respond).attempts == answered + 1
    decreases MaxRetries - k
  {
    if k < answered {
      FetchStopsAtFirstAnswer(respond, k + 1, answered);
    }
  }

  /** Three network failures in a row: three requests, pauses of 10 and 20
      seconds, and the last error re-raised. */
  lemma ThreeFailures(respond: nat -> Attempt)
    requires forall n: nat :: n < MaxRetries ==> respond(n).NetworkFailure?
    ensures Fetch(None, respond) == FetchRun(3, [10, 20], Raised(RequestFailed(respond(2).message)))
  {
    var r := Retry(0, respond);
    assert Retry(2, respond) == FetchRun(3, [], Raised(RequestFailed(respond(2).message)));
    assert Retry(1, respond) == FetchRun(3, [20], Raised(RequestFailed(respond(2).message)));
  }
}
