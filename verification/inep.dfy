/** docs/tx_rend.py: the earlier pass-rate loader. The sheet is re-read as
    text without a header, labelled by position (base names, then X0, X1,
    ... for any surplus column), filtered on the all-networks totals,
    projected to the key and the two approval rates, cleaned and stripped
    of incomplete rows. Also the XLSX-to-CSV rewrite and the choice of
    input. */
module InepRates {
  import opened Outcomes
  import opened Seqs
  import opened Text
  import opened Cells
  import opened Frames
  import opened MunicipalityKeys
  import EducationData

  /** The declared labels, in sheet order. */
  const BaseLabels: seq<string> := [
    "NU_ANO_CENSO", "NO_REGIAO", "SG_UF", "CO_MUNICIPIO", "NO_MUNICIPIO",
    "NO_CATEGORIA", "NO_DEPENDENCIA",
    "1_CAT_FUN", "1_CAT_FUN_AI", "1_CAT_FUN_AF",
    "1_CAT_FUN_01", "1_CAT_FUN_02", "1_CAT_FUN_03", "1_CAT_FUN_04",
    "1_CAT_FUN_05", "1_CAT_FUN_06", "1_CAT_FUN_07", "1_CAT_FUN_08", "1_CAT_FUN_09",
    "1_CAT_MED", "1_CAT_MED_01", "1_CAT_MED_02", "1_CAT_MED_03", "1_CAT_MED_04", "1_CAT_MED_NS"
  ]

  /** The label of the `i`-th surplus column. */
  function ExtraLabel(i: nat): string
  {
    "X" + IntText(i)
  }

  /** The labels given to a sheet of `width` columns: the base list followed
      by X0, X1, ... when the sheet is wider, the base list cut short
      otherwise. */
  function Labels(width: nat): seq<string>
  {
    LabelsOver(BaseLabels, width)
  }

  /** The labelling rule for any declared list `base`. */
  function LabelsOver(base: seq<string>, width: nat): (r: seq<string>)
    ensures |r| == width
    ensures forall k :: 0 <= k < width && k < |base| ==> r[k] == base[k]
    ensures forall k :: |base| <= k < width ==> r[k] == ExtraLabel(k - |base|)
  {
    if |base| < width then base + ExtraLabels(width - |base|)
    else base[..width]
  }

  /** X0, X1, ..., the labels of `n` surplus columns. */
  function ExtraLabels(n: nat): (r: seq<string>)
    ensures |r| == n
    ensures forall i :: 0 <= i < n ==> r[i] == ExtraLabel(i)
  {
    seq(n, (i: int) requires 0 <= i => ExtraLabel(i))
  }

  /** Surplus labels never collide with a base label, which never starts
      with an X. */
  lemma ExtraLabelIsNotBase(i: nat)
    ensures ExtraLabel(i) !in BaseLabels
  {
    StartsWithX(ExtraLabel(i));
  }

  lemma StartsWithX(x: string)
    requires |x| > 0 && x[0] == 'X'
    ensures x !in BaseLabels
  {
  }

  /** A base label that occurs once is a column of the labelled sheet
      exactly when the sheet reaches its position. */
  lemma LabelPresent(width: nat, k: nat)
    requires k < |BaseLabels| && BaseLabels[k] !in BaseLabels[..k] && BaseLabels[k] !in BaseLabels[k + 1..]
    ensures BaseLabels[k] in Labels(width) <==> k < width
    ensures k < width ==> IndexOf(Labels(width), BaseLabels[k]) == Some(k)
  {
    var labels := Labels(width);
    if k < width {
      assert labels[..k] == BaseLabels[..k];
      IndexOfAt(labels, k);
    }
  }

  /** `df.columns = ...` on the header-less text table: one label per
      column, whatever the width. */
  function LabelSheet(sheet: EducationData.Sheet): (r: Frame)
    requires EducationData.WellFormedSheet(sheet)
    ensures r.columns == Labels(sheet.width) && r.rows == sheet.rows && WellFormed(r)
  {
    Frame(Labels(sheet.width), sheet.rows)
  }

  /** The row filter: all categories, all networks. */
  const TotalTotal: seq<(string, string)> := [("NO_CATEGORIA", "Total"), ("NO_DEPENDENCIA", "Total")]
  const RateFields: seq<string> := ["CO_MUNICIPIO", "1_CAT_FUN_05", "1_CAT_FUN_09"]
  const RateOutput: seq<string> := ["ID_MUNICIPIO", "TX_APROVACAO_5ANO", "TX_APROVACAO_9ANO"]

  /** The widest position the loader reads, plus one. */
  const MinWidth: nat := 19

  lemma OnceAt3()
    ensures BaseLabels[3] !in BaseLabels[..3] && BaseLabels[3] !in BaseLabels[4..]
  {
  }

  lemma OnceAt5()
    ensures BaseLabels[5] !in BaseLabels[..5] && BaseLabels[5] !in BaseLabels[6..]
  {
  }

  lemma OnceAt6()
    ensures BaseLabels[6] !in BaseLabels[..6] && BaseLabels[6] !in BaseLabels[7..]
  {
  }

  lemma OnceAt14()
    ensures BaseLabels[14] !in BaseLabels[..14] && BaseLabels[14] !in BaseLabels[15..]
  {
  }

  lemma OnceAt18()
    ensures BaseLabels[18] !in BaseLabels[..18] && BaseLabels[18] !in BaseLabels[19..]
  {
  }

  lemma FilterFieldsPresent(width: nat)
    ensures (forall k :: 0 <= k < |TotalTotal| ==> TotalTotal[k].0 in Labels(width)) <==> width > 6
  {
    assert TotalTotal[0].0 == "NO_CATEGORIA" && TotalTotal[1].0 == "NO_DEPENDENCIA";
    PairLabelsPresent(Labels(width), TotalTotal);
    if width > 6 {
      PositionOf5(width);
      PositionOf6(width);
    } else {
      NarrowLacksDependencia(width);
    }
  }

  /** A sheet of at most six columns has no `NO_DEPENDENCIA` label. */
  lemma NarrowLacksDependencia(width: nat)
    requires width <= 6
    ensures "NO_DEPENDENCIA" !in Labels(width)
  {
    assert BaseLabels[6] == "NO_DEPENDENCIA";
    OnceAt6();
    LabelPresent(width, 6);
  }

  lemma RateFieldsPresent(width: nat)
    ensures (forall n :: n in RateFields ==> n in Labels(width)) <==> width >= MinWidth
  {
    var labels := Labels(width);
    assert RateFields == [BaseLabels[3], BaseLabels[14], BaseLabels[18]];
    OnceAt18();
    LabelPresent(width, 18);
    if width >= MinWidth {
      OnceAt3();
      OnceAt14();
      LabelPresent(width, 3);
      LabelPresent(width, 14);
      forall n | n in RateFields
        ensures n in labels
      {
      }
    } else {
      assert RateFields[2] !in labels;
    }
  }

  /** The `--` placeholder replaced by a missing value (`df.replace`). */
  function Blank(c: Cell): Cell
  {
    if c == Str("--") then Missing else c
  }

  /** `carregar_taxa_aprovacao_csv`: a `KeyError` when the sheet is too
      narrow for the filter or the projection. */
  function LoadRates(sheet: EducationData.Sheet): (r: FrameResult)
    requires EducationData.WellFormedSheet(sheet)
    ensures r.Ok? <==> sheet.width >= MinWidth
    ensures r.Err? ==> r.error.KeyError?
    ensures r.Ok? ==> r.value.columns == RateOutput && WellFormed(r.value)
  {
    FilterFieldsPresent(sheet.width);
    RateFieldsPresent(sheet.width);
    var labelled := LabelSheet(sheet);
    var totals :- Where(labelled, TotalTotal);
    var picked :- Select(totals, RateFields);
    Ok(CleanRates(picked))
  }

  /** Rename, key normalisation, placeholder removal, rate conversion and
      `dropna`, on the projected three columns. */
  function CleanRates(picked: Frame): (r: Frame)
    requires WellFormed(picked) && picked.columns == RateFields
    ensures r.columns == RateOutput && WellFormed(r)
    ensures r.rows == Filter(Map(picked.rows, CleanRow), Complete)
  {
    var named := SetColumns(picked, RateOutput).value;
    var rated := CleanWith(named, InepKey, Blank, RateCell);
    assert rated.rows == Map(picked.rows, CleanRow) by {
      forall i | 0 <= i < |picked.rows|
        ensures rated.rows[i] == CleanRow(picked.rows[i])
      {
        assert picked.rows[i] in picked.rows;
        CleanedRow(picked.rows[i], rated.rows[i]);
      }
    }
    DropIncomplete(rated)
  }

  /** One cleaned row: the normalised key and the two converted rates. */
  function CleanRow(row: Row): (r: Row)
    ensures |r| == |RateOutput|
  {
    [InepKey(At(row, 0)), RateCell(At(row, 1)), RateCell(At(row, 2))]
  }

  lemma CleanedRow(row: Row, out: Row)
    requires |row| == |RateOutput| && |out| == |RateOutput|
    requires out[0] == Blank(InepKey(row[0]))
    requires forall j :: 1 <= j < |RateOutput| ==> out[j] == RateCell(Blank(row[j]))
    ensures out == CleanRow(row)
  {
    KeyNeverPlaceholder(row[0]);
    BlankBeforeRate(row[1]);
    BlankBeforeRate(row[2]);
  }

  /** A normalised key is at least seven characters long, so the
      placeholder replacement never touches it. */
  lemma KeyNeverPlaceholder(c: Cell)
    ensures Blank(InepKey(c)) == InepKey(c)
  {
  }

  /** The placeholder replacement changes nothing for the rates: the
      numeric parse already turns "--" into a missing value. */
  lemma BlankBeforeRate(c: Cell)
    ensures RateCell(Blank(c)) == RateCell(c)
  {
    if c == Str("--") {
      PlaceholderRateMissing();
    }
  }

  // ---------------------------------------------------------------------
  // The loader stated row by row on the raw sheet

  /** A raw row of the all-networks totals, read by position. */
  predicate IsTotalRow(row: Row)
  {
    At(row, 5) == Str("Total") && At(row, 6) == Str("Total")
  }

  /** What one raw row becomes: the key from column 3, the 5th-year rate
      from column 14 and the 9th-year rate from column 18. */
  function RateRow(row: Row): (r: Row)
    ensures |r| == |RateOutput|
    ensures r[0].Str? <==> At(row, 3).Str?
    ensures r[0].Str? ==> |r[0].s| >= KeyWidth
    ensures forall j :: 1 <= j < |r| ==> r[j].Missing? || (r[j].Float? && r[j].d.scale == 3)
  {
    [InepKey(At(row, 3)), RateCell(At(row, 14)), RateCell(At(row, 18))]
  }

  /** Once the sheet is wide enough, the labels the loader reads sit at
      positions 3, 5, 6, 14 and 18. */
  lemma LoaderPositions(width: nat)
    requires width >= MinWidth
    ensures IndexOf(Labels(width), "CO_MUNICIPIO") == Some(3)
    ensures IndexOf(Labels(width), "NO_CATEGORIA") == Some(5)
    ensures IndexOf(Labels(width), "NO_DEPENDENCIA") == Some(6)
    ensures IndexOf(Labels(width), "1_CAT_FUN_05") == Some(14)
    ensures IndexOf(Labels(width), "1_CAT_FUN_09") == Some(18)
  {
    PositionOf3(width);
    PositionOf5(width);
    PositionOf6(width);
    PositionOf14(width);
    PositionOf18(width);
  }

  lemma PositionOf3(width: nat)
    requires width > 3
    ensures IndexOf(Labels(width), "CO_MUNICIPIO") == Some(3)
  {
    assert BaseLabels[3] == "CO_MUNICIPIO";
    OnceAt3();
    LabelPresent(width, 3);
  }

  lemma PositionOf5(width: nat)
    requires width > 5
    ensures IndexOf(Labels(width), "NO_CATEGORIA") == Some(5)
  {
    assert BaseLabels[5] == "NO_CATEGORIA";
    OnceAt5();
    LabelPresent(width, 5);
  }

  lemma PositionOf6(width: nat)
    requires width > 6
    ensures IndexOf(Labels(width), "NO_DEPENDENCIA") == Some(6)
  {
    assert BaseLabels[6] == "NO_DEPENDENCIA";
    OnceAt6();
    LabelPresent(width, 6);
  }

  lemma PositionOf14(width: nat)
    requires width > 14
    ensures IndexOf(Labels(width), "1_CAT_FUN_05") == Some(14)
  {
    assert BaseLabels[14] == "1_CAT_FUN_05";
    OnceAt14();
    LabelPresent(width, 14);
  }

  lemma PositionOf18(width: nat)
    requires width > 18
    ensures IndexOf(Labels(width), "1_CAT_FUN_09") == Some(18)
  {
    assert BaseLabels[18] == "1_CAT_FUN_09";
    OnceAt18();
    LabelPresent(width, 18);
  }

  /** The two approval rates are read from the same raw columns as the
      `APR_5ANO` and `APR_9ANO` columns of the newer loader. */
  lemma SamePositionsAsEducation(width: nat)
    requires width >= MinWidth
    ensures IndexOf(Labels(width), "1_CAT_FUN_05") == IndexOf(EducationData.SourceColumns, "APR_5ANO")
    ensures IndexOf(Labels(width), "1_CAT_FUN_09") == IndexOf(EducationData.SourceColumns, "APR_9ANO")
  {
    LoaderPositions(width);
    EducationData.LabelAt14();
    EducationData.LabelAt18();
  }

  /** The all-networks mask on the labelled sheet tests positions 5 and 6. */
  lemma TotalsByPosition(width: nat, rows: seq<Row>)
    requires width >= MinWidth
    ensures Filter(rows, Passes(Labels(width), TotalTotal)) == Filter(rows, IsTotalRow)
  {
    forall row | row in rows
      ensures Passes(Labels(width), TotalTotal)(row) == IsTotalRow(row)
    {
      TotalRowByPosition(width, row);
    }
    FilterCongruent(rows, Passes(Labels(width), TotalTotal), IsTotalRow);
  }

  lemma TotalRowByPosition(width: nat, row: Row)
    requires width >= MinWidth
    ensures Satisfies(Labels(width), row, TotalTotal) == IsTotalRow(row)
  {
    PositionOf5(width);
    PositionOf6(width);
    assert TotalTotal[0] == ("NO_CATEGORIA", "Total") && TotalTotal[1] == ("NO_DEPENDENCIA", "Total");
    SatisfiesPair(Labels(width), row, TotalTotal, 5, 6);
  }

  lemma PickedRow(width: nat, raw: Row, picked: Row)
    requires width >= MinWidth && |picked| == |RateFields|
    requires forall k :: 0 <= k < |RateFields| ==> picked[k] == ValueIn(Labels(width), raw, RateFields[k])
    ensures CleanRow(picked) == RateRow(raw)
  {
    var labels := Labels(width);
    PositionOf3(width);
    PositionOf14(width);
    PositionOf18(width);
    assert RateFields[0] == "CO_MUNICIPIO" && RateFields[1] == "1_CAT_FUN_05" && RateFields[2] == "1_CAT_FUN_09";
    assert picked[0] == At(raw, 3) && picked[1] == At(raw, 14) && picked[2] == At(raw, 18);
  }

  /** `carregar_taxa_aprovacao_csv` is exactly: keep the all-networks total
      rows, turn each into its key and two rates, drop the rows with a
      missing cell. */
  lemma LoadRatesRows(sheet: EducationData.Sheet)
    requires EducationData.WellFormedSheet(sheet) && sheet.width >= MinWidth
    ensures LoadRates(sheet) == Ok(Frame(RateOutput, Filter(Map(Filter(sheet.rows, IsTotalRow), RateRow), Complete)))
  {
    var width := sheet.width;
    FilterFieldsPresent(width);
    RateFieldsPresent(width);
    var labelled := LabelSheet(sheet);
    var totals := Where(labelled, TotalTotal).value;
    TotalsByPosition(width, sheet.rows);
    var kept := Filter(sheet.rows, IsTotalRow);
    assert totals.rows == kept;
    var picked := Select(totals, RateFields).value;
    forall i | 0 <= i < |kept|
      ensures CleanRow(picked.rows[i]) == RateRow(kept[i])
    {
      PickedRow(width, kept[i], picked.rows[i]);
    }
    assert Map(picked.rows, CleanRow) == Map(kept, RateRow);
  }

  /** Every row the loader returns is complete, with a key of at least
      seven characters and two rates on the thousandths grid. */
  lemma LoadedRowShape(sheet: EducationData.Sheet, row: Row)
    requires EducationData.WellFormedSheet(sheet) && sheet.width >= MinWidth
    requires row in LoadRates(sheet).value.rows
    ensures |row| == |RateOutput| && Complete(row)
    ensures row[0].Str? && |row[0].s| >= KeyWidth
    ensures forall j :: 1 <= j < |row| ==> row[j].Float? && row[j].d.scale == 3
  {
    LoadRatesRows(sheet);
    var kept := Filter(sheet.rows, IsTotalRow);
    var built := Map(kept, RateRow);
    assert LoadRates(sheet).value.rows == Filter(built, Complete);
    assert row in built && Complete(row);
    var raw := MapMemberFrom(kept, RateRow, row);
    RateRowShape(raw, row);
  }

  lemma RateRowShape(raw: Row, row: Row)
    requires row == RateRow(raw) && Complete(row)
    ensures |row| == |RateOutput|
    ensures row[0].Str? && |row[0].s| >= KeyWidth
    ensures forall j :: 1 <= j < |row| ==> row[j].Float? && row[j].d.scale == 3
  {
    assert !row[0].Missing? && !row[1].Missing? && !row[2].Missing?;
  }

  // ---------------------------------------------------------------------
  // Conversion and input selection

  /** `converter_xlsx_para_csv`: the code column, when there is one, is
      stringified and zero-padded; nothing else changes. */
  function ConvertSheet(f: Frame): (r: Frame)
    requires WellFormed(f)
    ensures r.columns == f.columns && WellFormed(r) && |r.rows| == |f.rows|
    ensures "CO_MUNICIPIO" !in f.columns ==> r == f
    ensures forall i, j :: 0 <= i < |f.rows| && 0 <= j < |f.columns| ==>
              r.rows[i][j] == if f.columns[j] == "CO_MUNICIPIO" && "CO_MUNICIPIO" !in f.columns[..j]
                              then Str(PaddedKey(f.rows[i][j])) else f.rows[i][j]
  {
    if "CO_MUNICIPIO" in f.columns then MapColumn(f, "CO_MUNICIPIO", (c: Cell) => Str(PaddedKey(c))).value
    else
      assert forall j :: 0 <= j < |f.columns| ==> f.columns[j] != "CO_MUNICIPIO";
      f
  }

  /** The CSV written next to the workbook: every ".xlsx" in the path
      becomes ".csv". */
  function CsvPath(path: string): string
  {
    ReplaceAll(path, ".xlsx", ".csv")
  }

  /** A path with no earlier ".xlsx" just swaps the extension:
      "./tx_rend.xlsx" becomes "./tx_rend.csv". */
  lemma CsvPathSwapsExtension(stem: string)
    requires NoOccurrenceBefore(stem, ".xlsx")
    ensures CsvPath(stem + ".xlsx") == stem + ".csv"
  {
    ReplaceAllTrailing(stem, ".xlsx", ".csv");
  }

  /** Every occurrence is rewritten, including one inside a directory name:
      a path made of parts joined by ".xlsx" becomes the same parts joined
      by ".csv", so "a.xlsx/b.xlsx" becomes "a.csv/b.csv". */
  lemma CsvPathRewritesDirectories(parts: seq<string>)
    requires |parts| > 0
    requires forall k :: 0 <= k < |parts| - 1 ==> NoOccurrenceBefore(parts[k], ".xlsx")
    requires !Contains(parts[|parts| - 1], ".xlsx")
    ensures CsvPath(Join(parts, ".xlsx")) == Join(parts, ".csv")
  {
    ReplaceAllJoin(parts, ".xlsx", ".csv");
  }

  /** Where the workbook comes from. */
  datatype InputSource = LocalFile(path: string) | Download(url: string)

  /** `processar_dados_inep`'s choice: an existing local file wins, then a
      URL; with neither a `ValueError` is raised. Empty strings are falsy
      in the source and count as absent. */
  function ChooseSource(local: Option<string>, localExists: bool, url: Option<string>): (r: Result<InputSource, string>)
    ensures r.Ok? && r.value.LocalFile? <==> local.Some? && local.value != "" && localExists
    ensures r.Ok? && r.value.LocalFile? ==> r.value.path == local.value
    ensures r.Ok? && r.value.Download? <==>
              !(local.Some? && local.value != "" && localExists) && url.Some? && url.value != ""
    ensures r.Ok? && r.value.Download? ==> r.value.url == url.value
    ensures r.Err? <==> !(local.Some? && local.value != "" && localExists) && !(url.Some? && url.value != "")
  {
    if local.Some? && local.value != "" && localExists then Ok(LocalFile(local.value))
    else if url.Some? && url.value != "" then Ok(Download(url.value))
    else Err("ValueError")
  }
}
