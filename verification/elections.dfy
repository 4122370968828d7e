/** docs/eleicoes.py: the elected mayors with their party, region and state,
    keyed by the zero-padded municipality code, left-joined onto the pass
    rates so that every municipality of the rate table is kept. */
module Elections {
  import opened Outcomes
  import opened Seqs
  import opened Cells
  import opened Frames
  import opened MunicipalityKeys
  import MergeData
  import InepRates

  const LoaderFields: seq<string> := ["codibge", "partido", "regiao", "uf"]
  const LoaderColumns: seq<string> := ["ID_MUNICIPIO", "partido", "regiao", "uf"]

  /** The column order of the combined table. */
  const CombinedColumns: seq<string> := [
    "ID_MUNICIPIO", "uf", "regiao", "partido", "TX_APROVACAO_5ANO", "TX_APROVACAO_9ANO"
  ]

  /** The elected mayors, projected to code, party, region and state, with
      the code padded to seven characters and relabelled as the key. */
  function LoadElections(table: Frame): (r: FrameResult)
    requires WellFormed(table)
    ensures r.Ok? <==> (forall k :: 0 <= k < |MergeData.ElectedMayors| ==> MergeData.ElectedMayors[k].0 in table.columns) &&
                       (forall n :: n in LoaderFields ==> n in table.columns)
    ensures r.Err? ==> r.error.KeyError?
    ensures r.Ok? ==> r.value.columns == LoaderColumns && WellFormed(r.value)
    ensures r.Ok? ==> forall row :: row in r.value.rows ==> At(row, 0).Str? && |At(row, 0).s| >= KeyWidth
  {
    var elected :- Where(table, MergeData.ElectedMayors);
    var picked :- Select(elected, LoaderFields);
    Ok(Relabel(picked))
  }

  /** The election table carries every label the loader reads. */
  predicate HasLoaderLabels(columns: seq<string>)
  {
    "cargo" in columns && "situacao" in columns && "codibge" in columns &&
    "partido" in columns && "regiao" in columns && "uf" in columns
  }

  /** The loader succeeds exactly when the table carries those labels. */
  lemma LoadElectionsSucceeds(table: Frame)
    requires WellFormed(table)
    ensures LoadElections(table).Ok? <==> HasLoaderLabels(table.columns)
  {
    assert MergeData.ElectedMayors[0].0 == "cargo" && MergeData.ElectedMayors[1].0 == "situacao";
    assert LoaderFields[0] == "codibge" && LoaderFields[1] == "partido";
    assert LoaderFields[2] == "regiao" && LoaderFields[3] == "uf";
  }

  /** The padding of `codibge` and its renaming to `ID_MUNICIPIO`. */
  function Relabel(picked: Frame): (r: Frame)
    requires WellFormed(picked) && picked.columns == LoaderFields
    ensures r.columns == LoaderColumns && WellFormed(r) && |r.rows| == |picked.rows|
    ensures forall i :: 0 <= i < |picked.rows| ==> r.rows[i] == [MergeData.PaddedCell(picked.rows[i][0])] + picked.rows[i][1..]
  {
    MapColumnFirst(picked, MergeData.PaddedCell);
    var padded := MapColumn(picked, "codibge", MergeData.PaddedCell).value;
    SetColumns(padded, LoaderColumns).value
  }

  /** What one election row becomes. */
  function LoaderRow(columns: seq<string>): Row -> Row
  {
    (row: Row) => [MergeData.PaddedCell(ValueIn(columns, row, "codibge")), ValueIn(columns, row, "partido"),
                   ValueIn(columns, row, "regiao"), ValueIn(columns, row, "uf")]
  }

  /** Row by row, the loaded table is every elected mayor's padded code,
      party, region and state, in the order of the election table. */
  lemma LoadElectionsRows(table: Frame)
    requires WellFormed(table) && HasLoaderLabels(table.columns)
    ensures LoadElections(table).Ok?
    ensures LoadElections(table).value.rows ==
              Map(Filter(table.rows, Passes(table.columns, MergeData.ElectedMayors)), LoaderRow(table.columns))
  {
    LoadElectionsSucceeds(table);
    var elected := Where(table, MergeData.ElectedMayors).value;
    var picked := Select(elected, LoaderFields).value;
    var loaded := Relabel(picked);
    forall i | 0 <= i < |elected.rows|
      ensures loaded.rows[i] == LoaderRow(table.columns)(elected.rows[i])
    {
      assert loaded.rows[i] in loaded.rows;
      assert picked.rows[i] in picked.rows;
      LoadedRow(table.columns, elected.rows[i], picked.rows[i], loaded.rows[i]);
    }
  }

  lemma LoadedRow(columns: seq<string>, row: Row, picked: Row, loaded: Row)
    requires |picked| == |loaded| == |LoaderFields|
    requires forall k :: 0 <= k < |LoaderFields| ==> picked[k] == ValueIn(columns, row, LoaderFields[k])
    requires loaded == [MergeData.PaddedCell(picked[0])] + picked[1..]
    ensures loaded == LoaderRow(columns)(row)
  {
    assert picked[0] == ValueIn(columns, row, LoaderFields[0]) && LoaderFields[0] == "codibge";
    assert picked[1] == ValueIn(columns, row, LoaderFields[1]) && LoaderFields[1] == "partido";
    assert picked[2] == ValueIn(columns, row, LoaderFields[2]) && LoaderFields[2] == "regiao";
    assert picked[3] == ValueIn(columns, row, LoaderFields[3]) && LoaderFields[3] == "uf";
    assert loaded == [MergeData.PaddedCell(picked[0]), picked[1], picked[2], picked[3]];
  }

  /** The election data added to a rate table: a left join on the key, so
      every rate row is kept, then the fixed column order. A missing label
      raises `KeyError`. */
  function AddElections(education: Frame, table: Frame): (r: FrameResult)
    requires WellFormed(education) && WellFormed(table)
    ensures r.Err? ==> r.error.KeyError?
    ensures r.Ok? ==> r.value.columns == CombinedColumns && WellFormed(r.value)
  {
    var mayors :- LoadElections(table);
    var joined :- Merge(education, mayors, "ID_MUNICIPIO", LeftOuter);
    Select(joined, CombinedColumns)
  }

  /** The labels of the left join of the rate table with the loaded
      elections. */
  const LeftJoined: seq<string> := [
    "ID_MUNICIPIO", "TX_APROVACAO_5ANO", "TX_APROVACAO_9ANO", "partido", "regiao", "uf"
  ]

  /** Where each combined column sits in a joined row. */
  const CombinedOrder: seq<nat> := [0, 5, 4, 3, 1, 2]

  function Arranged(row: Row): (r: Row)
    ensures |r| == |CombinedColumns|
  {
    Pick(row, CombinedOrder)
  }

  lemma LeftJoinedSchema()
    ensures JoinedColumns(InepRates.RateOutput, LoaderColumns, "ID_MUNICIPIO", 0) == LeftJoined
    ensures IndexOf(InepRates.RateOutput, "ID_MUNICIPIO") == Some(0)
    ensures IndexOf(LoaderColumns, "ID_MUNICIPIO") == Some(0)
  {
    var rest := Omit(LoaderColumns, 0);
    assert rest == ["partido", "regiao", "uf"];
    assert InepRates.RateOutput + rest == LeftJoined;
    SuffixedUnchanged(InepRates.RateOutput, rest, "ID_MUNICIPIO", "_x");
    SuffixedUnchanged(rest, InepRates.RateOutput, "ID_MUNICIPIO", "_y");
  }

  lemma LeftJoinedDistinct()
    ensures forall k :: 0 <= k < |LeftJoined| ==> LeftJoined[k] !in LeftJoined[..k]
  {
    assert LeftJoined[1][13] != LeftJoined[2][13];
  }

  /** Selecting the combined columns from a joined row is `Arranged`. */
  lemma ArrangePositions(row: Row)
    ensures forall k :: 0 <= k < |CombinedColumns| ==> ValueIn(LeftJoined, row, CombinedColumns[k]) == Arranged(row)[k]
  {
    LeftJoinedDistinct();
    forall k | 0 <= k < |CombinedColumns|
      ensures ValueIn(LeftJoined, row, CombinedColumns[k]) == Arranged(row)[k]
    {
      var p := CombinedOrder[k];
      assert CombinedColumns[k] == LeftJoined[p];
      IndexOfAt(LeftJoined, p);
    }
  }

  /** Selecting the combined columns of a joined frame arranges every row. */
  lemma SelectCombined(joined: Frame)
    requires WellFormed(joined) && joined.columns == LeftJoined
    ensures Select(joined, CombinedColumns).Ok?
    ensures Select(joined, CombinedColumns).value.rows == Map(joined.rows, Arranged)
  {
    var arranged := Select(joined, CombinedColumns).value;
    forall i | 0 <= i < |joined.rows|
      ensures arranged.rows[i] == Arranged(joined.rows[i])
    {
      SelectedRowArranged(joined, i);
    }
  }

  lemma SelectedRowArranged(joined: Frame, i: nat)
    requires WellFormed(joined) && joined.columns == LeftJoined && i < |joined.rows|
    ensures Select(joined, CombinedColumns).Ok?
    ensures Select(joined, CombinedColumns).value.rows[i] == Arranged(joined.rows[i])
  {
    var selected := Select(joined, CombinedColumns).value;
    var row := selected.rows[i];
    assert row in selected.rows;
    ArrangePositions(joined.rows[i]);
    forall k | 0 <= k < |CombinedColumns|
      ensures row[k] == Arranged(joined.rows[i])[k]
    {
    }
  }

  lemma PaddedArranged(e: Row)
    requires |e| == |InepRates.RateOutput|
    ensures Arranged(e + seq(3, _ => Missing)) == [At(e, 0), Missing, Missing, Missing, At(e, 1), At(e, 2)]
  {
  }

  lemma PairArranged(e: Row, m: Row)
    requires |e| == |InepRates.RateOutput| && |m| == |LoaderColumns|
    ensures Arranged(e + Omit(m, 0)) == [At(e, 0), At(m, 3), At(m, 2), At(m, 1), At(e, 1), At(e, 2)]
  {
  }

  lemma PrefixArranged(e: Row, row: Row)
    requires |e| == |InepRates.RateOutput| && |e| <= |row| && row[..|e|] == e
    ensures Arranged(row)[0] == At(e, 0) && Arranged(row)[4] == At(e, 1) && Arranged(row)[5] == At(e, 2)
  {
    assert row[0] == e[0] && row[1] == e[1] && row[2] == e[2];
  }

  /** With the rate table's columns, the combined rows are the arranged
      rows of the left join, in left-join order. */
  lemma AddElectionsRows(education: Frame, table: Frame)
    requires WellFormed(education) && WellFormed(table)
    requires education.columns == InepRates.RateOutput && HasLoaderLabels(table.columns)
    ensures LoadElections(table).Ok? && AddElections(education, table).Ok?
    ensures AddElections(education, table).value.rows ==
              Map(JoinRows(LeftOuter, education.rows, LoadElections(table).value.rows, 0, 0, 3), Arranged)
  {
    LoadElectionsSucceeds(table);
    var mayors := LoadElections(table).value;
    LeftJoinedSchema();
    var joined := Merge(education, mayors, "ID_MUNICIPIO", LeftOuter).value;
    assert joined.columns == LeftJoined;
    SelectCombined(joined);
    AddElectionsUnfold(education, table);
  }

  lemma AddElectionsUnfold(education: Frame, table: Frame)
    requires WellFormed(education) && WellFormed(table) && LoadElections(table).Ok?
    requires Merge(education, LoadElections(table).value, "ID_MUNICIPIO", LeftOuter).Ok?
    ensures AddElections(education, table) ==
              Select(Merge(education, LoadElections(table).value, "ID_MUNICIPIO", LeftOuter).value, CombinedColumns)
  {
  }

  /** No municipality of the rate table is lost: the combined table has at
      least as many rows, and exactly as many when no code has more than
      one elected mayor. */
  lemma KeepsEveryMunicipality(education: Frame, table: Frame)
    requires WellFormed(education) && WellFormed(table)
    requires education.columns == InepRates.RateOutput && HasLoaderLabels(table.columns)
    ensures LoadElections(table).Ok? && AddElections(education, table).Ok?
    ensures |AddElections(education, table).value.rows| >= |education.rows|
    ensures |AddElections(education, table).value.rows| == |education.rows| <==>
              forall e :: e in education.rows ==> |Partners(e, LoadElections(table).value.rows, 0, 0)| <= 1
  {
    LoadElectionsSucceeds(table);
    AddElectionsRows(education, table);
    LeftJoinSize(education.rows, LoadElections(table).value.rows, 0, 0, 3);
  }

  /** A municipality without an elected mayor keeps its rates, with the
      state, region and party missing. */
  lemma UnmatchedMunicipality(education: Frame, table: Frame, e: Row)
    requires WellFormed(education) && WellFormed(table)
    requires education.columns == InepRates.RateOutput && LoadElections(table).Ok?
    requires e in education.rows
    requires forall m :: m in LoadElections(table).value.rows ==> At(m, 0) != At(e, 0)
    ensures AddElections(education, table).Ok?
    ensures [At(e, 0), Missing, Missing, Missing, At(e, 1), At(e, 2)] in AddElections(education, table).value.rows
  {
    LoadElectionsSucceeds(table);
    var mayors := LoadElections(table).value.rows;
    AddElectionsRows(education, table);
    UnmatchedRow(education.rows, mayors, e);
  }

  lemma UnmatchedRow(rates: seq<Row>, mayors: seq<Row>, e: Row)
    requires e in rates && |e| == |InepRates.RateOutput|
    requires forall m :: m in mayors ==> At(m, 0) != At(e, 0)
    ensures [At(e, 0), Missing, Missing, Missing, At(e, 1), At(e, 2)] in Map(JoinRows(LeftOuter, rates, mayors, 0, 0, 3), Arranged)
  {
    PartnersEmpty(e, mayors, 0, 0);
    UnmatchedRowPadded(rates, mayors, 0, 0, 3, e);
    MapMember(JoinRows(LeftOuter, rates, mayors, 0, 0, 3), Arranged, e + seq(3, _ => Missing));
    PaddedArranged(e);
  }

  /** A municipality with an elected mayor gets one row with the mayor's
      state, region and party beside its rates. */
  lemma MatchedMunicipality(education: Frame, table: Frame, e: Row, m: Row)
    requires WellFormed(education) && WellFormed(table)
    requires education.columns == InepRates.RateOutput && LoadElections(table).Ok?
    requires e in education.rows && m in LoadElections(table).value.rows && At(m, 0) == At(e, 0)
    ensures AddElections(education, table).Ok?
    ensures [At(e, 0), At(m, 3), At(m, 2), At(m, 1), At(e, 1), At(e, 2)] in AddElections(education, table).value.rows
  {
    LoadElectionsSucceeds(table);
    var mayors := LoadElections(table).value.rows;
    AddElectionsRows(education, table);
    MatchedRow(education.rows, mayors, e, m);
  }

  lemma MatchedRow(rates: seq<Row>, mayors: seq<Row>, e: Row, m: Row)
    requires e in rates && m in mayors && At(m, 0) == At(e, 0)
    requires |e| == |InepRates.RateOutput| && |m| == |LoaderColumns|
    ensures [At(e, 0), At(m, 3), At(m, 2), At(m, 1), At(e, 1), At(e, 2)] in Map(JoinRows(LeftOuter, rates, mayors, 0, 0, 3), Arranged)
  {
    MatchedPairsAppear(LeftOuter, rates, mayors, 0, 0, 3, e, m);
    MapMember(JoinRows(LeftOuter, rates, mayors, 0, 0, 3), Arranged, e + Omit(m, 0));
    PairArranged(e, m);
  }

  /** Every combined row carries the key and the rates of a row of the rate
      table: the join adds columns but never invents municipalities. */
  lemma RowsComeFromRates(education: Frame, table: Frame)
    requires WellFormed(education) && WellFormed(table)
    requires education.columns == InepRates.RateOutput && HasLoaderLabels(table.columns)
    ensures LoadElections(table).Ok? && AddElections(education, table).Ok?
    ensures forall row :: row in AddElections(education, table).value.rows ==>
              exists e :: e in education.rows && At(row, 0) == At(e, 0) && At(row, 4) == At(e, 1) && At(row, 5) == At(e, 2)
  {
    LoadElectionsSucceeds(table);
    var mayors := LoadElections(table).value.rows;
    AddElectionsRows(education, table);
    forall row | row in AddElections(education, table).value.rows
      ensures exists e :: e in education.rows && At(row, 0) == At(e, 0) && At(row, 4) == At(e, 1) && At(row, 5) == At(e, 2)
    {
      RowFromRates(education.rows, mayors, row);
    }
  }

  lemma RowFromRates(rates: seq<Row>, mayors: seq<Row>, row: Row)
    requires forall e :: e in rates ==> |e| == |InepRates.RateOutput|
    requires row in Map(JoinRows(LeftOuter, rates, mayors, 0, 0, 3), Arranged)
    ensures exists e :: e in rates && At(row, 0) == At(e, 0) && At(row, 4) == At(e, 1) && At(row, 5) == At(e, 2)
  {
    var joined := MapMemberFrom(JoinRows(LeftOuter, rates, mayors, 0, 0, 3), Arranged, row);
    JoinRowsExtendLefts(LeftOuter, rates, mayors, 0, 0, 3, joined);
    var e :| e in rates && |e| <= |joined| && joined[..|e|] == e;
    PrefixArranged(e, joined);
  }
}
