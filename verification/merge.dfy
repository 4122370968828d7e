/** sdp-data/merge_data.py: the elected mayors are projected to key and
    party, the keys of both sides are turned into text (zero-padded on the
    election side only), the two tables are inner-joined on the key, the
    columns are put in a fixed order and rows without a party are dropped.
    Also the decision whether the run can start and whether the election
    file must be downloaded. */
module MergeData {
  import opened Outcomes
  import opened Seqs
  import opened Text
  import opened Cells
  import opened Frames
  import opened MunicipalityKeys
  import EducationData

  /** The row filter on the election table: mayors who won. */
  const ElectedMayors: seq<(string, string)> := [("cargo", "prefeito"), ("situacao", "ELEITO")]

  const ElectionFields: seq<string> := ["codibge", "partido"]
  const ElectionColumns: seq<string> := ["ID_MUNICIPIO", "PARTIDO"]

  /** The order of the combined table. */
  const FinalColumns: seq<string> := [
    "ID_MUNICIPIO", "PARTIDO",
    "TX_APROVACAO_5ANO", "TX_REPROVACAO_5ANO", "TX_ABANDONO_5ANO",
    "TX_APROVACAO_9ANO", "TX_REPROVACAO_9ANO", "TX_ABANDONO_9ANO"
  ]

  /** The election-side key: `astype(str).str.zfill(7)`. */
  function PaddedCell(c: Cell): (r: Cell)
    ensures r.Str? && |r.s| >= KeyWidth
  {
    Str(PaddedKey(c))
  }

  /** The education-side key: `astype(str)` only. */
  function TextCell(c: Cell): (r: Cell)
    ensures r.Str?
  {
    Str(AsStr(c))
  }

  /** What one election row becomes: the padded code and the party. */
  function ElectionRow(columns: seq<string>): Row -> Row
  {
    (row: Row) => [PaddedCell(ValueIn(columns, row, "codibge")), ValueIn(columns, row, "partido")]
  }

  /** Filter, projection, rename and key padding of the election table;
      a missing label is a `KeyError`. */
  function ElectionSide(elections: Frame): (r: FrameResult)
    requires WellFormed(elections)
    ensures r.Ok? <==> (forall k :: 0 <= k < |ElectedMayors| ==> ElectedMayors[k].0 in elections.columns) &&
                       (forall n :: n in ElectionFields ==> n in elections.columns)
    ensures r.Err? ==> r.error.KeyError?
    ensures r.Ok? ==> r.value.columns == ElectionColumns && WellFormed(r.value)
    ensures r.Ok? ==> forall row :: row in r.value.rows ==> At(row, 0).Str? && |At(row, 0).s| >= KeyWidth
  {
    var elected :- Where(elections, ElectedMayors);
    var picked :- Select(elected, ElectionFields);
    Ok(Keyed(picked))
  }

  /** The election table carries every label the merge script reads. */
  predicate HasElectionLabels(columns: seq<string>)
  {
    "cargo" in columns && "situacao" in columns && "codibge" in columns && "partido" in columns
  }

  /** The election side exists exactly when the table carries those labels. */
  lemma ElectionSideSucceeds(elections: Frame)
    requires WellFormed(elections)
    ensures ElectionSide(elections).Ok? <==> HasElectionLabels(elections.columns)
  {
    assert ElectedMayors[0].0 == "cargo" && ElectedMayors[1].0 == "situacao";
    assert ElectionFields[0] == "codibge" && ElectionFields[1] == "partido";
  }

  /** The first label the script reads and the table lacks is the one the
      `KeyError` names: "cargo", then "situacao" (the mask), then "codibge",
      then "partido" (the projection). */
  lemma ElectionSideFirstMissing(elections: Frame)
    requires WellFormed(elections)
    ensures "cargo" !in elections.columns ==> ElectionSide(elections) == Err(KeyError("cargo"))
    ensures "cargo" in elections.columns && "situacao" !in elections.columns ==>
              ElectionSide(elections) == Err(KeyError("situacao"))
    ensures "cargo" in elections.columns && "situacao" in elections.columns && "codibge" !in elections.columns ==>
              ElectionSide(elections) == Err(KeyError("codibge"))
    ensures ("cargo" in elections.columns && "situacao" in elections.columns && "codibge" in elections.columns &&
             "partido" !in elections.columns) ==> ElectionSide(elections) == Err(KeyError("partido"))
  {
    var cols := elections.columns;
    var labels := TestLabels(ElectedMayors);
    assert labels == ["cargo", "situacao"];
    if "cargo" !in cols {
      PositionsFirstAbsent(cols, labels, 0);
    } else if "situacao" !in cols {
      PositionsFirstAbsent(cols, labels, 1);
    } else {
      var elected := Where(elections, ElectedMayors).value;
      if "codibge" !in cols {
        PositionsFirstAbsent(elected.columns, ElectionFields, 0);
      } else if "partido" !in cols {
        PositionsFirstAbsent(elected.columns, ElectionFields, 1);
      }
    }
  }

  /** The rename to `ID_MUNICIPIO`/`PARTIDO` and the padding of the key. */
  function Keyed(picked: Frame): (r: Frame)
    requires WellFormed(picked) && picked.columns == ElectionFields
    ensures r.columns == ElectionColumns && WellFormed(r) && |r.rows| == |picked.rows|
    ensures forall i :: 0 <= i < |picked.rows| ==>
              r.rows[i] == [PaddedCell(picked.rows[i][0]), picked.rows[i][1]]
  {
    var renamed := SetColumns(picked, ElectionColumns).value;
    var keyed := MapColumn(renamed, "ID_MUNICIPIO", PaddedCell).value;
    assert forall i :: 0 <= i < |picked.rows| ==>
             keyed.rows[i] == [PaddedCell(picked.rows[i][0]), picked.rows[i][1]] by {
      forall i | 0 <= i < |picked.rows|
        ensures keyed.rows[i] == [PaddedCell(picked.rows[i][0]), picked.rows[i][1]]
      {
        assert keyed.rows[i][0] == PaddedCell(picked.rows[i][0]);
        assert keyed.rows[i][1] == picked.rows[i][1];
      }
    }
    keyed
  }

  /** Row by row, the election side is every elected mayor's padded
      municipality code and party, in the order of the election table. */
  lemma ElectionSideRows(elections: Frame)
    requires WellFormed(elections) && HasElectionLabels(elections.columns)
    ensures ElectionSide(elections).Ok?
    ensures ElectionSide(elections).value.rows ==
              Map(Filter(elections.rows, Passes(elections.columns, ElectedMayors)), ElectionRow(elections.columns))
  {
    ElectionSideSucceeds(elections);
    var elected := Where(elections, ElectedMayors).value;
    var picked := Select(elected, ElectionFields).value;
    var keyed := Keyed(picked);
    forall i | 0 <= i < |elected.rows|
      ensures keyed.rows[i] == ElectionRow(elections.columns)(elected.rows[i])
    {
      assert picked.rows[i][0] == ValueIn(elected.columns, elected.rows[i], ElectionFields[0]);
      assert picked.rows[i][1] == ValueIn(elected.columns, elected.rows[i], ElectionFields[1]);
    }
  }

  /** The education key turned into its text; every other cell is kept. */
  function EducationSide(education: Frame): (r: FrameResult)
    requires WellFormed(education)
    ensures r.Ok? <==> "ID_MUNICIPIO" in education.columns
    ensures r.Err? ==> r.error == KeyError("ID_MUNICIPIO")
    ensures r.Ok? ==> r.value.columns == education.columns && WellFormed(r.value)
    ensures r.Ok? ==> |r.value.rows| == |education.rows|
    ensures r.Ok? ==> forall i, j :: 0 <= i < |education.rows| && 0 <= j < |education.columns| ==>
              r.value.rows[i][j] == if education.columns[j] == "ID_MUNICIPIO" && "ID_MUNICIPIO" !in education.columns[..j]
                                    then Str(AsStr(education.rows[i][j])) else education.rows[i][j]
  {
    MapColumn(education, "ID_MUNICIPIO", TextCell)
  }

  /** The combination: the election side first (mask, projection, rename,
      padded key), then the education key to text, the inner join on the
      key, the fixed column order, and rows without a party dropped. A
      missing label raises `KeyError`, and the election table's labels are
      read before the education key. */
  function Combine(education: Frame, elections: Frame): (r: FrameResult)
    requires WellFormed(education) && WellFormed(elections)
    ensures r.Err? ==> r.error.KeyError?
    ensures r.Ok? ==> r.value.columns == FinalColumns && WellFormed(r.value)
    ensures r.Ok? ==> forall row: Row :: row in r.value.rows ==> !row[1].Missing?
  {
    var mayors :- ElectionSide(elections);
    var keyed :- EducationSide(education);
    var joined :- Merge(keyed, mayors, "ID_MUNICIPIO", Inner);
    var ordered :- Select(joined, FinalColumns);
    assert IndexOf(FinalColumns, "PARTIDO") == Some(1);
    DropMissingIn(ordered, "PARTIDO")
  }

  /** Which `KeyError` a run raises: the election labels are read first, in
      the order "cargo", "situacao", "codibge", "partido", and only then the
      education key "ID_MUNICIPIO". */
  lemma CombineFirstMissing(education: Frame, elections: Frame)
    requires WellFormed(education) && WellFormed(elections)
    ensures "cargo" !in elections.columns ==> Combine(education, elections) == Err(KeyError("cargo"))
    ensures ("cargo" in elections.columns && "situacao" !in elections.columns) ==>
              Combine(education, elections) == Err(KeyError("situacao"))
    ensures ("cargo" in elections.columns && "situacao" in elections.columns && "codibge" !in elections.columns) ==>
              Combine(education, elections) == Err(KeyError("codibge"))
    ensures ("cargo" in elections.columns && "situacao" in elections.columns && "codibge" in elections.columns &&
             "partido" !in elections.columns) ==> Combine(education, elections) == Err(KeyError("partido"))
    ensures (HasElectionLabels(elections.columns) && "ID_MUNICIPIO" !in education.columns) ==>
              Combine(education, elections) == Err(KeyError("ID_MUNICIPIO"))
  {
    ElectionSideFirstMissing(elections);
    ElectionSideSucceeds(elections);
  }

  /** The labels of the join when the education table has the standard
      seven columns: those seven, then the party. */
  const Joined: seq<string> := [
    "ID_MUNICIPIO",
    "TX_APROVACAO_5ANO", "TX_REPROVACAO_5ANO", "TX_ABANDONO_5ANO",
    "TX_APROVACAO_9ANO", "TX_REPROVACAO_9ANO", "TX_ABANDONO_9ANO",
    "PARTIDO"
  ]

  /** Where each final column sits in a joined row. */
  const FinalOrder: seq<nat> := [0, 7, 1, 2, 3, 4, 5, 6]

  /** The column order of the final table, read off the joined row. */
  function Reordered(row: Row): (r: Row)
    ensures |r| == |FinalColumns|
  {
    Pick(row, FinalOrder)
  }

  /** One output row from an education row and an elected mayor's row. */
  function Combined(e: Row, m: Row): Row
  {
    [TextCell(At(e, 0)), At(m, 1), At(e, 1), At(e, 2), At(e, 3), At(e, 4), At(e, 5), At(e, 6)]
  }

  /** With the standard schemas the join adds no suffix and keys on the
      first column of both sides. */
  lemma JoinedSchema()
    ensures JoinedColumns(EducationData.OutputColumns, ElectionColumns, "ID_MUNICIPIO", 0) == Joined
    ensures IndexOf(EducationData.OutputColumns, "ID_MUNICIPIO") == Some(0)
    ensures IndexOf(ElectionColumns, "ID_MUNICIPIO") == Some(0)
  {
    var rest := Omit(ElectionColumns, 0);
    assert rest == ["PARTIDO"];
    assert EducationData.OutputColumns + rest == Joined;
    EducationData.OutputColumnsDistinct();
    SuffixedUnchanged(EducationData.OutputColumns, rest, "ID_MUNICIPIO", "_x");
    SuffixedUnchanged(rest, EducationData.OutputColumns, "ID_MUNICIPIO", "_y");
  }

  lemma JoinedDistinct()
    ensures forall k :: 0 <= k < |Joined| ==> Joined[k] !in Joined[..k]
  {
    assert Joined[1][13] != Joined[4][13];
    assert Joined[2][14] != Joined[5][14];
    assert Joined[3][12] != Joined[6][12];
  }

  /** Selecting the final columns from a joined row is `Reordered`. */
  lemma ReorderPositions(row: Row)
    ensures forall k :: 0 <= k < |FinalColumns| ==> ValueIn(Joined, row, FinalColumns[k]) == Reordered(row)[k]
  {
    JoinedDistinct();
    forall k | 0 <= k < |FinalColumns|
      ensures ValueIn(Joined, row, FinalColumns[k]) == Reordered(row)[k]
    {
      var p := FinalOrder[k];
      assert FinalColumns[k] == Joined[p];
      IndexOfAt(Joined, p);
    }
  }

  /** With the standard schemas the combination succeeds, and its rows are
      the reordered join rows that carry a party. */
  lemma CombineStages(education: Frame, elections: Frame)
    requires WellFormed(education) && WellFormed(elections)
    requires education.columns == EducationData.OutputColumns && HasElectionLabels(elections.columns)
    ensures ElectionSide(elections).Ok? && Combine(education, elections).Ok?
    ensures forall row :: row in Combine(education, elections).value.rows <==>
              row in Map(JoinRows(Inner, EducationSide(education).value.rows, ElectionSide(elections).value.rows, 0, 0, 1), Reordered) &&
              !At(row, 1).Missing?
  {
    ElectionSideSucceeds(elections);
    var keyed := EducationSide(education).value;
    var mayors := ElectionSide(elections).value;
    JoinedSchema();
    var joined := Merge(keyed, mayors, "ID_MUNICIPIO", Inner).value;
    assert joined.columns == Joined;
    SelectFinal(joined);
    var ordered := Select(joined, FinalColumns).value;
    CombineUnfold(education, elections);
    DropParty(ordered);
  }

  /** Dropping rows without a party tests the second final column. */
  lemma DropParty(ordered: Frame)
    requires WellFormed(ordered) && ordered.columns == FinalColumns
    ensures DropMissingIn(ordered, "PARTIDO").Ok?
    ensures forall row :: row in DropMissingIn(ordered, "PARTIDO").value.rows <==>
              row in ordered.rows && !At(row, 1).Missing?
  {
    assert IndexOf(FinalColumns, "PARTIDO") == Some(1);
  }

  lemma CombineUnfold(education: Frame, elections: Frame)
    requires WellFormed(education) && WellFormed(elections)
    requires EducationSide(education).Ok? && ElectionSide(elections).Ok?
    requires Merge(EducationSide(education).value, ElectionSide(elections).value, "ID_MUNICIPIO", Inner).Ok?
    requires Select(Merge(EducationSide(education).value, ElectionSide(elections).value, "ID_MUNICIPIO", Inner).value, FinalColumns).Ok?
    ensures Combine(education, elections) ==
              DropMissingIn(Select(Merge(EducationSide(education).value, ElectionSide(elections).value, "ID_MUNICIPIO", Inner).value, FinalColumns).value, "PARTIDO")
  {
  }

  /** Selecting the final columns of a joined frame reorders every row. */
  lemma SelectFinal(joined: Frame)
    requires WellFormed(joined) && joined.columns == Joined
    ensures Select(joined, FinalColumns).Ok?
    ensures Select(joined, FinalColumns).value.rows == Map(joined.rows, Reordered)
  {
    FinalColumnsJoined();
    var ordered := Select(joined, FinalColumns).value;
    forall i | 0 <= i < |joined.rows|
      ensures ordered.rows[i] == Reordered(joined.rows[i])
    {
      assert ordered.rows[i] in ordered.rows;
      SelectedRowReordered(joined.rows[i], ordered.rows[i]);
    }
  }

  lemma FinalColumnsJoined()
    ensures forall n :: n in FinalColumns ==> n in Joined
  {
    forall n | n in FinalColumns
      ensures n in Joined
    {
      var k :| 0 <= k < |FinalColumns| && FinalColumns[k] == n;
      assert FinalColumns[k] == Joined[FinalOrder[k]];
    }
  }

  lemma SelectedRowReordered(row: Row, out: Row)
    requires |out| == |FinalColumns|
    requires forall k :: 0 <= k < |FinalColumns| ==> out[k] == ValueIn(Joined, row, FinalColumns[k])
    ensures out == Reordered(row)
  {
    ReorderPositions(row);
  }

  /** A keyed education row followed by a mayor's party, reordered, is the
      combined row of the original education row and the mayor. */
  lemma CombinedRow(e: Row, keyedRow: Row, m: Row)
    requires |e| == |keyedRow| == |EducationData.OutputColumns| && |m| == |ElectionColumns|
    requires keyedRow[0] == TextCell(e[0]) && forall j :: 1 <= j < |e| ==> keyedRow[j] == e[j]
    ensures Reordered(keyedRow + Omit(m, 0)) == Combined(e, m)
  {
  }

  /** The keyed education rows, position by position. */
  lemma KeyedRows(education: Frame)
    requires WellFormed(education) && education.columns == EducationData.OutputColumns
    ensures EducationSide(education).Ok?
    ensures |EducationSide(education).value.rows| == |education.rows|
    ensures forall i :: 0 <= i < |education.rows| ==>
              EducationSide(education).value.rows[i][0] == TextCell(education.rows[i][0]) &&
              forall j :: 1 <= j < |education.columns| ==> EducationSide(education).value.rows[i][j] == education.rows[i][j]
  {
    EducationData.OutputColumnsDistinct();
    var side := EducationSide(education).value;
    assert education.columns[..0] == [];
    forall i | 0 <= i < |education.rows|
      ensures side.rows[i][0] == TextCell(education.rows[i][0])
      ensures forall j :: 1 <= j < |education.columns| ==> side.rows[i][j] == education.rows[i][j]
    {
      assert education.rows[i] in education.rows;
      forall j | 1 <= j < |education.columns|
        ensures side.rows[i][j] == education.rows[i][j]
      {
        assert education.columns[j] != "ID_MUNICIPIO";
      }
    }
  }

  /** The keyed rows are the education rows with their key as text. */
  ghost predicate KeyedFrom(keyedRows: seq<Row>, rows: seq<Row>)
  {
    |keyedRows| == |rows| &&
    forall i :: 0 <= i < |rows| ==>
      |rows[i]| == |keyedRows[i]| == |EducationData.OutputColumns| && keyedRows[i][0] == TextCell(rows[i][0]) &&
      forall j :: 1 <= j < |rows[i]| ==> keyedRows[i][j] == rows[i][j]
  }

  /** Every reordered inner-join row is the combined row of an education
      row and a mayor with the same key text. */
  lemma JoinedRowIsCombined(rows: seq<Row>, keyedRows: seq<Row>, mayorRows: seq<Row>, row: Row)
    requires KeyedFrom(keyedRows, rows)
    requires forall m :: m in mayorRows ==> |m| == |ElectionColumns|
    requires row in Map(JoinRows(Inner, keyedRows, mayorRows, 0, 0, 1), Reordered) && !At(row, 1).Missing?
    ensures exists e, m :: e in rows && m in mayorRows && At(m, 0) == TextCell(At(e, 0)) && !At(m, 1).Missing? && row == Combined(e, m)
  {
    var joinRows := JoinRows(Inner, keyedRows, mayorRows, 0, 0, 1);
    var i :| 0 <= i < |joinRows| && row == Reordered(joinRows[i]);
    InnerRowsAreMatchedPairs(keyedRows, mayorRows, 0, 0, 1, joinRows[i]);
    var l, m :| l in keyedRows && m in mayorRows && At(m, 0) == At(l, 0) && joinRows[i] == l + Omit(m, 0);
    var k :| 0 <= k < |keyedRows| && keyedRows[k] == l;
    var e := rows[k];
    assert e in rows;
    CombinedRow(e, l, m);
    CombinedParty(e, m);
  }

  lemma CombinedParty(e: Row, m: Row)
    ensures At(Combined(e, m), 1) == At(m, 1)
  {
  }

  /** Every education row and mayor with the same key text give a
      reordered inner-join row. */
  lemma CombinedIsJoinedRow(rows: seq<Row>, keyedRows: seq<Row>, mayorRows: seq<Row>, e: Row, m: Row)
    requires KeyedFrom(keyedRows, rows)
    requires forall m :: m in mayorRows ==> |m| == |ElectionColumns|
    requires e in rows && m in mayorRows && At(m, 0) == TextCell(At(e, 0))
    ensures Combined(e, m) in Map(JoinRows(Inner, keyedRows, mayorRows, 0, 0, 1), Reordered)
  {
    var joinRows := JoinRows(Inner, keyedRows, mayorRows, 0, 0, 1);
    var k :| 0 <= k < |rows| && rows[k] == e;
    var l := keyedRows[k];
    assert l in keyedRows;
    assert At(m, 0) == At(l, 0);
    MatchedPairsAppear(Inner, keyedRows, mayorRows, 0, 0, 1, l, m);
    CombinedRow(e, l, m);
    MapMember(joinRows, Reordered, l + Omit(m, 0));
  }

  /** A mayor row joins an education row: same key text, and a party. */
  function JoinsWith(e: Row): Row -> bool
  {
    (m: Row) => At(m, 0) == TextCell(At(e, 0)) && PartyPresent(m)
  }

  predicate PartyPresent(m: Row)
  {
    !At(m, 1).Missing?
  }

  function CombineWith(e: Row): Row -> Row
  {
    (m: Row) => Combined(e, m)
  }

  /** What one education row contributes: one combined row per elected
      mayor with its key text and a party, in the election table's order. */
  function ContributionFrom(mayors: seq<Row>): Row -> seq<Row>
  {
    (e: Row) => Map(Filter(mayors, JoinsWith(e)), CombineWith(e))
  }

  /** The combined table as the script promises it, written independently
      of the join: education rows in order, each repeated once per matching
      mayor with a party. */
  function CombinedRows(rows: seq<Row>, mayors: seq<Row>): seq<Row>
  {
    FlatMap(rows, ContributionFrom(mayors))
  }

  /** The final table, stage by stage, in row order. */
  lemma CombineStagesInOrder(education: Frame, elections: Frame)
    requires WellFormed(education) && WellFormed(elections)
    requires education.columns == EducationData.OutputColumns && HasElectionLabels(elections.columns)
    ensures ElectionSide(elections).Ok? && Combine(education, elections).Ok?
    ensures Combine(education, elections).value.rows ==
              Filter(Map(JoinRows(Inner, EducationSide(education).value.rows, ElectionSide(elections).value.rows, 0, 0, 1), Reordered),
                     HasValueIn(FinalColumns, "PARTIDO"))
  {
    ElectionSideSucceeds(elections);
    var keyed := EducationSide(education).value;
    var mayors := ElectionSide(elections).value;
    JoinedSchema();
    assert AddedWidth(ElectionColumns) == 1;
    var joined := Merge(keyed, mayors, "ID_MUNICIPIO", Inner).value;
    assert joined.columns == Joined;
    assert joined.rows == JoinRows(Inner, keyed.rows, mayors.rows, 0, 0, 1);
    SelectFinal(joined);
    var ordered := Select(joined, FinalColumns).value;
    CombineUnfold(education, elections);
    DropPartyInOrder(ordered);
  }

  /** Dropping rows without a party keeps the rest in order. */
  lemma DropPartyInOrder(ordered: Frame)
    requires WellFormed(ordered) && ordered.columns == FinalColumns
    ensures DropMissingIn(ordered, "PARTIDO").Ok?
    ensures DropMissingIn(ordered, "PARTIDO").value.rows == Filter(ordered.rows, HasValueIn(FinalColumns, "PARTIDO"))
  {
    assert IndexOf(FinalColumns, "PARTIDO") == Some(1);
  }

  /** One keyed education row's join output, reordered and filtered on the
      party, is that education row's contribution. */
  lemma ContributionInOrder(e: Row, l: Row, mayors: seq<Row>)
    requires |e| == |l| == |EducationData.OutputColumns|
    requires l[0] == TextCell(e[0]) && forall j :: 1 <= j < |e| ==> l[j] == e[j]
    requires forall m :: m in mayors ==> |m| == |ElectionColumns|
    ensures Filter(Map(Contribution(Inner, l, mayors, 0, 0, 1), Reordered), HasValueIn(FinalColumns, "PARTIDO")) ==
              ContributionFrom(mayors)(e)
  {
    var matched := Filter(mayors, SameKey(l, 0, 0));
    assert Contribution(Inner, l, mayors, 0, 0, 1) == Map(matched, Pair(l, 0));
    PairsReordered(e, l, matched);
    PartyFilter(e, matched);
    MatchedWithParty(e, l, mayors);
  }

  /** Reordering a keyed row's pairings gives its combined rows. */
  lemma PairsReordered(e: Row, l: Row, matched: seq<Row>)
    requires |e| == |l| == |EducationData.OutputColumns|
    requires l[0] == TextCell(e[0]) && forall j :: 1 <= j < |e| ==> l[j] == e[j]
    requires forall m :: m in matched ==> |m| == |ElectionColumns|
    ensures Map(Map(matched, Pair(l, 0)), Reordered) == Map(matched, CombineWith(e))
  {
    forall m | m in matched
      ensures CombineWith(e)(m) == Reordered(Pair(l, 0)(m))
    {
      CombinedRow(e, l, m);
    }
    MapMap(matched, Pair(l, 0), Reordered, CombineWith(e));
  }

  /** Keeping the combined rows with a party keeps the mayors with a party. */
  lemma PartyFilter(e: Row, matched: seq<Row>)
    ensures Filter(Map(matched, CombineWith(e)), HasValueIn(FinalColumns, "PARTIDO")) ==
              Map(Filter(matched, PartyPresent), CombineWith(e))
  {
    assert IndexOf(FinalColumns, "PARTIDO") == Some(1);
    forall m | m in matched
      ensures PartyPresent(m) == HasValueIn(FinalColumns, "PARTIDO")(CombineWith(e)(m))
    {
      CombinedParty(e, m);
    }
    FilterMap(matched, CombineWith(e), HasValueIn(FinalColumns, "PARTIDO"), PartyPresent);
  }

  /** The partners of the keyed row that carry a party are the mayors that
      join the education row. */
  lemma MatchedWithParty(e: Row, l: Row, mayors: seq<Row>)
    requires |e| == |l| > 0 && l[0] == TextCell(e[0])
    ensures Filter(Filter(mayors, SameKey(l, 0, 0)), PartyPresent) == Filter(mayors, JoinsWith(e))
  {
    assert At(l, 0) == TextCell(At(e, 0));
    FilterFilter(mayors, SameKey(l, 0, 0), PartyPresent, JoinsWith(e));
  }

  /** The reordered inner-join rows with a party are, in order and with
      their multiplicities, the combined rows of the reference. */
  lemma {:induction false} JoinedRowsInOrder(rows: seq<Row>, keyedRows: seq<Row>, mayorRows: seq<Row>)
    requires KeyedFrom(keyedRows, rows)
    requires forall m :: m in mayorRows ==> |m| == |ElectionColumns|
    ensures Filter(Map(JoinRows(Inner, keyedRows, mayorRows, 0, 0, 1), Reordered), HasValueIn(FinalColumns, "PARTIDO")) ==
              CombinedRows(rows, mayorRows)
  {
    if rows != [] {
      var head := Contribution(Inner, keyedRows[0], mayorRows, 0, 0, 1);
      var tail := JoinRows(Inner, keyedRows[1..], mayorRows, 0, 0, 1);
      JoinRowsCons(keyedRows, mayorRows);
      FilterMapConcat(head, tail, Reordered, HasValueIn(FinalColumns, "PARTIDO"));
      ContributionInOrder(rows[0], keyedRows[0], mayorRows);
      KeyedFromTail(keyedRows, rows);
      JoinedRowsInOrder(rows[1..], keyedRows[1..], mayorRows);
      CombinedRowsCons(rows, mayorRows);
    }
  }

  lemma JoinRowsCons(keyedRows: seq<Row>, mayorRows: seq<Row>)
    requires keyedRows != []
    ensures JoinRows(Inner, keyedRows, mayorRows, 0, 0, 1) ==
              Contribution(Inner, keyedRows[0], mayorRows, 0, 0, 1) + JoinRows(Inner, keyedRows[1..], mayorRows, 0, 0, 1)
  {
  }

  lemma CombinedRowsCons(rows: seq<Row>, mayorRows: seq<Row>)
    requires rows != []
    ensures CombinedRows(rows, mayorRows) == ContributionFrom(mayorRows)(rows[0]) + CombinedRows(rows[1..], mayorRows)
  {
  }

  lemma KeyedFromTail(keyedRows: seq<Row>, rows: seq<Row>)
    requires KeyedFrom(keyedRows, rows) && rows != []
    ensures KeyedFrom(keyedRows[1..], rows[1..])
  {
    forall i | 0 <= i < |rows| - 1
      ensures keyedRows[1..][i] == keyedRows[i + 1] && rows[1..][i] == rows[i + 1]
    {
    }
  }

  /** The rows of the combined table are exactly the combined rows of an
      education row and an elected mayor with the same key text and a
      present party. */
  lemma CombineRows(education: Frame, elections: Frame)
    requires WellFormed(education) && WellFormed(elections)
    requires education.columns == EducationData.OutputColumns && HasElectionLabels(elections.columns)
    ensures ElectionSide(elections).Ok? && Combine(education, elections).Ok?
    ensures Combine(education, elections).value.rows == CombinedRows(education.rows, ElectionSide(elections).value.rows)
    ensures forall row :: row in Combine(education, elections).value.rows <==>
              exists e, m :: e in education.rows && m in ElectionSide(elections).value.rows &&
                             At(m, 0) == TextCell(At(e, 0)) && !At(m, 1).Missing? && row == Combined(e, m)
  {
    ElectionSideSucceeds(elections);
    CombineStages(education, elections);
    KeyedRows(education);
    var keyed := EducationSide(education).value.rows;
    var mayors := ElectionSide(elections).value;
    assert KeyedFrom(keyed, education.rows) by {
      forall i | 0 <= i < |education.rows|
        ensures |education.rows[i]| == |EducationData.OutputColumns|
      {
        assert education.rows[i] in education.rows;
      }
    }
    JoinedRowsCombined(education.rows, keyed, mayors.rows, Combine(education, elections).value.rows);
    CombineStagesInOrder(education, elections);
    JoinedRowsInOrder(education.rows, keyed, mayors.rows);
  }

  /** A table holding exactly the reordered inner-join rows with a present
      party holds exactly the combined rows of matching pairs. */
  lemma JoinedRowsCombined(rows: seq<Row>, keyedRows: seq<Row>, mayorRows: seq<Row>, result: seq<Row>)
    requires KeyedFrom(keyedRows, rows)
    requires forall m :: m in mayorRows ==> |m| == |ElectionColumns|
    requires forall row :: row in result <==>
               row in Map(JoinRows(Inner, keyedRows, mayorRows, 0, 0, 1), Reordered) && !At(row, 1).Missing?
    ensures forall row :: row in result <==>
              exists e, m :: e in rows && m in mayorRows &&
                             At(m, 0) == TextCell(At(e, 0)) && !At(m, 1).Missing? && row == Combined(e, m)
  {
    forall row | row in result
      ensures exists e, m :: e in rows && m in mayorRows &&
                             At(m, 0) == TextCell(At(e, 0)) && !At(m, 1).Missing? && row == Combined(e, m)
    {
      JoinedRowIsCombined(rows, keyedRows, mayorRows, row);
    }
    forall e, m | e in rows && m in mayorRows && At(m, 0) == TextCell(At(e, 0)) && !At(m, 1).Missing?
      ensures Combined(e, m) in result
    {
      CombinedIsJoinedRow(rows, keyedRows, mayorRows, e, m);
      CombinedParty(e, m);
    }
  }

  /** An education row whose key text is shorter than seven characters
      never reaches the combined table: the election keys are padded to
      seven characters and the education keys are not. */
  lemma ShortKeyNeverJoins(education: Frame, elections: Frame, e: Row)
    requires WellFormed(education) && WellFormed(elections)
    requires education.columns == EducationData.OutputColumns && HasElectionLabels(elections.columns)
    requires e in education.rows && |AsStr(At(e, 0))| < KeyWidth
    ensures Combine(education, elections).Ok?
    ensures forall row :: row in Combine(education, elections).value.rows ==> At(row, 0) != TextCell(At(e, 0))
  {
    ElectionSideSucceeds(elections);
    CombineRows(education, elections);
    var mayors := ElectionSide(elections).value.rows;
    forall row | row in Combine(education, elections).value.rows
      ensures At(row, 0) != TextCell(At(e, 0))
    {
      var e', m :| e' in education.rows && m in mayors && At(m, 0) == TextCell(At(e', 0)) &&
                   !At(m, 1).Missing? && row == Combined(e', m);
      assert At(row, 0) == At(m, 0);
    }
  }

  /** A code read back as an integer of at most six digits (a code whose
      leading zero was lost) has a key text no election key can equal. */
  lemma SixDigitCodeNeverMatches(i: nat, x: Cell)
    requires i < Pow10(6)
    ensures |AsStr(Int(i))| < KeyWidth
    ensures TextCell(Int(i)) != PaddedCell(x)
  {
    NatTextLength(i, 6);
  }

  /** A seven-digit code gets the same key text on both sides. */
  lemma SevenDigitCodeMatches(i: nat)
    requires Pow10(6) <= i
    ensures TextCell(Int(i)) == PaddedCell(Int(i))
  {
    NatTextLength(i, 6);
  }

  /** How a run of the merge script starts: it exits with status 1 when the
      education file is missing, reuses an election file that exists, and
      otherwise downloads it (the response is a parameter; a failed request
      is re-raised). */
  datatype Start = Exit(status: nat) | Failed(message: string) | Proceed(electionsPath: string, downloaded: bool)

  function PrepareRun(educationExists: bool, electionsExists: bool, electionsPath: string,
                      response: Result<string, string>): (r: Start)
    ensures r == Exit(1) <==> !educationExists
    ensures r.Exit? ==> r.status == 1
    ensures r.Proceed? ==> r.electionsPath == electionsPath
    ensures r.Proceed? && !r.downloaded <==> educationExists && electionsExists
    ensures r.Proceed? && r.downloaded <==> educationExists && !electionsExists && response.Ok?
    ensures r.Failed? <==> educationExists && !electionsExists && response.Err?
    ensures r.Failed? ==> r.message == response.error
  {
    if !educationExists then Exit(1)
    else if electionsExists then Proceed(electionsPath, false)
    else match response
      case Ok(_) => Proceed(electionsPath, true)
      case Err(message) => Failed(message)
  }

  /** The network is consulted only when the election file is absent: with
      the file present, any response gives the same start. */
  lemma CachedFileIgnoresNetwork(educationExists: bool, path: string, a: Result<string, string>, b: Result<string, string>)
    ensures PrepareRun(educationExists, true, path, a) == PrepareRun(educationExists, true, path, b)
  {
  }
}
