/** A pandas data frame as a list of column labels and a list of rows, and
    the frame operations the pipeline scripts use: column selection,
    boolean-mask filtering on equality tests, column assignment, column
    relabelling, `dropna` and `merge`. */
module Frames {
  import opened Outcomes
  import opened Seqs
  import opened Cells

  type Row = seq<Cell>

  datatype Frame = Frame(columns: seq<string>, rows: seq<Row>)

  /** Every row has one cell per column, as in any pandas frame. */
  predicate WellFormed(f: Frame)
  {
    forall r :: r in f.rows ==> |r| == |f.columns|
  }

  /** The exceptions frame operations raise: a label that is not a column
      (`KeyError`), or a list of labels of the wrong length assigned to
      `df.columns` (`ValueError: Length mismatch`). */
  datatype FrameError = KeyError(column: string) | LengthMismatch(expected: nat, given: nat)

  type FrameResult = Result<Frame, FrameError>

  /** Position of the first column labelled `name`. */
  function IndexOf(names: seq<string>, name: string): (r: Option<nat>)
    ensures r.None? <==> name !in names
    ensures r.Some? ==> r.value < |names| && names[r.value] == name && name !in names[..r.value]
  {
    if names == [] then None
    else if names[0] == name then Some(0)
    else match IndexOf(names[1..], name)
      case None => None
      case Some(k) =>
        assert names[1..][..k] == names[1..k + 1];
        assert names[..k + 1] == [names[0]] + names[1..k + 1];
        Some(k + 1)
  }

  /** A label's first occurrence is found at its position. */
  lemma {:induction false} IndexOfAt(names: seq<string>, k: nat)
    requires k < |names| && names[k] !in names[..k]
    ensures IndexOf(names, names[k]) == Some(k)
  {
    if k > 0 {
      assert names[0] in names[..k];
      assert names[1..][k - 1] == names[k];
      assert names[1..][..k - 1] == names[1..k];
      assert forall x :: x in names[1..k] ==> x in names[..k];
      IndexOfAt(names[1..], k - 1);
    }
  }

  /** The cell at position `j`, or a missing value past the end. */
  function At(row: Row, j: nat): Cell
  {
    if j < |row| then row[j] else Missing
  }

  /** The value a row holds in the column labelled `name`. */
  function ValueIn(columns: seq<string>, row: Row, name: string): Cell
  {
    match IndexOf(columns, name)
    case None => Missing
    case Some(j) => At(row, j)
  }

  /** Positions of the labels `wanted`; a `KeyError` names the first absent
      label. */
  function Positions(names: seq<string>, wanted: seq<string>): (r: Result<seq<nat>, FrameError>)
    ensures r.Ok? <==> forall w :: w in wanted ==> w in names
    ensures r.Ok? ==> |r.value| == |wanted|
    ensures r.Ok? ==> forall k :: 0 <= k < |wanted| ==> IndexOf(names, wanted[k]) == Some(r.value[k])
    ensures r.Err? ==> r.error.KeyError? && r.error.column in wanted && r.error.column !in names
  {
    if wanted == [] then Ok([])
    else match IndexOf(names, wanted[0])
      case None => Err(KeyError(wanted[0]))
      case Some(j) =>
        match Positions(names, wanted[1..])
        case Err(e) => Err(e)
        case Ok(rest) =>
          assert forall w :: w in wanted ==> w == wanted[0] || w in wanted[1..];
          Ok([j] + rest)
  }

  function Pick(row: Row, positions: seq<nat>): (r: Row)
    ensures |r| == |positions|
  {
    seq(|positions|, k requires 0 <= k < |positions| => At(row, positions[k]))
  }

  /** `df[names]`: the listed columns, in the listed order. */
  function Select(f: Frame, names: seq<string>): (r: FrameResult)
    requires WellFormed(f)
    ensures r.Ok? <==> forall n :: n in names ==> n in f.columns
    ensures r.Err? ==> r.error.KeyError? && r.error.column !in f.columns
    ensures r.Ok? ==> r.value.columns == names && WellFormed(r.value)
    ensures r.Ok? ==> |r.value.rows| == |f.rows|
    ensures r.Ok? ==> forall i, k :: 0 <= i < |f.rows| && 0 <= k < |names| ==>
              r.value.rows[i][k] == ValueIn(f.columns, f.rows[i], names[k])
  {
    var positions :- Positions(f.columns, names);
    Ok(Frame(names, Map(f.rows, (row: Row) => Pick(row, positions))))
  }

  /** Transforming the first column rewrites the first cell of every row
      and keeps the rest. */
  lemma MapColumnFirst(f: Frame, fn: Cell -> Cell)
    requires WellFormed(f) && |f.columns| > 0
    ensures MapColumn(f, f.columns[0], fn).Ok?
    ensures |MapColumn(f, f.columns[0], fn).value.rows| == |f.rows|
    ensures forall i :: 0 <= i < |f.rows| ==>
              MapColumn(f, f.columns[0], fn).value.rows[i] == [fn(f.rows[i][0])] + f.rows[i][1..]
  {
    var r := MapColumn(f, f.columns[0], fn).value;
    assert f.columns[..0] == [];
    forall i | 0 <= i < |f.rows|
      ensures r.rows[i] == [fn(f.rows[i][0])] + f.rows[i][1..]
    {
      assert f.rows[i] in f.rows && r.rows[i] in r.rows;
      forall j | 0 <= j < |f.columns|
        ensures r.rows[i][j] == ([fn(f.rows[i][0])] + f.rows[i][1..])[j]
      {
        if j > 0 {
          assert f.columns[..j][0] == f.columns[0];
        }
      }
    }
  }

  /** `df.columns = names`: relabels every column; the label list must have
      one entry per column. */
  function SetColumns(f: Frame, names: seq<string>): (r: FrameResult)
    requires WellFormed(f)
    ensures r.Ok? <==> |names| == |f.columns|
    ensures r.Err? ==> r.error == LengthMismatch(|f.columns|, |names|)
    ensures r.Ok? ==> r.value.columns == names && r.value.rows == f.rows && WellFormed(r.value)
  {
    if |names| == |f.columns| then Ok(Frame(names, f.rows))
    else Err(LengthMismatch(|f.columns|, |names|))
  }

  /** The row holds the text `value` in column `name` for every pair of
      `tests` (the `&` of `df[name] == value` masks; only a string cell
      equal to `value` passes). */
  predicate Satisfies(columns: seq<string>, row: Row, tests: seq<(string, string)>)
  {
    forall k :: 0 <= k < |tests| ==> ValueIn(columns, row, tests[k].0) == Str(tests[k].1)
  }

  /** A conjunction of two tests on labels found at `j0` and `j1` reads
      those two positions. */
  lemma SatisfiesPair(columns: seq<string>, row: Row, tests: seq<(string, string)>, j0: nat, j1: nat)
    requires |tests| == 2
    requires IndexOf(columns, tests[0].0) == Some(j0) && IndexOf(columns, tests[1].0) == Some(j1)
    ensures Satisfies(columns, row, tests) <==> At(row, j0) == Str(tests[0].1) && At(row, j1) == Str(tests[1].1)
  {
    assert ValueIn(columns, row, tests[0].0) == At(row, j0);
    assert ValueIn(columns, row, tests[1].0) == At(row, j1);
  }

  /** Both labels of a two-test conjunction are columns exactly when each is. */
  lemma PairLabelsPresent(columns: seq<string>, tests: seq<(string, string)>)
    requires |tests| == 2
    ensures (forall k :: 0 <= k < |tests| ==> tests[k].0 in columns) <==>
            tests[0].0 in columns && tests[1].0 in columns
  {
  }

  /** The row mask of a conjunction of equality tests. */
  function Passes(columns: seq<string>, tests: seq<(string, string)>): Row -> bool
  {
    (row: Row) => Satisfies(columns, row, tests)
  }

  /** The labels an equality mask reads, in the order it reads them. */
  function TestLabels(tests: seq<(string, string)>): (r: seq<string>)
    ensures |r| == |tests|
    ensures forall k :: 0 <= k < |tests| ==> r[k] == tests[k].0
  {
    Map(tests, (t: (string, string)) => t.0)
  }

  /** The first absent label of `wanted` names the `KeyError`. */
  lemma PositionsFirstAbsent(names: seq<string>, wanted: seq<string>, k: nat)
    requires k < |wanted| && wanted[k] !in names
    requires forall j :: 0 <= j < k ==> wanted[j] in names
    ensures Positions(names, wanted) == Err(KeyError(wanted[k]))
  {
    if k > 0 {
      assert wanted[0] in names;
      PositionsFirstAbsent(names, wanted[1..], k - 1);
    }
  }

  /** `df[(df[a] == x) & (df[b] == y) ...]`: the rows passing every equality
      test, in their original order; a test on an absent column raises
      `KeyError`. */
  function Where(f: Frame, tests: seq<(string, string)>): (r: FrameResult)
    requires WellFormed(f)
    ensures r.Ok? <==> forall k :: 0 <= k < |tests| ==> tests[k].0 in f.columns
    ensures r.Ok? ==> r.value.columns == f.columns && WellFormed(r.value)
    ensures r.Ok? ==> forall row :: row in r.value.rows <==> row in f.rows && Satisfies(f.columns, row, tests)
    ensures r.Ok? ==> r.value.rows == Filter(f.rows, Passes(f.columns, tests))
  {
    var _ :- Positions(f.columns, TestLabels(tests));
    var kept := Filter(f.rows, Passes(f.columns, tests));
    assert forall row :: row in f.rows && Satisfies(f.columns, row, tests) ==> row in kept by {
      forall row | row in f.rows && Satisfies(f.columns, row, tests)
        ensures row in kept
      {
        FilterKeeps(f.rows, Passes(f.columns, tests), row);
      }
    }
    Ok(Frame(f.columns, kept))
  }

  /** `df.replace(old, new)` and friends: `fn` applied to every cell. */
  function MapCells(f: Frame, fn: Cell -> Cell): (r: Frame)
    requires WellFormed(f)
    ensures r.columns == f.columns && WellFormed(r) && |r.rows| == |f.rows|
    ensures forall i, j :: 0 <= i < |f.rows| && 0 <= j < |f.columns| ==> r.rows[i][j] == fn(f.rows[i][j])
  {
    assert forall i :: 0 <= i < |f.rows| ==> f.rows[i] in f.rows;
    Frame(f.columns, Map(f.rows, (row: Row) => Map(row, fn)))
  }

  /** Applying the same mask twice keeps the same rows as applying it once. */
  lemma WhereIdempotent(f: Frame, tests: seq<(string, string)>)
    requires WellFormed(f) && Where(f, tests).Ok?
    ensures Where(Where(f, tests).value, tests) == Where(f, tests)
  {
    FilterIdempotent(f.rows, Passes(f.columns, tests));
  }

  function Update(row: Row, j: nat, fn: Cell -> Cell): Row
  {
    if j < |row| then row[j := fn(row[j])] else row
  }

  /** `df[name] = fn(df[name])`: every cell of one existing column replaced,
      everything else unchanged. */
  function MapColumn(f: Frame, name: string, fn: Cell -> Cell): (r: FrameResult)
    requires WellFormed(f)
    ensures r.Ok? <==> name in f.columns
    ensures r.Ok? ==> r.value.columns == f.columns && WellFormed(r.value)
    ensures r.Ok? ==> |r.value.rows| == |f.rows|
    ensures r.Ok? ==> forall i, j :: 0 <= i < |f.rows| && 0 <= j < |f.columns| ==>
              r.value.rows[i][j] == if f.columns[j] == name && name !in f.columns[..j]
                                    then fn(f.rows[i][j]) else f.rows[i][j]
  {
    match IndexOf(f.columns, name)
    case None => Err(KeyError(name))
    case Some(j) =>
      var rows := Map(f.rows, (row: Row) => Update(row, j, fn));
      assert forall i :: 0 <= i < |rows| ==> |rows[i]| == |f.columns| by {
        forall i | 0 <= i < |rows|
          ensures |rows[i]| == |f.columns|
        {
          assert f.rows[i] in f.rows;
        }
      }
      assert forall k :: 0 <= k < |f.columns| ==>
               (f.columns[k] == name && name !in f.columns[..k] <==> k == j) by {
        forall k | 0 <= k < |f.columns|
          ensures f.columns[k] == name && name !in f.columns[..k] <==> k == j
        {
          if k < j {
            assert f.columns[k] in f.columns[..j];
          } else if k > j {
            assert f.columns[j] in f.columns[..k];
          }
        }
      }
      assert forall i :: 0 <= i < |rows| ==> rows[i] in rows;
      Ok(Frame(f.columns, rows))
  }

  /** `for col in names: df[col] = fn(df[col])`: the same transform applied
      to each listed column in turn. */
  function MapColumns(f: Frame, names: seq<string>, fn: Cell -> Cell): (r: FrameResult)
    requires WellFormed(f)
    ensures r.Ok? <==> forall n :: n in names ==> n in f.columns
    ensures r.Ok? ==> r.value.columns == f.columns && WellFormed(r.value)
    ensures r.Ok? ==> |r.value.rows| == |f.rows|
    decreases |names|
  {
    if names == [] then Ok(f)
    else
      var g :- MapColumn(f, names[0], fn);
      assert forall n :: n in names <==> n == names[0] || n in names[1..];
      MapColumns(g, names[1..], fn)
  }

  /** With distinct labels on both sides, each listed column has `fn`
      applied exactly once and every other column is untouched. */
  lemma {:induction false} MapColumnsCell(f: Frame, names: seq<string>, fn: Cell -> Cell, i: nat, j: nat)
    requires WellFormed(f) && Distinct(f.columns) && Distinct(names)
    requires MapColumns(f, names, fn).Ok?
    requires i < |f.rows| && j < |f.columns|
    ensures MapColumns(f, names, fn).value.rows[i][j] ==
            if f.columns[j] in names then fn(f.rows[i][j]) else f.rows[i][j]
    decreases |names|
  {
    if names != [] {
      var g := MapColumn(f, names[0], fn).value;
      assert Distinct(names[1..]) by {
        forall a, b | 0 <= a < b < |names[1..]|
          ensures names[1..][a] != names[1..][b]
        {
          assert names[1..][a] == names[a + 1] && names[1..][b] == names[b + 1];
        }
      }
      MapColumnsCell(g, names[1..], fn, i, j);
      assert f.columns[j] == names[0] && names[0] !in f.columns[..j] <==> f.columns[j] == names[0];
      assert f.columns[j] == names[0] ==> f.columns[j] !in names[1..];
      assert f.columns[j] in names <==> f.columns[j] == names[0] || f.columns[j] in names[1..];
    }
  }

  /** Dropping the first label keeps the rest distinct, and a label is
      among the rest exactly when it is not the first. */
  lemma RestDistinct(columns: seq<string>)
    requires |columns| >= 1 && Distinct(columns)
    ensures Distinct(columns[1..]) && forall n :: n in columns[1..] ==> n in columns
    ensures forall j :: 0 <= j < |columns| ==> (columns[j] in columns[1..] <==> j > 0)
  {
    var rest := columns[1..];
    forall a, b | 0 <= a < b < |rest| ensures rest[a] != rest[b] {
      assert rest[a] == columns[a + 1] && rest[b] == columns[b + 1];
    }
    forall j | 0 <= j < |columns| ensures columns[j] in rest <==> j > 0 {
      if j > 0 { assert columns[j] == rest[j - 1]; }
      if columns[j] in rest { var k :| 0 <= k < |rest| && rest[k] == columns[j]; assert columns[k + 1] == columns[j]; }
    }
  }

  predicate Distinct(names: seq<string>)
  {
    forall a, b :: 0 <= a < b < |names| ==> names[a] != names[b]
  }

  predicate Complete(row: Row)
  {
    forall k :: 0 <= k < |row| ==> !row[k].Missing?
  }

  /** `df.dropna()`: the rows without a missing cell, in their original order. */
  function DropIncomplete(f: Frame): (r: Frame)
    requires WellFormed(f)
    ensures r.columns == f.columns && WellFormed(r)
    ensures forall row :: row in r.rows <==> row in f.rows && Complete(row)
    ensures r.rows == Filter(f.rows, Complete)
  {
    var kept := Filter(f.rows, Complete);
    assert forall row :: row in f.rows && Complete(row) ==> row in kept by {
      forall row | row in f.rows && Complete(row)
        ensures row in kept
      {
        FilterKeeps(f.rows, Complete, row);
      }
    }
    Frame(f.columns, kept)
  }

  /** Whether a row's cell in column `name` is present. */
  function HasValueIn(columns: seq<string>, name: string): Row -> bool
  {
    (row: Row) => !ValueIn(columns, row, name).Missing?
  }

  /** `df.dropna(subset=[name])`: the rows whose cell in column `name` is
      present, in their original order; an absent column raises `KeyError`. */
  function DropMissingIn(f: Frame, name: string): (r: FrameResult)
    requires WellFormed(f)
    ensures r.Ok? <==> name in f.columns
    ensures r.Ok? ==> r.value.columns == f.columns && WellFormed(r.value)
    ensures r.Ok? ==> forall row :: row in r.value.rows <==>
              row in f.rows && !ValueIn(f.columns, row, name).Missing?
    ensures r.Ok? ==> r.value.rows == Filter(f.rows, HasValueIn(f.columns, name))
  {
    if name !in f.columns then Err(KeyError(name))
    else
      var present := HasValueIn(f.columns, name);
      var kept := Filter(f.rows, present);
      assert forall row :: row in f.rows && present(row) ==> row in kept by {
        forall row | row in f.rows && present(row)
          ensures row in kept
        {
          FilterKeeps(f.rows, present, row);
        }
      }
      Ok(Frame(f.columns, kept))
  }

  /** The join mode of `pd.merge(..., how=...)`. */
  datatype How = Inner | LeftOuter

  /** Labels shared by both sides, other than the key, get pandas' default
      suffix ("_x" on the left, "_y" on the right). */
  function Suffixed(names: seq<string>, others: seq<string>, key: string, suffix: string): (r: seq<string>)
    ensures |r| == |names|
  {
    Map(names, (n: string) => if n != key && n in others then n + suffix else n)
  }

  /** Without shared labels, no suffix is added. */
  lemma SuffixedUnchanged(names: seq<string>, others: seq<string>, key: string, suffix: string)
    requires forall n :: n in names ==> n == key || n !in others
    ensures Suffixed(names, others, key, suffix) == names
  {
    var r := Suffixed(names, others, key, suffix);
    forall k | 0 <= k < |names|
      ensures r[k] == names[k]
    {
      assert names[k] in names;
    }
  }

  /** The columns of a merge on `key`: the left columns, then the right
      columns without the key. */
  function JoinedColumns(left: seq<string>, right: seq<string>, key: string, rightKey: nat): seq<string>
  {
    var rest := Omit(right, rightKey);
    Suffixed(left, rest, key, "_x") + Suffixed(rest, left, key, "_y")
  }

  /** The right rows whose key cell equals the left row's key cell. */
  function Partners(l: Row, rights: seq<Row>, lk: nat, rk: nat): seq<Row>
  {
    Filter(rights, SameKey(l, lk, rk))
  }

  /** Whether a right row carries the left row's key. */
  function SameKey(l: Row, lk: nat, rk: nat): Row -> bool
  {
    (r: Row) => At(r, rk) == At(l, lk)
  }

  /** The output row of a left row and one partner. */
  function Pair(l: Row, rk: nat): Row -> Row
  {
    (r: Row) => l + Omit(r, rk)
  }

  /** A left row has no partners exactly when no right row carries its key. */
  lemma PartnersEmpty(l: Row, rights: seq<Row>, lk: nat, rk: nat)
    ensures Partners(l, rights, lk, rk) == [] <==> forall r :: r in rights ==> At(r, rk) != At(l, lk)
  {
    var ps := Partners(l, rights, lk, rk);
    if ps != [] {
      assert ps[0] in ps;
    }
    forall r | r in rights && At(r, rk) == At(l, lk)
      ensures r in ps
    {
      FilterKeeps(rights, SameKey(l, lk, rk), r);
    }
  }

  /** One output row per partner: the left row followed by the partner's
      non-key cells, in the right frame's order. */
  function Pairings(l: Row, rights: seq<Row>, lk: nat, rk: nat): seq<Row>
  {
    Map(Partners(l, rights, lk, rk), Pair(l, rk))
  }

  /** The output rows one left row contributes. Under a left join a row
      without partners is kept once, padded with missing cells. */
  function Contribution(how: How, l: Row, rights: seq<Row>, lk: nat, rk: nat, width: nat): seq<Row>
  {
    if how == LeftOuter && Partners(l, rights, lk, rk) == [] then [l + seq(width, _ => Missing)]
    else Pairings(l, rights, lk, rk)
  }

  function JoinRows(how: How, lefts: seq<Row>, rights: seq<Row>, lk: nat, rk: nat, width: nat): seq<Row>
  {
    FlatMap(lefts, ContributionOf(how, rights, lk, rk, width))
  }

  function ContributionOf(how: How, rights: seq<Row>, lk: nat, rk: nat, width: nat): Row -> seq<Row>
  {
    (l: Row) => Contribution(how, l, rights, lk, rk, width)
  }

  /** `pd.merge(left, right, on=key, how=how)` as pandas 2.2 orders it: left
      rows in order, each followed by its partners in right-frame order.
      The key must be a column of both frames. */
  function Merge(left: Frame, right: Frame, key: string, how: How): (r: FrameResult)
    requires WellFormed(left) && WellFormed(right)
    ensures r.Ok? <==> key in left.columns && key in right.columns
    ensures r.Err? ==> r.error.KeyError?
    ensures r.Ok? ==> |r.value.columns| == |left.columns| + |right.columns| - 1
    ensures r.Ok? ==> WellFormed(r.value)
    ensures r.Ok? ==> r.value.columns == JoinedColumns(left.columns, right.columns, key, IndexOf(right.columns, key).value)
    ensures r.Ok? ==> r.value.rows == JoinRows(how, left.rows, right.rows, IndexOf(left.columns, key).value,
                                                IndexOf(right.columns, key).value, AddedWidth(right.columns))
  {
    if key !in left.columns || key !in right.columns then Err(KeyError(key))
    else
      var lk := IndexOf(left.columns, key).value;
      var rk := IndexOf(right.columns, key).value;
      JoinedWellFormed(how, left, right, key, lk, rk, AddedWidth(right.columns));
      Ok(Frame(JoinedColumns(left.columns, right.columns, key, rk), JoinRows(how, left.rows, right.rows, lk, rk, AddedWidth(right.columns))))
  }

  /** How many cells a right row adds to a joined row: all but its key. */
  function AddedWidth(right: seq<string>): (w: nat)
    ensures right != [] ==> w == |right| - 1
  {
    if right == [] then 0 else |right| - 1
  }

  lemma JoinedWellFormed(how: How, left: Frame, right: Frame, key: string, lk: nat, rk: nat, width: nat)
    requires WellFormed(left) && WellFormed(right) && rk < |right.columns| && width == |right.columns| - 1
    ensures WellFormed(Frame(JoinedColumns(left.columns, right.columns, key, rk), JoinRows(how, left.rows, right.rows, lk, rk, width)))
  {
    JoinedColumnsLength(left.columns, right.columns, key, rk);
    JoinRowsWidth(how, left.rows, right.rows, lk, rk, |left.columns|, width);
  }

  /** Joining rows of uniform widths gives rows of the summed width less
      the right key. */
  lemma JoinRowsWidth(how: How, lefts: seq<Row>, rights: seq<Row>, lk: nat, rk: nat, leftWidth: nat, width: nat)
    requires forall l :: l in lefts ==> |l| == leftWidth
    requires forall r :: r in rights ==> |r| == width + 1
    requires rk <= width
    ensures forall row :: row in JoinRows(how, lefts, rights, lk, rk, width) ==> |row| == leftWidth + width
  {
    forall row | row in JoinRows(how, lefts, rights, lk, rk, width)
      ensures |row| == leftWidth + width
    {
      JoinRowWidth(how, lefts, rights, lk, rk, leftWidth, width, row);
    }
  }

  lemma JoinedColumnsLength(left: seq<string>, right: seq<string>, key: string, rk: nat)
    requires rk < |right|
    ensures |JoinedColumns(left, right, key, rk)| == |left| + |right| - 1
  {
    assert |Omit(right, rk)| == |right| - 1;
  }

  /** A joined row has the left width plus the right width without the key. */
  lemma JoinRowWidth(how: How, lefts: seq<Row>, rights: seq<Row>, lk: nat, rk: nat, leftWidth: nat, width: nat, row: Row)
    requires forall l :: l in lefts ==> |l| == leftWidth
    requires forall r :: r in rights ==> |r| == width + 1
    requires rk <= width
    requires row in JoinRows(how, lefts, rights, lk, rk, width)
    ensures |row| == leftWidth + width
  {
    FlatMapMember(lefts, ContributionOf(how, rights, lk, rk, width), row);
    var l :| l in lefts && row in ContributionOf(how, rights, lk, rk, width)(l);
    ContributionWidth(how, l, rights, lk, rk, width, row);
  }

  lemma ContributionWidth(how: How, l: Row, rights: seq<Row>, lk: nat, rk: nat, width: nat, row: Row)
    requires forall r :: r in rights ==> |r| == width + 1
    requires rk <= width
    requires row in Contribution(how, l, rights, lk, rk, width)
    ensures |row| == |l| + width
  {
    var ps := Partners(l, rights, lk, rk);
    if !(how == LeftOuter && ps == []) {
      var r := MapMemberFrom(ps, Pair(l, rk), row);
      assert |r| == width + 1;
      assert row == l + Omit(r, rk);
    }
  }

  /** Every row an inner join produces is a left row followed by the
      non-key cells of a right row with the same key. */
  lemma InnerRowsAreMatchedPairs(lefts: seq<Row>, rights: seq<Row>, lk: nat, rk: nat, width: nat, row: Row)
    requires row in JoinRows(Inner, lefts, rights, lk, rk, width)
    ensures exists l, r :: l in lefts && r in rights && At(r, rk) == At(l, lk) && row == l + Omit(r, rk)
  {
    FlatMapMember(lefts, ContributionOf(Inner, rights, lk, rk, width), row);
    var l :| l in lefts && row in Contribution(Inner, l, rights, lk, rk, width);
    var r := MapMemberFrom(Partners(l, rights, lk, rk), Pair(l, rk), row);
    assert row == l + Omit(r, rk);
  }

  /** Every joined row begins with a whole left row. */
  lemma JoinRowsExtendLefts(how: How, lefts: seq<Row>, rights: seq<Row>, lk: nat, rk: nat, width: nat, row: Row)
    requires row in JoinRows(how, lefts, rights, lk, rk, width)
    ensures exists l :: l in lefts && |l| <= |row| && row[..|l|] == l
  {
    FlatMapMember(lefts, ContributionOf(how, rights, lk, rk, width), row);
    var l :| l in lefts && row in Contribution(how, l, rights, lk, rk, width);
    if how == LeftOuter && Partners(l, rights, lk, rk) == [] {
      assert row == l + seq(width, _ => Missing);
    } else {
      var r := MapMemberFrom(Partners(l, rights, lk, rk), Pair(l, rk), row);
      assert row == l + Omit(r, rk);
    }
    assert row[..|l|] == l;
  }

  /** Every pair of a left and a right row with equal keys produces an output
      row, under either join mode. */
  lemma MatchedPairsAppear(how: How, lefts: seq<Row>, rights: seq<Row>, lk: nat, rk: nat, width: nat, l: Row, r: Row)
    requires l in lefts && r in rights && At(r, rk) == At(l, lk)
    ensures l + Omit(r, rk) in JoinRows(how, lefts, rights, lk, rk, width)
  {
    var ps := Partners(l, rights, lk, rk);
    FilterKeeps(rights, SameKey(l, lk, rk), r);
    var k :| 0 <= k < |ps| && ps[k] == r;
    assert Pairings(l, rights, lk, rk)[k] == l + Omit(r, rk);
    FlatMapContains(lefts, ContributionOf(how, rights, lk, rk, width), l, l + Omit(r, rk));
  }

  /** A left row without partners survives a left join once, padded with
      missing cells in every right-hand column. */
  lemma UnmatchedRowPadded(lefts: seq<Row>, rights: seq<Row>, lk: nat, rk: nat, width: nat, l: Row)
    requires l in lefts && Partners(l, rights, lk, rk) == []
    ensures l + seq(width, _ => Missing) in JoinRows(LeftOuter, lefts, rights, lk, rk, width)
  {
    FlatMapContains(lefts, ContributionOf(LeftOuter, rights, lk, rk, width), l, l + seq(width, _ => Missing));
  }

  /** A left join drops no left row: each one begins some output row. */
  lemma LeftJoinKeepsEveryRow(lefts: seq<Row>, rights: seq<Row>, lk: nat, rk: nat, width: nat, l: Row)
    requires l in lefts
    ensures exists row :: row in JoinRows(LeftOuter, lefts, rights, lk, rk, width) && |l| <= |row| && row[..|l|] == l
  {
    var ps := Partners(l, rights, lk, rk);
    if ps == [] {
      UnmatchedRowPadded(lefts, rights, lk, rk, width, l);
      assert (l + seq(width, _ => Missing))[..|l|] == l;
    } else {
      assert ps[0] in ps;
      MatchedPairsAppear(LeftOuter, lefts, rights, lk, rk, width, l, ps[0]);
      assert (l + Omit(ps[0], rk))[..|l|] == l;
    }
  }

  /** Output size of a join: each left row contributes one row per partner,
      or (left join only) a single padded row when it has none. */
  lemma {:induction false} JoinRowCount(how: How, lefts: seq<Row>, rights: seq<Row>, lk: nat, rk: nat, width: nat)
    ensures |JoinRows(how, lefts, rights, lk, rk, width)| == Sum(Map(lefts, RowsPerLeft(how, rights, lk, rk)))
  {
    if lefts != [] {
      JoinRowCount(how, lefts[1..], rights, lk, rk, width);
      assert Map(lefts, RowsPerLeft(how, rights, lk, rk))[1..] == Map(lefts[1..], RowsPerLeft(how, rights, lk, rk));
    }
  }

  /** How many output rows a left row yields. */
  function RowsPerLeft(how: How, rights: seq<Row>, lk: nat, rk: nat): Row -> int
  {
    (l: Row) => if how == LeftOuter && |Partners(l, rights, lk, rk)| == 0 then 1 else |Partners(l, rights, lk, rk)|
  }

  /** A left join has at least as many rows as its left side, and exactly as
      many when no left key has more than one partner. */
  lemma LeftJoinSize(lefts: seq<Row>, rights: seq<Row>, lk: nat, rk: nat, width: nat)
    ensures |JoinRows(LeftOuter, lefts, rights, lk, rk, width)| >= |lefts|
    ensures |JoinRows(LeftOuter, lefts, rights, lk, rk, width)| == |lefts| <==>
            forall l :: l in lefts ==> |Partners(l, rights, lk, rk)| <= 1
  {
    JoinRowCount(LeftOuter, lefts, rights, lk, rk, width);
    var counts := Map(lefts, RowsPerLeft(LeftOuter, rights, lk, rk));
    SumOfPositives(counts);
    assert (forall i :: 0 <= i < |counts| ==> counts[i] == 1) <==>
           (forall l :: l in lefts ==> |Partners(l, rights, lk, rk)| <= 1) by {
      if forall i :: 0 <= i < |counts| ==> counts[i] == 1 {
        forall l | l in lefts
          ensures |Partners(l, rights, lk, rk)| <= 1
        {
          var i :| 0 <= i < |lefts| && lefts[i] == l;
          assert counts[i] == 1;
        }
      }
    }
  }

  /** The cleaning sequence for any key, placeholder and rate conversions,
      on a frame whose distinct labels start with the key column. */
  function CleanWith(f: Frame, keyFn: Cell -> Cell, blank: Cell -> Cell, rateFn: Cell -> Cell): (r: Frame)
    requires WellFormed(f) && |f.columns| >= 1 && Distinct(f.columns)
    ensures r.columns == f.columns && WellFormed(r) && |r.rows| == |f.rows|
    ensures forall i :: 0 <= i < |f.rows| ==> r.rows[i][0] == blank(keyFn(f.rows[i][0]))
    ensures forall i, j :: 0 <= i < |f.rows| && 1 <= j < |f.columns| ==> r.rows[i][j] == rateFn(blank(f.rows[i][j]))
  {
    var r := CleanPasses(f, keyFn, blank, rateFn);
    forall i | 0 <= i < |f.rows|
      ensures r.rows[i][0] == blank(keyFn(f.rows[i][0]))
    {
      CleanPassesCell(f, keyFn, blank, rateFn, i, 0);
    }
    forall i, j | 0 <= i < |f.rows| && 1 <= j < |f.columns|
      ensures r.rows[i][j] == rateFn(blank(f.rows[i][j]))
    {
      CleanPassesCell(f, keyFn, blank, rateFn, i, j);
    }
    r
  }

  /** The three passes in their source order: the key column converted,
      the placeholder replaced everywhere, the other columns converted. */
  function CleanPasses(f: Frame, keyFn: Cell -> Cell, blank: Cell -> Cell, rateFn: Cell -> Cell): (r: Frame)
    requires WellFormed(f) && |f.columns| >= 1 && Distinct(f.columns)
    ensures r.columns == f.columns && WellFormed(r) && |r.rows| == |f.rows|
  {
    RestDistinct(f.columns);
    MapColumns(MapCells(MapColumn(f, f.columns[0], keyFn).value, blank), f.columns[1..], rateFn).value
  }

  lemma CleanPassesCell(f: Frame, keyFn: Cell -> Cell, blank: Cell -> Cell, rateFn: Cell -> Cell, i: nat, j: nat)
    requires WellFormed(f) && |f.columns| >= 1 && Distinct(f.columns)
    requires i < |f.rows| && j < |f.columns|
    ensures j == 0 ==> CleanPasses(f, keyFn, blank, rateFn).rows[i][0] == blank(keyFn(f.rows[i][0]))
    ensures j > 0 ==> CleanPasses(f, keyFn, blank, rateFn).rows[i][j] == rateFn(blank(f.rows[i][j]))
  {
    RestDistinct(f.columns);
    var keyed := MapColumn(f, f.columns[0], keyFn).value;
    assert keyed.rows[i][j] == if j == 0 then keyFn(f.rows[i][0]) else f.rows[i][j] by {
      if j == 0 {
        assert f.columns[..0] == [];
      } else {
        assert f.columns[j] != f.columns[0];
      }
    }
    var blanked := MapCells(keyed, blank);
    assert blanked.rows[i][j] == blank(keyed.rows[i][j]);
    MapColumnsCell(blanked, f.columns[1..], rateFn, i, j);
  }
}
