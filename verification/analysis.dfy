/** docs/analise_dados.py, `processar_dados`: the party in upper case, its
    political spectrum, the region name, the approval index (the mean of
    the two approval rates) and the above-median flag; and the name of the
    processed file. */
module Analysis {
  import opened Outcomes
  import opened Seqs
  import opened Text

  /** The spectrum labels the two party tables use. */
  datatype Spectrum = Esquerda | CentroEsquerda | Centro | CentroDireita | Direita | Outros

  /** The spectrum of a party: the table entry of its upper-cased name, and
      "OUTROS" for a party outside the table or a missing party (`map`
      then `fillna`). */
  function Classify(table: map<string, Spectrum>, party: Option<string>): (r: Spectrum)
    ensures r != Outros && Outros !in table.Values ==> party.Some? && Upper(party.value) in table
    ensures party.Some? && Upper(party.value) in table ==> r == table[Upper(party.value)]
    ensures party.None? ==> r == Outros
  {
    match party
    case None => Outros
    case Some(p) => if Upper(p) in table then table[Upper(p)] else Outros
  }

  /** A table key holding a lower-case letter is never looked up. */
  lemma MixedCaseKeyUnreachable(table: map<string, Spectrum>, key: string, i: nat, party: string)
    requires i < |key| && IsLower(key[i])
    ensures Upper(party) != key
  {
  }

  /** The party table of the analysis script. */
  const PartyTable: map<string, Spectrum> := map[
    "PT" := Esquerda, "PCdoB" := Esquerda, "PSOL" := Esquerda,
    "PDT" := CentroEsquerda, "PSB" := CentroEsquerda, "PV" := CentroEsquerda,
    "MDB" := Centro, "PSDB" := Centro, "PSD" := Centro, "PODE" := Centro,
    "DEM" := CentroDireita, "REPUBLICANOS" := CentroDireita, "PP" := CentroDireita,
    "PL" := Direita, "PATRIOTA" := Direita, "PSL" := Direita, "NOVO" := Direita
  ]

  /** "PCdoB" is in the table but no upper-cased party equals it, so that
      party is classified as "OUTROS". */
  lemma PCdoBIsOutros()
    ensures "PCdoB" in PartyTable
    ensures forall p :: Upper(p) != "PCdoB"
    ensures Classify(PartyTable, Some("PCdoB")) == Outros
  {
    forall p
      ensures Upper(p) != "PCdoB"
    {
      MixedCaseKeyUnreachable(PartyTable, "PCdoB", 2, p);
    }
    assert Upper("PCdoB") == "PCDOB";
  }

  /** The region codes and their names; any other code gives no name. */
  const RegionNames: map<string, string> := map[
    "N" := "Norte", "NE" := "Nordeste", "CO" := "Centro-Oeste", "SE" := "Sudeste", "S" := "Sul"
  ]

  function RegionName(code: Option<string>): (r: Option<string>)
    ensures r.Some? <==> code.Some? && code.value in RegionNames
    ensures r.Some? ==> r.value in RegionNames.Values
  {
    match code
    case None => None
    case Some(c) => if c in RegionNames then Some(RegionNames[c]) else None
  }

  /** A row of the combined table the analysis reads. */
  datatype Municipality = Municipality(
    id: string, uf: Option<string>, regiao: Option<string>, partido: Option<string>,
    approval5: real, approval9: real)

  /** The approval index: the mean of the two approval rates. */
  function ApprovalIndex(m: Municipality): (r: real)
    ensures r + r == m.approval5 + m.approval9
    ensures m.approval5 <= m.approval9 ==> m.approval5 <= r <= m.approval9
    ensures m.approval9 <= m.approval5 ==> m.approval9 <= r <= m.approval5
  {
    (m.approval5 + m.approval9) / 2.0
  }

  function Identity(x: real): real
  {
    x
  }

  /** pandas' `median`: the middle value of the sorted values, or the mean
      of the two middle ones; none for an empty column. */
  function Median(xs: seq<real>): (r: Option<real>)
    ensures r.None? <==> xs == []
  {
    if xs == [] then None
    else
      var s := SortBy(xs, Identity);
      var n := |s|;
      if n % 2 == 1 then Some(s[n / 2]) else Some((s[n / 2 - 1] + s[n / 2]) / 2.0)
  }

  /** The median lies within the values: some value is at or below it and
      some value is at or above it. */
  lemma MedianWithin(xs: seq<real>)
    requires xs != []
    ensures exists i :: 0 <= i < |xs| && xs[i] <= Median(xs).value
    ensures exists i :: 0 <= i < |xs| && xs[i] >= Median(xs).value
  {
    var s := SortBy(xs, Identity);
    var n := |s|;
    assert multiset(s) == multiset(xs);
    assert Identity(s[0]) <= Identity(s[n / 2]) && Identity(s[n / 2]) <= Identity(s[n - 1]);
    if n % 2 == 0 {
      assert Identity(s[0]) <= Identity(s[n / 2 - 1]);
    }
    assert s[0] in multiset(xs) && s[n - 1] in multiset(xs);
    var lo :| 0 <= lo < |xs| && xs[lo] == s[0];
    var hi :| 0 <= hi < |xs| && xs[hi] == s[n - 1];
  }

  /** The derived columns of one row. */
  datatype Features = Features(
    source: Municipality, party: Option<string>, spectrum: Spectrum, region: Option<string>,
    index: real, above: int)

  function Derive(m: Municipality, median: Option<real>): (r: Features)
    ensures r.source == m
    ensures r.party.Some? <==> m.partido.Some?
    ensures r.party.Some? ==> r.party.value == Upper(m.partido.value)
    ensures r.party.Some? ==> |r.party.value| == |m.partido.value| && forall k :: 0 <= k < |r.party.value| ==> !IsLower(r.party.value[k])
    ensures r.spectrum == Classify(PartyTable, r.party)
    ensures r.region == RegionName(m.regiao)
    ensures r.region.Some? <==> m.regiao.Some? && m.regiao.value in RegionNames
    ensures r.index + r.index == m.approval5 + m.approval9
    ensures r.above == 0 || r.above == 1
    ensures r.above == 1 <==> median.Some? && ApprovalIndex(m) > median.value
  {
    var party := match m.partido case None => None case Some(p) => Some(Upper(p));
    assert m.partido.Some? ==> Upper(Upper(m.partido.value)) == Upper(m.partido.value) by {
      if m.partido.Some? {
        UpperIdempotent(m.partido.value);
      }
    }
    var index := ApprovalIndex(m);
    Features(m, party, Classify(PartyTable, m.partido), RegionName(m.regiao), index,
             if median.Some? && index > median.value then 1 else 0)
  }

  /** The features of every row, in order, flagged against the median of
      the approval index over all rows. */
  function ProcessRows(rows: seq<Municipality>): (r: seq<Features>)
    ensures |r| == |rows|
    ensures forall i :: 0 <= i < |rows| ==> r[i] == Derive(rows[i], Median(Map(rows, ApprovalIndex)))
  {
    var median := Median(Map(rows, ApprovalIndex));
    Map(rows, (m: Municipality) => Derive(m, median))
  }

  /** Not every row is above the median: some row is flagged 0, and a row
      whose index equals the median is flagged 0. */
  lemma SomeRowNotAbove(rows: seq<Municipality>)
    requires rows != []
    ensures exists i :: 0 <= i < |rows| && ProcessRows(rows)[i].above == 0
    ensures forall i :: 0 <= i < |rows| && Some(ApprovalIndex(rows[i])) == Median(Map(rows, ApprovalIndex)) ==>
              ProcessRows(rows)[i].above == 0
  {
    var indices := Map(rows, ApprovalIndex);
    MedianWithin(indices);
    var i :| 0 <= i < |indices| && indices[i] <= Median(indices).value;
    var r := ProcessRows(rows);
    assert r[i] == Derive(rows[i], Median(indices));
    assert ApprovalIndex(rows[i]) == indices[i];
  }

  /** The processed file name: every ".csv" of the input path becomes
      "_processado.csv". */
  function OutputName(path: string): string
  {
    ReplaceAll(path, ".csv", "_processado.csv")
  }

  /** A file name gets the suffix before its extension, whatever dots it
      holds otherwise: "dados.csv", "./dados.csv" and "dados.v2.csv" become
      "dados_processado.csv", "./dados_processado.csv" and
      "dados.v2_processado.csv". */
  lemma OutputNameOfStem(stem: string)
    requires NoOccurrenceBefore(stem, ".csv")
    ensures OutputName(stem + ".csv") == stem + "_processado.csv"
  {
    ReplaceAllTrailing(stem, ".csv", "_processado.csv");
  }

  /** Every occurrence is rewritten, including one inside a directory
      name: a path made of parts joined by ".csv" becomes the same parts
      joined by "_processado.csv", so "dados.csv/x.csv" becomes
      "dados_processado.csv/x_processado.csv". */
  lemma OutputNameRewritesDirectories(parts: seq<string>)
    requires |parts| > 0
    requires forall k :: 0 <= k < |parts| - 1 ==> NoOccurrenceBefore(parts[k], ".csv")
    requires !Contains(parts[|parts| - 1], ".csv")
    ensures OutputName(Join(parts, ".csv")) == Join(parts, "_processado.csv")
  {
    ReplaceAllJoin(parts, ".csv", "_processado.csv");
  }
}
