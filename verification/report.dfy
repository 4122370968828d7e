/** sdp-report/generate_report.py: its own party table and approval index,
    the top-15 selection behind the feature-importance chart, and the
    one-row-per-model shape of the benchmark table. */
module Report {
  import opened Outcomes
  import opened Seqs
  import opened Text
  import Analysis

  /** The report's party table: no centre-right label, and two more parties
      than the analysis script's table. */
  const PartyTable: map<string, Analysis.Spectrum> := map[
    "PT" := Analysis.Esquerda, "PCdoB" := Analysis.Esquerda, "PSOL" := Analysis.Esquerda, "REDE" := Analysis.Esquerda,
    "PDT" := Analysis.CentroEsquerda, "PSB" := Analysis.CentroEsquerda, "PV" := Analysis.CentroEsquerda,
    "MDB" := Analysis.Centro, "PSDB" := Analysis.Centro, "PSD" := Analysis.Centro, "PODE" := Analysis.Centro,
    "SOLIDARIEDADE" := Analysis.Centro,
    "DEM" := Analysis.Direita, "REPUBLICANOS" := Analysis.Direita, "PP" := Analysis.Direita,
    "PL" := Analysis.Direita, "PATRIOTA" := Analysis.Direita, "PSL" := Analysis.Direita, "NOVO" := Analysis.Direita
  ]

  /** A row of the combined table the report reads. */
  datatype Municipality = Municipality(partido: Option<string>, approval5: real, approval9: real)

  datatype Processed = Processed(source: Municipality, spectrum: Analysis.Spectrum, index: real)

  /** The report's derived columns: the spectrum is never centre-right, and
      the index is the mean of the two approval rates. */
  function Process(m: Municipality): (r: Processed)
    ensures r.source == m
    ensures r.spectrum != Analysis.CentroDireita
    ensures r.spectrum == Analysis.Classify(PartyTable, m.partido)
    ensures r.index + r.index == m.approval5 + m.approval9
  {
    assert Analysis.CentroDireita !in PartyTable.Values;
    Processed(m, Analysis.Classify(PartyTable, m.partido), (m.approval5 + m.approval9) / 2.0)
  }

  function ProcessRows(rows: seq<Municipality>): (r: seq<Processed>)
    ensures |r| == |rows|
    ensures forall i :: 0 <= i < |rows| ==> r[i] == Process(rows[i])
  {
    Map(rows, Process)
  }

  /** The lookup ignores case: "pt", "Pt" and "PT" are all left-wing. */
  lemma LookupIgnoresCase()
    ensures Analysis.Classify(PartyTable, Some("pt")) == Analysis.Esquerda
    ensures Analysis.Classify(PartyTable, Some("Pt")) == Analysis.Esquerda
    ensures Analysis.Classify(PartyTable, Some("PT")) == Analysis.Esquerda
  {
    assert Upper("pt") == "PT" && Upper("Pt") == "PT" && Upper("PT") == "PT";
  }

  /** "PCdoB" is in the table but no upper-cased party equals it. */
  lemma PCdoBIsOutros()
    ensures "PCdoB" in PartyTable
    ensures Analysis.Classify(PartyTable, Some("PCdoB")) == Analysis.Outros
  {
    assert Upper("PCdoB") == "PCDOB";
  }

  /** DEM, REPUBLICANOS and PP are right-wing in the report and centre-right
      in the analysis script. */
  lemma TablesDisagreeOnCentreRight(p: string)
    requires p == "DEM" || p == "REPUBLICANOS" || p == "PP"
    ensures Analysis.Classify(PartyTable, Some(p)) == Analysis.Direita
    ensures Analysis.Classify(Analysis.PartyTable, Some(p)) == Analysis.CentroDireita
  {
    assert Upper(p) == p;
  }

  /** The number of bars in the importance chart. */
  const TopCount: nat := 15

  function Descending(entry: (string, real)): real
  {
    -entry.1
  }

  /** The features behind the importance chart: nothing for a missing or
      empty importance table, otherwise the most important entries, at most
      fifteen, by descending importance. */
  function TopFeatures(importances: Option<seq<(string, real)>>): (r: Option<seq<(string, real)>>)
    ensures r.None? <==> importances.None? || importances.value == []
    ensures r.Some? ==> |r.value| == if |importances.value| < TopCount then |importances.value| else TopCount
    ensures r.Some? ==> forall i, j :: 0 <= i < j < |r.value| ==> r.value[i].1 >= r.value[j].1
    ensures r.Some? ==> multiset(r.value) <= multiset(importances.value)
  {
    match importances
    case None => None
    case Some(entries) =>
      if entries == [] then None
      else
        var sorted := SortBy(entries, Descending);
        var k := if |entries| < TopCount then |entries| else TopCount;
        assert sorted == sorted[..k] + sorted[k..];
        assert forall i, j :: 0 <= i < j < k ==> Descending(sorted[i]) <= Descending(sorted[j]);
        Some(sorted[..k])
  }

  /** An entry left out of the chart is no more important than any entry
      in it. */
  lemma TopFeaturesAreTop(entries: seq<(string, real)>, x: (string, real), y: (string, real))
    requires entries != []
    requires x in multiset(entries) - multiset(TopFeatures(Some(entries)).value)
    requires y in TopFeatures(Some(entries)).value
    ensures x.1 <= y.1
  {
    var sorted := SortBy(entries, Descending);
    var k := |TopFeatures(Some(entries)).value|;
    assert TopFeatures(Some(entries)).value == sorted[..k];
    LeftOverInSuffix(sorted, k, x);
    SortedPrefixDominates(sorted, k, x, y);
  }

  /** What a prefix leaves of a sequence's multiset lies in the suffix. */
  lemma LeftOverInSuffix<T>(s: seq<T>, k: nat, x: T)
    requires k <= |s| && x in multiset(s) - multiset(s[..k])
    ensures x in s[k..]
  {
    assert s == s[..k] + s[k..];
    assert multiset(s) == multiset(s[..k]) + multiset(s[k..]);
  }

  /** In a sequence sorted by descending importance, the prefix dominates
      the suffix. */
  lemma SortedPrefixDominates(sorted: seq<(string, real)>, k: nat, x: (string, real), y: (string, real))
    requires SortedBy(sorted, Descending) && k <= |sorted|
    requires x in sorted[k..] && y in sorted[..k]
    ensures x.1 <= y.1
  {
    var j :| 0 <= j < |sorted[k..]| && sorted[k..][j] == x;
    var i :| 0 <= i < k && sorted[..k][i] == y;
    assert Descending(sorted[i]) <= Descending(sorted[k + j]);
  }

  /** One model's benchmark result. */
  datatype Benchmark = Benchmark(bestScore: real, bestParams: string)

  /** A row of the HTML benchmark table. */
  datatype TableRow = TableRow(model: string, score: real, params: string)

  /** One table row per benchmark entry, in the order of the results. */
  function BenchmarkRows(results: seq<(string, Benchmark)>): (r: seq<TableRow>)
    ensures |r| == |results|
    ensures forall i :: 0 <= i < |results| ==>
              r[i] == TableRow(results[i].0, results[i].1.bestScore, results[i].1.bestParams)
  {
    Map(results, (e: (string, Benchmark)) => TableRow(e.0, e.1.bestScore, e.1.bestParams))
  }

  /** The table of a concatenation of results is the concatenation of the
      tables, so adding a model adds exactly its row at its place. */
  lemma BenchmarkRowsConcat(a: seq<(string, Benchmark)>, b: seq<(string, Benchmark)>)
    ensures BenchmarkRows(a + b) == BenchmarkRows(a) + BenchmarkRows(b)
  {
  }
}
