/** sdp-model/pipeline.py: which models a benchmark trains, the parameter
    grids, the file name a trained model is saved under, and the choice of
    the champion model from the per-fold ROC-AUC scores. Training and
    scoring themselves are scikit-learn's and are not modelled. */
module ModelSelection {
  import opened Outcomes
  import opened Seqs
  import opened Text

  datatype ModelKind = SVC | LRC | RFC

  /** The registry of trainable models, in its declaration order. */
  const Registry: seq<ModelKind> := [SVC, LRC, RFC]

  function Name(k: ModelKind): string
  {
    match k
    case SVC => "SVC"
    case LRC => "LRC"
    case RFC => "RFC"
  }

  /** The registry lookup by name (`train_models.get(name)`). */
  function KindNamed(name: string): (r: Option<ModelKind>)
    ensures r.Some? ==> Name(r.value) == name
    ensures r.None? <==> forall k :: Name(k) != name
  {
    if name == "SVC" then Some(SVC)
    else if name == "LRC" then Some(LRC)
    else if name == "RFC" then Some(RFC)
    else None
  }

  lemma NameRoundTrip(k: ModelKind)
    ensures KindNamed(Name(k)) == Some(k)
  {
  }

  function Position(k: ModelKind): nat
  {
    match k
    case SVC => 0
    case LRC => 1
    case RFC => 2
  }

  function Chosen(selected: seq<string>): ModelKind -> bool
  {
    (k: ModelKind) => Name(k) in selected
  }

  /** The models a benchmark trains: the registered ones named in
      `selected`, in registry order; other names are ignored. */
  function ModelSubset(selected: seq<string>): (r: seq<ModelKind>)
    ensures forall k :: k in r <==> Name(k) in selected
    ensures forall i, j :: 0 <= i < j < |r| ==> Position(r[i]) < Position(r[j])
  {
    var r := Filter(Registry, Chosen(selected));
    assert forall k :: Name(k) in selected ==> k in r by {
      forall k | Name(k) in selected
        ensures k in r
      {
        assert k in Registry;
        FilterKeeps(Registry, Chosen(selected), k);
      }
    }
    assert |r| <= 3;
    r
  }

  /** A name outside the registry changes nothing. */
  lemma UnknownNameIgnored(selected: seq<string>, name: string)
    requires KindNamed(name).None?
    ensures ModelSubset(selected + [name]) == ModelSubset(selected)
  {
    FilterCongruent(Registry, Chosen(selected + [name]), Chosen(selected));
  }

  /** A value in a parameter grid. */
  datatype Param = Real(x: real) | Whole(n: int) | Label(s: string) | Flag(b: bool) | Unbounded

  /** A grid: a parameter name and its candidate values, per parameter. */
  type Grid = seq<(string, seq<Param>)>

  const LrcGrid: Grid := [
    ("C", [Real(0.001), Real(0.005), Real(0.01), Real(0.05), Real(0.1), Real(0.5), Real(1.0), Real(5.0), Real(10.0)]),
    ("penalty", [Label("l1"), Label("l2")]),
    ("max_iter", [Whole(10000000)]),
    ("fit_intercept", [Flag(true)]),
    ("solver", [Label("liblinear")])
  ]
  const RfcGrid: Grid := [
    ("n_estimators", [Whole(5), Whole(30), Whole(50), Whole(75), Whole(100), Whole(150), Whole(200)]),
    ("max_depth", [Whole(4), Whole(5), Whole(6), Whole(7), Whole(8), Unbounded])
  ]
  const SvcGrid: Grid := [
    ("C", [Real(0.01), Real(0.05), Real(0.1), Real(0.5), Real(1.0), Real(5.0), Real(10.0)]),
    ("max_iter", [Whole(10000000)])
  ]

  /** The grid of a model: the fixed grid under grid search, empty otherwise. */
  function GridFor(gridSearch: bool, k: ModelKind): (r: Grid)
    ensures !gridSearch <==> r == []
  {
    if !gridSearch then []
    else match k
      case LRC => LrcGrid
      case RFC => RfcGrid
      case SVC => SvcGrid
  }

  /** The number of parameter combinations a grid search tries (one for the
      empty grid: the defaults). */
  function Candidates(g: Grid): (r: nat)
    ensures (forall i :: 0 <= i < |g| ==> g[i].1 != []) ==> r >= 1
  {
    if g == [] then 1 else |g[0].1| * Candidates(g[1..])
  }

  lemma GridSizes()
    ensures Candidates(GridFor(true, LRC)) == 18
    ensures Candidates(GridFor(true, RFC)) == 42
    ensures Candidates(GridFor(true, SVC)) == 7
    ensures forall k :: Candidates(GridFor(false, k)) == 1
  {
    assert Candidates(LrcGrid[4..]) == 1;
    assert Candidates(LrcGrid[3..]) == 1;
    assert Candidates(LrcGrid[2..]) == 1;
    assert Candidates(LrcGrid[1..]) == 2;
    assert Candidates(RfcGrid[1..]) == 6;
    assert Candidates(SvcGrid[1..]) == 1;
  }

  /** What `make_model` hands to training. */
  datatype ModelInfo = ModelInfo(name: Option<string>, instance: Option<ModelKind>, grid: Option<Grid>)

  /** An unregistered or missing name gives neither a model nor a grid. */
  function MakeModelInfo(gridSearch: bool, selected: Option<string>): (r: ModelInfo)
    ensures r.name == selected
    ensures r.instance.None? <==> selected.None? || forall k :: Name(k) != selected.value
    ensures r.instance.Some? ==> Name(r.instance.value) == selected.value
    ensures r.grid.None? <==> r.instance.None?
    ensures r.instance.Some? ==> r.grid == Some(GridFor(gridSearch, r.instance.value))
  {
    match selected
    case None => ModelInfo(None, None, None)
    case Some(n) =>
      match KindNamed(n)
      case None => ModelInfo(selected, None, None)
      case Some(k) => ModelInfo(selected, Some(k), Some(GridFor(gridSearch, k)))
  }

  /** The pickle file a trained model is saved to. */
  function ModelFileName(name: string, criteria: string, balance: string): (r: string)
    ensures |r| >= 10 && r[..6] == "model-" && r[|r| - 4..] == ".pkl"
  {
    "model-" + name + "-" + Upper(criteria) + "-" + balance + ".pkl"
  }

  /** Splitting at the first '-' recovers both halves when the left one has
      none. */
  lemma SplitAtDash(a: string, b: string, a': string, b': string)
    requires '-' !in a && '-' !in a'
    requires a + "-" + b == a' + "-" + b'
    ensures a == a' && b == b'
  {
    var s := a + "-" + b;
    assert forall i :: 0 <= i < |a'| ==> s[i] != '-' by {
      forall i | 0 <= i < |a'|
        ensures s[i] != '-'
      {
        assert s[i] == a'[i] && a'[i] in a';
      }
    }
    assert forall i :: 0 <= i < |a| ==> s[i] != '-' by {
      forall i | 0 <= i < |a|
        ensures s[i] != '-'
      {
        assert s[i] == a[i] && a[i] in a;
      }
    }
    assert s[|a|] == '-' && s[|a'|] == '-';
    assert |a| == |a'|;
    assert a == s[..|a|] == a';
    assert b == s[|a| + 1..] == b';
  }

  /** Without '-' in the name and the criterion, the file name determines
      the model name, the upper-cased criterion and the balance method. */
  lemma ModelFileNameDetermines(name: string, criteria: string, balance: string,
                                name': string, criteria': string, balance': string)
    requires '-' !in name && '-' !in name' && '-' !in criteria && '-' !in criteria'
    requires ModelFileName(name, criteria, balance) == ModelFileName(name', criteria', balance')
    ensures name == name' && Upper(criteria) == Upper(criteria') && balance == balance'
  {
    var f := ModelFileName(name, criteria, balance);
    var f' := ModelFileName(name', criteria', balance');
    var mid := name + "-" + (Upper(criteria) + "-" + balance);
    var mid' := name' + "-" + (Upper(criteria') + "-" + balance');
    assert f == "model-" + mid + ".pkl";
    assert f' == "model-" + mid' + ".pkl";
    assert mid == f[6..|f| - 4] && mid' == f'[6..|f'| - 4];
    SplitAtDash(name, Upper(criteria) + "-" + balance, name', Upper(criteria') + "-" + balance');
    assert '-' !in Upper(criteria) by {
      forall i | 0 <= i < |criteria|
        ensures Upper(criteria)[i] != '-'
      {
        assert criteria[i] in criteria;
      }
    }
    assert '-' !in Upper(criteria') by {
      forall i | 0 <= i < |criteria'|
        ensures Upper(criteria')[i] != '-'
      {
        assert criteria'[i] in criteria';
      }
    }
    SplitAtDash(Upper(criteria), balance, Upper(criteria'), balance');
  }

  /** With a '-' inside a name two different saves share one file. */
  lemma ModelFileNameCollision()
    ensures ModelFileName("a-B", "x", "c") == ModelFileName("a", "b-x", "c")
  {
    assert Upper("x") == "X";
    assert Upper("b-x") == "B-X";
  }

  /** One fold's scores: a model name and its ROC-AUC, in the fold's order. */
  type Fold = seq<(string, real)>

  /** All (name, score) pairs of a benchmark, fold by fold. */
  function Entries(folds: seq<Fold>): seq<(string, real)>
  {
    if folds == [] then [] else folds[0] + Entries(folds[1..])
  }

  /** The distinct names of `es`, in the order they first occur. */
  function FirstSeen(es: seq<(string, real)>): (r: seq<string>)
    ensures forall i, j :: 0 <= i < j < |r| ==> r[i] != r[j]
  {
    if es == [] then []
    else
      var pre := FirstSeen(es[..|es| - 1]);
      var last := es[|es| - 1];
      if last.0 in pre then pre else pre + [last.0]
  }

  /** Every name of `es` is listed, and only those. */
  lemma {:induction false} FirstSeenNames(es: seq<(string, real)>)
    ensures forall n :: n in FirstSeen(es) <==> exists e :: e in es && e.0 == n
  {
    if es != [] {
      var init := es[..|es| - 1];
      var last := es[|es| - 1];
      FirstSeenNames(init);
      assert es == init + [last];
      assert forall e :: e in es <==> e in init || e == last;
    }
  }

  function Named(name: string): ((string, real)) -> bool
  {
    (e: (string, real)) => e.0 == name
  }

  function Score(e: (string, real)): real
  {
    e.1
  }

  /** The scores recorded for `name`, in order. */
  function ScoresOf(es: seq<(string, real)>, name: string): (r: seq<real>)
    ensures (exists e :: e in es && e.0 == name) ==> r != []
  {
    var kept := Filter(es, Named(name));
    assert (exists e :: e in es && e.0 == name) ==> kept != [] by {
      if e :| e in es && e.0 == name {
        FilterKeeps(es, Named(name), e);
      }
    }
    Map(kept, Score)
  }

  /** The arithmetic mean (0 for no scores, which a recorded name never has). */
  function Mean(s: seq<real>): real
  {
    if s == [] then 0.0 else SumReal(s) / (|s| as real)
  }

  /** The mean ROC-AUC of `name` over the benchmark. */
  function MeanScore(folds: seq<Fold>, name: string): real
  {
    Mean(ScoresOf(Entries(folds), name))
  }

  /** The scores a fold contributes to `name`, fold by fold. */
  function PerFold(folds: seq<Fold>, name: string): seq<real>
  {
    if folds == [] then [] else ScoresOf(folds[0], name) + PerFold(folds[1..], name)
  }

  lemma ScoresOfConcat(a: seq<(string, real)>, b: seq<(string, real)>, name: string)
    ensures ScoresOf(a + b, name) == ScoresOf(a, name) + ScoresOf(b, name)
  {
    FilterConcat(a, b, Named(name));
    MapConcat(Filter(a, Named(name)), Filter(b, Named(name)), Score);
  }

  /** A model's scores are gathered fold by fold, in fold order. */
  lemma {:induction false} ScoresFollowFolds(folds: seq<Fold>, name: string)
    ensures ScoresOf(Entries(folds), name) == PerFold(folds, name)
  {
    if folds != [] {
      ScoresFollowFolds(folds[1..], name);
      ScoresOfConcat(folds[0], Entries(folds[1..]), name);
    }
  }

  /** In a fold listing each model once, a model gets exactly one score when
      the fold contains it and none otherwise. */
  lemma {:induction false} OneScorePerFold(fold: Fold, name: string)
    requires forall i, j :: 0 <= i < j < |fold| ==> fold[i].0 != fold[j].0
    ensures |ScoresOf(fold, name)| == if exists e :: e in fold && e.0 == name then 1 else 0
  {
    if fold != [] {
      assert fold == [fold[0]] + fold[1..];
      ScoresOfConcat([fold[0]], fold[1..], name);
      OneScorePerFold(fold[1..], name);
      if fold[0].0 == name {
        assert forall e :: e in fold[1..] ==> e.0 != name by {
          forall e | e in fold[1..]
            ensures e.0 != name
          {
            var j :| 0 <= j < |fold[1..]| && fold[1..][j] == e;
            assert fold[j + 1] == e;
          }
        }
      } else {
        assert forall e :: e in fold && e.0 == name ==> e in fold[1..];
      }
    }
  }

  lemma ScoresSnoc(es: seq<(string, real)>, e: (string, real), name: string)
    ensures ScoresOf(es + [e], name) == ScoresOf(es, name) + (if e.0 == name then [e.1] else [])
  {
    ScoresOfConcat(es, [e], name);
    assert Filter([e], Named(name)) == if e.0 == name then [e] else [];
  }

  lemma {:induction false} ScoresOfAbsent(es: seq<(string, real)>, name: string)
    requires forall e :: e in es ==> e.0 != name
    ensures ScoresOf(es, name) == []
  {
    if es != [] {
      ScoresOfAbsent(es[1..], name);
      assert es[0] in es;
    }
  }

  /** `order` and `results` hold exactly the names of `es` in order of first
      appearance and each name's scores. */
  ghost predicate Gathered(es: seq<(string, real)>, order: seq<string>, results: map<string, seq<real>>)
  {
    && order == FirstSeen(es)
    && (forall n :: n in results <==> n in order)
    && forall n :: n in results ==> results[n] == ScoresOf(es, n)
  }

  lemma FirstSeenSnoc(es: seq<(string, real)>, e: (string, real))
    ensures FirstSeen(es + [e]) == if e.0 in FirstSeen(es) then FirstSeen(es) else FirstSeen(es) + [e.0]
  {
    var es' := es + [e];
    assert es'[..|es'| - 1] == es;
  }

  lemma GatherKnown(es: seq<(string, real)>, e: (string, real), order: seq<string>, results: map<string, seq<real>>)
    requires Gathered(es, order, results) && e.0 in results
    ensures Gathered(es + [e], order, results[e.0 := results[e.0] + [e.1]])
  {
    FirstSeenSnoc(es, e);
    assert e.0 in FirstSeen(es);
    AppendScore(es, e, results);
  }

  lemma GatherNew(es: seq<(string, real)>, e: (string, real), order: seq<string>, results: map<string, seq<real>>)
    requires Gathered(es, order, results) && e.0 !in results
    ensures Gathered(es + [e], order + [e.0], results[e.0 := [e.1]])
  {
    FirstSeenSnoc(es, e);
    FirstSeenNames(es);
    assert forall x :: x in es ==> x.0 != e.0;
    ScoresOfAbsent(es, e.0);
    AppendScore(es, e, results);
  }

  /** One more entry extends its name's list, whether or not the name had
      a list already, and leaves every other list alone. */
  lemma AppendScore(es: seq<(string, real)>, e: (string, real), results: map<string, seq<real>>)
    requires forall n :: n in results ==> results[n] == ScoresOf(es, n)
    requires e.0 !in results ==> ScoresOf(es, e.0) == []
    ensures var extended := if e.0 in results then results[e.0] + [e.1] else [e.1];
            forall n :: n in results[e.0 := extended] ==> results[e.0 := extended][n] == ScoresOf(es + [e], n)
  {
    var extended := if e.0 in results then results[e.0] + [e.1] else [e.1];
    var results' := results[e.0 := extended];
    forall n | n in results'
      ensures results'[n] == ScoresOf(es + [e], n)
    {
      ScoresSnoc(es, e, n);
    }
  }

  /** The per-model score lists, gathered in one pass over the folds: the
      names in order of first appearance and each name's scores. */
  method GatherScores(es: seq<(string, real)>) returns (order: seq<string>, results: map<string, seq<real>>)
    ensures order == FirstSeen(es)
    ensures forall n :: n in results <==> n in order
    ensures forall n :: n in results ==> results[n] == ScoresOf(es, n)
  {
    order := [];
    results := map[];
    var j := 0;
    while j < |es|
      invariant 0 <= j <= |es|
      invariant Gathered(es[..j], order, results)
    {
      var (name, score) := es[j];
      assert es[..j + 1] == es[..j] + [es[j]];
      if name in results {
        GatherKnown(es[..j], es[j], order, results);
        results := results[name := results[name] + [score]];
      } else {
        GatherNew(es[..j], es[j], order, results);
        results := results[name := [score]];
        order := order + [name];
      }
      j := j + 1;
    }
    assert es[..|es|] == es;
  }

  /** The first name, in `order`, whose mean score is the largest and
      positive; none when no mean is positive. */
  method HighestMean(order: seq<string>, results: map<string, seq<real>>) returns (best: Option<string>, ghost at: nat)
    requires forall n :: n in order ==> n in results && results[n] != []
    ensures best.None? <==> forall n :: n in order ==> Mean(results[n]) <= 0.0
    ensures best.Some? ==> at < |order| && order[at] == best.value && Mean(results[best.value]) > 0.0
    ensures best.Some? ==> forall n :: n in order ==> Mean(results[n]) <= Mean(results[best.value])
    ensures best.Some? ==> forall p :: 0 <= p < at ==> Mean(results[order[p]]) < Mean(results[best.value])
  {
    best := None;
    at := 0;
    var bestScore := 0.0;
    var k := 0;
    while k < |order|
      invariant 0 <= k <= |order|
      invariant best.None? ==> bestScore == 0.0 && forall p :: 0 <= p < k ==> Mean(results[order[p]]) <= 0.0
      invariant best.Some? ==> at < k && order[at] == best.value && bestScore == Mean(results[best.value]) && bestScore > 0.0
      invariant best.Some? ==> forall p :: 0 <= p < k ==> Mean(results[order[p]]) <= bestScore
      invariant best.Some? ==> forall p :: 0 <= p < at ==> Mean(results[order[p]]) < bestScore
    {
      assert order[k] in order;
      var scores := results[order[k]];
      var average := SumReal(scores) / (|scores| as real);
      if average > bestScore {
        best := Some(order[k]);
        bestScore := average;
        at := k;
      }
      k := k + 1;
    }
    assert forall n :: n in order ==> exists p :: 0 <= p < |order| && order[p] == n;
  }

  /** The champion: the model with the highest mean ROC-AUC over the folds,
      provided that mean is positive; ties go to the model seen first. The
      list of selected models plays no part in the choice. */
  method SelectBestModel(folds: seq<Fold>, selected: seq<string>) returns (best: Option<string>)
    ensures best.None? <==> forall n :: n in FirstSeen(Entries(folds)) ==> MeanScore(folds, n) <= 0.0
    ensures best.Some? ==> best.value in FirstSeen(Entries(folds)) && MeanScore(folds, best.value) > 0.0
    ensures best.Some? ==> forall n :: n in FirstSeen(Entries(folds)) ==> MeanScore(folds, n) <= MeanScore(folds, best.value)
    ensures best.Some? ==> forall p, q :: 0 <= p < q < |FirstSeen(Entries(folds))| && FirstSeen(Entries(folds))[q] == best.value ==> MeanScore(folds, FirstSeen(Entries(folds))[p]) < MeanScore(folds, best.value)
  {
    var es := Entries(folds);
    var order, results := GatherScores(es);
    ScoresPresent(es, order, results);
    ghost var at;
    best, at := HighestMean(order, results);
    MeansAgree(folds, order, results);
    if best.Some? {
      forall p, q | 0 <= p < q < |order| && order[q] == best.value
        ensures MeanScore(folds, order[p]) < MeanScore(folds, best.value)
      {
        assert q == at;
      }
    }
  }

  /** Every gathered name has at least one score. */
  lemma ScoresPresent(es: seq<(string, real)>, order: seq<string>, results: map<string, seq<real>>)
    requires order == FirstSeen(es)
    requires forall n :: n in results <==> n in order
    requires forall n :: n in results ==> results[n] == ScoresOf(es, n)
    ensures forall n :: n in order ==> n in results && results[n] != []
  {
    FirstSeenNames(es);
  }

  /** The gathered lists give the benchmark means. */
  lemma MeansAgree(folds: seq<Fold>, order: seq<string>, results: map<string, seq<real>>)
    requires forall n :: n in order ==> n in results && results[n] == ScoresOf(Entries(folds), n)
    ensures forall n :: n in order ==> Mean(results[n]) == MeanScore(folds, n)
  {
  }
}
