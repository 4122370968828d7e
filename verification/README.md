# Municipal school pass rates, mayors' parties and model selection — a Dafny model

The repository builds a dataset that links Brazilian municipal school pass
rates (INEP's "taxa de rendimento" spreadsheets) to the party of each
municipality's elected mayor (2020 elections). It then derives analysis
features, picks a classifier by cross-validated ROC-AUC and serves
predictions over HTTP. This project models the deterministic core of that
pipeline, with each pandas step written as a pure function on tables:

- `Frames`: a data frame is a list of labels and a list of rows of `Cells.Cell`
  (missing, text, integer or finite decimal). The frame operations used are
  column selection, equality masks, column assignment, relabelling,
  `dropna` and `merge` (inner and left, in pandas 2.2 row order).
- `Text` and `Cells`: the string and cell conversions. These are `str(int)`,
  float `repr`, `zfill`, `upper`, a literal `replace`, the anchored `\.0$`
  substitution, `pd.to_numeric(errors='coerce')` and half-even rounding to
  three places.
- `MunicipalityKeys`: the three divergent municipality-key normalisers and
  how they differ.
- `EducationData` (create_education_data.py): positional naming of the
  header-less sheet, the municipal-total filter, the seven-column
  projection, the key and rate cleaning, `dropna`, and the
  local-file/retry decision of the download.
- `InepRates` (tx_rend.py): the older loader. It labels columns by
  position with X0, X1, … for any surplus column, keeps all-networks total
  rows, keeps three columns, removes every ".0" from the key, blanks "--"
  and converts rates. It also covers the XLSX-to-CSV rewrite and the choice
  of input.
- `MergeData` (merge_data.py): the elected-mayor filter, the asymmetric
  key texts, the inner join, the final column order, the drop of rows
  without a party, and the start-of-run decisions.
- `Elections` (eleicoes.py): the mayor loader and the left join that keeps
  every municipality.
- `Analysis` (analise_dados.py) and `Report` (generate_report.py): the
  party-to-spectrum tables, the region map, the approval index, the
  above-median flag, the output file name, the top-15 feature selection
  and the benchmark table shape.
- `ModelSelection` (sdp-model/pipeline.py): the model subset, the parameter
  grids, `make_model`'s model info, the pickle file name, and
  `select_best_model`.
- `PredictService` (app.py): the status-code decision of `/predict` and
  `/health`.

Where the repository's documentation and its code disagree, the
model follows the code:

- A municipality key is at least seven characters long, not exactly seven.
  `zfill` never truncates, and create_education_data.py:120 leaves an
  inner ".0" in place.
- A rate lies in [0, 1] only when its source percentage lies in [0, 100].
- A request declared as JSON whose body does not parse makes
  `request.get_json()` raise inside the `try` of app.py:25-41. It is
  answered with 500, not with a client error.
- A JSON `null`, number or boolean body makes the `in` test raise, and
  is also answered with 500.

## Model

| member | source | states |
|---|---|---|
| Text.ZFillIdempotent | sdp-data/create_education_data.py:120 | padding an already padded key again changes nothing |
| Text.ZFillPreservesValue | sdp-data/create_education_data.py:120 | zero-padding a digit string gives a digit string denoting the same number, so the padded key names the same municipality code |
| Text.NatTextValue | sdp-data/create_education_data.py:120 | reading back the digits of `str(n)` gives `n` |
| Text.StripAnchoredDotZero | sdp-data/create_education_data.py:120 | the anchored `\.0$` substitution removes exactly one trailing ".0" (also before a final newline) and otherwise leaves the text alone |
| Text.ReplaceAllAbsent | docs/tx_rend.py:89 | `str.replace` leaves a text without the pattern unchanged |
| Text.ReplaceAllFirst | docs/tx_rend.py:89 | when no occurrence starts before a given one, that one is the first replaced and the scan resumes right after it, so occurrences do not overlap |
| Text.ReplaceAllTrailing | docs/analise_dados.py:232 | when no occurrence starts before a trailing occurrence, exactly that occurrence is replaced |
| Text.ReplaceAllJoin | docs/analise_dados.py:232 | `replace` rewrites every occurrence: parts joined by the pattern, with no other occurrence found first, come back joined by the replacement |
| Text.Upper | docs/analise_dados.py:31 | each ASCII letter 'a'..'z' becomes the matching 'A'..'Z', every other character is kept in place, and no lower-case ASCII letter remains |
| Text.UpperIdempotent | docs/analise_dados.py:31 | upper-casing twice is upper-casing once |
| Text.ParseDecimal | sdp-data/create_education_data.py:125 | a text that parses starts with a digit, sign or dot; an unsigned text never parses to a negative value and a '-' text never to a positive one |
| Text.ParsesFixedPoint | sdp-data/create_education_data.py:125 | an optional sign, digits, '.' and digits, with at least one digit, reads as the signed digits over ten to the number of fractional digits |
| Text.ParsesInteger | sdp-data/create_education_data.py:125 | an optional sign and digits read as that signed whole number |
| Text.ParsedParts | sdp-data/create_education_data.py:125 | conversely, every text that parses is an optional sign, digits and an optional '.' with digits, and has the value above |
| Text.PlaceholderUnparsable | sdp-data/create_education_data.py:124-125 | the "--" placeholder does not parse as a number |
| Text.IntTextParses | sdp-data/create_education_data.py:125 | the text of an integer parses back to that integer |
| Cells.Normalize | sdp-data/create_education_data.py:120 | dropping trailing fractional zeros keeps the decimal's value and leaves no trailing zero |
| Cells.WholeFloatText | sdp-data/create_education_data.py:120 | `astype(str)` of a whole-valued float is the integer text plus ".0", whatever zeros the decimal carries |
| Cells.ToNumeric | sdp-data/create_education_data.py:125 | `to_numeric(errors='coerce')` keeps numbers, is missing on a missing cell, and on text succeeds exactly when the text parses, with the parsed value |
| Cells.NumericTextRoundTrip | sdp-data/create_education_data.py:120-125 | writing any cell with `astype(str)` and reading it back with `to_numeric` gives the cell's numeric value, or missing again |
| Cells.FloatTextParses | sdp-data/create_education_data.py:120-125 | a float's repr reads back as the float's value |
| Cells.NumericTextOfInt | sdp-data/create_education_data.py:125 | an integer gives the same number whether it was read as text or as an integer |
| Cells.RoundHalfEven | sdp-data/create_education_data.py:126 | the rounded integer is within one half of the input and even on a tie |
| Cells.RoundHalfEvenUnique | sdp-data/create_education_data.py:126 | any integer within one half of the input, even on a tie, is the rounded value, so the contract determines the rounding |
| Cells.RateCell | sdp-data/create_education_data.py:122-126 | a rate is missing exactly when the cell does not parse; otherwise it is on the thousandths grid, within 0.0005 of the percentage divided by 100, with an even last digit on a tie, and in [0, 1] when the percentage is in [0, 100] |
| Cells.RateCellDetermined | sdp-data/create_education_data.py:125-126 | any three-place decimal within 0.0005 of the percentage over 100, and even on a tie, is the rate, so the contract fixes the value |
| Cells.PlaceholderRateMissing | sdp-data/create_education_data.py:124-126 | the "--" placeholder becomes a missing rate instead of raising |
| Cells.RateOfEightyFive | sdp-data/create_education_data.py:125-126 | the percentage "85" becomes the rate 0.850 |
| MunicipalityKeys.EducationKey | sdp-data/create_education_data.py:120 | the key is at least seven characters, and a digit code keeps its numeric value |
| MunicipalityKeys.EducationKeyOfCode | sdp-data/create_education_data.py:120 | an integer code becomes a digit key of the same value, seven characters long unless the code has more digits |
| MunicipalityKeys.EducationKeyOfWholeFloat | sdp-data/create_education_data.py:120 | a code read from a float column gets the same key as the integer code |
| MunicipalityKeys.EducationKeyPadsShortCode | sdp-data/create_education_data.py:120 | 1234 becomes "0001234" |
| MunicipalityKeys.EducationKeyStripsFloatSuffix | sdp-data/create_education_data.py:120 | "2304400.0" becomes "2304400" |
| MunicipalityKeys.EducationKeyIdempotentOnCodes | sdp-data/create_education_data.py:120 | on digit codes with or without a ".0" suffix, normalising the key again changes nothing |
| MunicipalityKeys.StripDotZeroSuffix | sdp-data/create_education_data.py:120 | the anchored removal takes off exactly one trailing ".0" |
| MunicipalityKeys.EducationKeyNotIdempotent | sdp-data/create_education_data.py:120 | in general it is not idempotent: "1.0.0" becomes "00001.0", which becomes "0000001" |
| MunicipalityKeys.EducationKeyKeepsInnerDotZero | sdp-data/create_education_data.py:120 | an inner ".0" stays: "1.05" becomes "0001.05" |
| MunicipalityKeys.InepKey | docs/tx_rend.py:89 | text stays text and every other cell becomes missing; the key has at least seven characters; a text without ".0" is only padded |
| MunicipalityKeys.InepKeyRemovesInnerDotZero | docs/tx_rend.py:89 | every ".0" is removed, not only a trailing one: "1.05" becomes "0000015" |
| MunicipalityKeys.InepKeyAgreesOnCodes | docs/tx_rend.py:89 | on digit codes with an optional ".0" suffix the two loaders' key normalisers agree |
| MunicipalityKeys.DotZeroRemovalCreatesDotZero | docs/tx_rend.py:89 | removing every ".0" can create a new one: "..00" becomes ".0" |
| MunicipalityKeys.InepKeyNotIdempotent | docs/tx_rend.py:89 | so the tx_rend normaliser is not idempotent: "..00" becomes "00000.0", which becomes "0000000" |
| MunicipalityKeys.PaddedKey | sdp-data/merge_data.py:68 | the padded key has at least seven characters, is the text itself once that is long enough, and keeps a digit code's value |
| MunicipalityKeys.PaddedKeyKeepsDotZero | docs/eleicoes.py:30 | padding alone keeps a float column's ".0", so a seven-digit code read as a float never equals any integer code's key |
| MunicipalityKeys.PaddedKeyOfCode | docs/eleicoes.py:30 | on an integer code, padding alone and the education normaliser agree |
| Frames.SetColumns | sdp-data/create_education_data.py:97 | relabelling succeeds exactly when there is one label per column, keeps the rows, and otherwise raises a length mismatch |
| Frames.PositionsFirstAbsent | sdp-data/merge_data.py:60-64 | the first requested label that is not a column is the one the `KeyError` names |
| Frames.Where | sdp-data/create_education_data.py:101-104 | the mask keeps exactly the rows that hold each tested text, in their original order; a test on an absent column raises `KeyError` |
| Frames.WhereIdempotent | sdp-data/create_education_data.py:101-104 | filtering twice with the same mask equals filtering once |
| Frames.Select | sdp-data/create_education_data.py:116 | `df[names]` succeeds exactly when every name is a column, and each output cell is the named cell of the same row |
| Frames.MapColumn | sdp-data/create_education_data.py:120 | assigning a transformed column rewrites that column's cells and leaves every other cell unchanged |
| Frames.MapColumnsCell | sdp-data/create_education_data.py:122-126 | the loop over distinct columns applies the transform exactly once to each listed column and leaves the others alone |
| Frames.DropIncomplete | sdp-data/create_education_data.py:128 | `dropna` keeps exactly the rows without a missing cell, in their original order |
| Frames.DropMissingIn | sdp-data/merge_data.py:82 | `dropna(subset=[name])` keeps exactly the rows whose cell in that column is present, in their original order and with their repeats, and raises `KeyError` for an absent column |
| Frames.Merge | sdp-data/merge_data.py:71 | the merge succeeds exactly when the key is a column of both sides; the result has the left labels then the right labels without the key, and the joined rows |
| Frames.InnerRowsAreMatchedPairs | sdp-data/merge_data.py:71 | every inner-join row is a left row followed by the non-key cells of a right row with the same key |
| Frames.MatchedPairsAppear | sdp-data/merge_data.py:71 | every pair of left and right rows with equal keys produces an output row |
| Frames.JoinRowCount | sdp-data/merge_data.py:71 | each left row yields one output row per partner, or, in a left join, a single row when it has none |
| Frames.UnmatchedRowPadded | docs/eleicoes.py:56-60 | a left row without partners survives a left join once, padded with missing cells |
| Frames.LeftJoinKeepsEveryRow | docs/eleicoes.py:56-60 | a left join drops no left row |
| Frames.LeftJoinSize | docs/eleicoes.py:56-60 | a left join has at least as many rows as its left side, and exactly as many when no key has more than one partner |
| Frames.CleanWith | docs/tx_rend.py:89-100 | the key pass, the placeholder pass and the rate passes leave every key cell blanked after normalising and every other cell converted after blanking |
| EducationData.NameColumns | sdp-data/create_education_data.py:82-97 | labelling succeeds exactly when the sheet has at least 61 columns; the first 61 columns then carry the declared names in order, and a narrower sheet raises a length mismatch |
| EducationData.SchemaFacts | sdp-data/create_education_data.py:82-117 | the filter labels sit at positions 5 and 6, and every filtered and projected label is a declared column |
| EducationData.ExtractRowPositions | sdp-data/create_education_data.py:82-117 | the projected fields are read from raw columns 3, 14, 32, 50, 18, 36 and 54 |
| EducationData.FilterPositions | sdp-data/create_education_data.py:101-104 | a raw row is kept exactly when column 5 is the text "Total" and column 6 is the text "Municipal" |
| EducationData.Project | sdp-data/create_education_data.py:106-117 | the projection has the seven output names in order, and each cell is the cell of the corresponding source field |
| EducationData.Normalise | sdp-data/create_education_data.py:119-126 | the key cell goes through the key normalisation and every other cell through the rate conversion |
| EducationData.NormaliseWith | sdp-data/create_education_data.py:120-126 | for any key and rate conversions, the first column gets the key conversion and every other column the rate conversion exactly once |
| EducationData.ExtractRow | sdp-data/create_education_data.py:106-126 | an extracted row has seven cells: a text key of at least seven characters, then six cells each missing or on the thousandths grid |
| EducationData.ProcessEducation | sdp-data/create_education_data.py:71-128 | processing succeeds exactly when the sheet has at least 61 columns, and the output has exactly the seven output columns |
| EducationData.ProcessEducationRows | sdp-data/create_education_data.py:96-128 | the output rows are the municipal-total rows, each turned into its extracted row, with the incomplete ones dropped, in sheet order |
| EducationData.ProcessedRowShape | sdp-data/create_education_data.py:128 | every surviving row is complete, with a key of at least seven characters and six rates on the thousandths grid |
| EducationData.Fetch | sdp-data/create_education_data.py:13-69 | a local spreadsheet skips the network; otherwise there are one to three requests, only network failures are retried, and the pauses follow the backoff |
| EducationData.FetchSettlesOnLastAttempt | sdp-data/create_education_data.py:36-67 | the last request decides the outcome; a network failure is re-raised only after the third attempt, and a missing spreadsheet is not retried |
| EducationData.FetchStopsAtFirstAnswer | sdp-data/create_education_data.py:36-67 | the first request that does not fail on the network is the last one made |
| EducationData.ThreeFailures | sdp-data/create_education_data.py:33-67 | three network failures give three requests, pauses of 10 and 20 seconds, and the last error re-raised |
| InepRates.LabelsOver | docs/tx_rend.py:71-76 | a sheet gets exactly one label per column: the base names, then X0, X1, … beyond them, or the base list cut short |
| InepRates.ExtraLabelIsNotBase | docs/tx_rend.py:73 | a surplus label never collides with a base label |
| InepRates.LabelSheet | docs/tx_rend.py:71-76 | labelling the text table never fails and keeps every row |
| InepRates.LoaderPositions | docs/tx_rend.py:62-69 | on a wide enough sheet the key, filter and rate labels sit at positions 3, 5, 6, 14 and 18 |
| InepRates.SamePositionsAsEducation | docs/tx_rend.py:62-69 | the two approval rates are read from the same raw columns that the newer loader names `APR_5ANO` and `APR_9ANO` |
| InepRates.FilterFieldsPresent | docs/tx_rend.py:79-82 | both filter labels exist exactly when the sheet has more than six columns |
| InepRates.RateFieldsPresent | docs/tx_rend.py:85 | the three projected labels exist exactly when the sheet has at least 19 columns |
| InepRates.LoadRates | docs/tx_rend.py:58-105 | the loader succeeds exactly when the sheet has at least 19 columns, else raises `KeyError`; its columns are exactly the key and the two approval rates |
| InepRates.TotalsByPosition | docs/tx_rend.py:79-82 | the mask keeps exactly the rows whose columns 5 and 6 both hold "Total" |
| InepRates.LoadRatesRows | docs/tx_rend.py:79-103 | the output rows are the all-networks total rows, each turned into its key and two rates, with the incomplete ones dropped, in sheet order |
| InepRates.LoadedRowShape | docs/tx_rend.py:103 | every returned row is complete, with a key of at least seven characters and two rates on the thousandths grid |
| InepRates.CleanRates | docs/tx_rend.py:86-103 | the cleaned rows are the projected rows, each cleaned, with the incomplete ones dropped |
| InepRates.KeyNeverPlaceholder | docs/tx_rend.py:89-92 | the placeholder replacement never touches a normalised key |
| InepRates.BlankBeforeRate | docs/tx_rend.py:92-96 | replacing "--" before the numeric parse changes no rate, since the parse already makes it missing |
| InepRates.ConvertSheet | docs/tx_rend.py:51-52 | only the code column, when present, is padded; without it the table is unchanged |
| InepRates.CsvPathSwapsExtension | docs/tx_rend.py:54 | a path ending in ".xlsx" with no other occurrence starting earlier swaps it for ".csv" |
| InepRates.CsvPathRewritesDirectories | docs/tx_rend.py:54 | every ".xlsx" in the path is rewritten: parts joined by ".xlsx" come back joined by ".csv", so one in a directory name changes too |
| InepRates.ChooseSource | docs/tx_rend.py:107-113 | an existing non-empty local file wins, else a non-empty URL, else a `ValueError` |
| MergeData.PaddedCell | sdp-data/merge_data.py:68 | the election key is text of at least seven characters |
| MergeData.ElectionSide | sdp-data/merge_data.py:60-68 | the election side exists exactly when the filter and projected labels are columns, otherwise raises `KeyError`; it has exactly the columns `ID_MUNICIPIO` and `PARTIDO`, with padded keys |
| MergeData.ElectionSideFirstMissing | sdp-data/merge_data.py:60-64 | a missing label raises the `KeyError` of the first one read: "cargo", then "situacao", then "codibge", then "partido" |
| MergeData.ElectionSideRows | sdp-data/merge_data.py:60-68 | its rows are, in order, each elected mayor's padded code and party, and only rows with `cargo == "prefeito"` and `situacao == "ELEITO"` |
| MergeData.EducationSide | sdp-data/merge_data.py:67 | the education side exists exactly when it has an `ID_MUNICIPIO` column, else raises `KeyError("ID_MUNICIPIO")`; it keeps the columns and the number of rows, turns each key cell into its `astype(str)` text and keeps every other cell |
| MergeData.Combine | sdp-data/merge_data.py:57-82 | the combination fails only with `KeyError`; its columns are exactly the eight listed, in order, and no row lacks a party |
| MergeData.CombineFirstMissing | sdp-data/merge_data.py:60-67 | the election labels are read first, in script order, and only then the education key, so the `KeyError` names the first missing one of "cargo", "situacao", "codibge", "partido", "ID_MUNICIPIO" |
| MergeData.CombineRows | sdp-data/merge_data.py:67-82 | the rows are, in order and with repeats, each education row combined with each elected mayor, in election order, whose padded key equals the education key text and whose party is present; and a row is in the table exactly when it is such a combination |
| MergeData.ShortKeyNeverJoins | sdp-data/merge_data.py:67-71 | an education key text shorter than seven characters never reaches the combined table |
| MergeData.SixDigitCodeNeverMatches | sdp-data/merge_data.py:67-68 | a code of at most six digits read as an integer has a key text that no election key equals |
| MergeData.SevenDigitCodeMatches | sdp-data/merge_data.py:67-68 | a seven-digit code gets the same key text on both sides |
| MergeData.PrepareRun | sdp-data/merge_data.py:12-54 | a missing education file exits with status 1 before any download; an existing election file is reused; otherwise it is downloaded, and a failed request is re-raised |
| MergeData.CachedFileIgnoresNetwork | sdp-data/merge_data.py:13-15 | with the election file present the network response makes no difference |
| Elections.LoadElections | docs/eleicoes.py:15-35 | the loader exists exactly when the filter and projected labels are columns; its columns are exactly `ID_MUNICIPIO`, `partido`, `regiao`, `uf`, with padded keys |
| Elections.LoadElectionsRows | docs/eleicoes.py:21-33 | its rows are, in order, each elected mayor's padded code, party, region and state |
| Elections.AddElections | docs/eleicoes.py:56-72 | the combination fails only with `KeyError`, and its columns are exactly the six listed, in order |
| Elections.AddElectionsRows | docs/eleicoes.py:56-72 | the combined rows are the left-join rows, in order, with their columns rearranged |
| Elections.KeepsEveryMunicipality | docs/eleicoes.py:56-60 | the output has at least as many rows as the rate table, and exactly as many when no code has more than one elected mayor |
| Elections.UnmatchedMunicipality | docs/eleicoes.py:56-72 | a municipality without an elected mayor keeps its rates, with state, region and party missing |
| Elections.MatchedMunicipality | docs/eleicoes.py:56-72 | a municipality with an elected mayor gets a row with that mayor's state, region and party beside its rates |
| Elections.RowsComeFromRates | docs/eleicoes.py:56-72 | every output row carries the key and rates of some row of the rate table |
| Analysis.Classify | docs/analise_dados.py:31-32 | the spectrum is the table entry of the upper-cased party and "OUTROS" for a missing party; with a table that has no "OUTROS" entry, any other spectrum means the upper-cased party is in the table |
| Analysis.MixedCaseKeyUnreachable | docs/analise_dados.py:31-32 | a table key with a lower-case letter is never matched |
| Analysis.PCdoBIsOutros | docs/analise_dados.py:23 | "PCdoB" is in the table, yet that party is classified "OUTROS" |
| Analysis.RegionName | docs/analise_dados.py:33 | a region name exists exactly for the codes N, NE, CO, SE and S |
| Analysis.ApprovalIndex | docs/analise_dados.py:34 | the index is the mean of the two approval rates and lies between them |
| Analysis.MedianWithin | docs/analise_dados.py:36 | the median of a non-empty column has a value at or below it and a value at or above it |
| Analysis.Derive | docs/analise_dados.py:31-37 | the party is the upper-cased `partido` (missing when it is), the spectrum is its classification, the region is the code's name and missing exactly for a missing or unknown code, the index is the mean of the two rates, and the flag is 0 or 1, being 1 exactly when the index is strictly above the median |
| Analysis.ProcessRows | docs/analise_dados.py:30-37 | every row gets its features, flagged against the median of all rows' index |
| Analysis.SomeRowNotAbove | docs/analise_dados.py:36-37 | some row is flagged 0, and a row whose index equals the median is flagged 0 |
| Analysis.OutputNameOfStem | docs/analise_dados.py:232 | a path ending in ".csv" with no other occurrence starting earlier gets "_processado" before the extension, e.g. "./dados.v2.csv" |
| Analysis.OutputNameRewritesDirectories | docs/analise_dados.py:232 | every ".csv" in the path is rewritten: parts joined by ".csv" come back joined by "_processado.csv", so a ".csv" in a directory name changes too |
| Report.Process | sdp-report/generate_report.py:13-23 | the spectrum is the report table's classification, never centre-right, and the index is the mean of the two rates |
| Report.LookupIgnoresCase | sdp-report/generate_report.py:21 | "pt", "Pt" and "PT" are all "ESQUERDA" |
| Report.PCdoBIsOutros | sdp-report/generate_report.py:15 | "PCdoB" is in the table, yet that party is classified "OUTROS" |
| Report.TablesDisagreeOnCentreRight | sdp-report/generate_report.py:18 | DEM, REPUBLICANOS and PP are "DIREITA" in the report and "CENTRO_DIREITA" in the analysis script |
| Report.TopFeatures | sdp-report/generate_report.py:48-52 | a missing or empty importance table gives nothing; otherwise exactly the smaller of 15 and the table size entries, drawn from the table, in descending importance |
| Report.TopFeaturesAreTop | sdp-report/generate_report.py:52 | an entry left out of the chart is no more important than any entry in it |
| Report.BenchmarkRows | sdp-report/generate_report.py:43-44 | there is one table row per benchmark entry, in the results' order |
| Report.BenchmarkRowsConcat | sdp-report/generate_report.py:43-44 | adding results adds exactly their rows at their place |
| ModelSelection.KindNamed | sdp-model/pipeline.py:256 | the registry lookup finds the model with that name, and none exactly when no model has it |
| ModelSelection.NameRoundTrip | sdp-model/pipeline.py:151-153 | looking up a model's name finds that model |
| ModelSelection.ModelSubset | sdp-model/pipeline.py:151-155 | the trained models are exactly the registered ones named in the selection, in registry order SVC, LRC, RFC |
| ModelSelection.UnknownNameIgnored | sdp-model/pipeline.py:155 | an unregistered name in the selection changes nothing |
| ModelSelection.GridFor | sdp-model/pipeline.py:157-172 | a grid is empty exactly when grid search is off |
| ModelSelection.GridSizes | sdp-model/pipeline.py:157-172 | grid search tries 18 LRC, 42 RFC and 7 SVC combinations, and one (the defaults) when it is off |
| ModelSelection.MakeModelInfo | sdp-model/pipeline.py:254-258 | the info carries the given name; an unregistered or missing name gives neither a model nor a grid; otherwise the named model and its grid |
| ModelSelection.ModelFileName | sdp-model/pipeline.py:44 | the file name starts with "model-" and ends with ".pkl" |
| ModelSelection.ModelFileNameDetermines | sdp-model/pipeline.py:44 | without '-' in name and criterion, the file name determines the name, the upper-cased criterion and the balance method |
| ModelSelection.ModelFileNameCollision | sdp-model/pipeline.py:44 | with a '-' inside a name, two different saves share one file |
| ModelSelection.FirstSeenNames | sdp-model/pipeline.py:276-280 | the gathered model names are exactly the names occurring in the folds, listed once each |
| ModelSelection.ScoresFollowFolds | sdp-model/pipeline.py:276-283 | a model's scores are gathered fold by fold, in fold order |
| ModelSelection.OneScorePerFold | sdp-model/pipeline.py:277-283 | a fold contributes exactly one score to a model it contains and none otherwise |
| ModelSelection.GatherScores | sdp-model/pipeline.py:275-283 | the gathering loop lists the names in order of first appearance, with each name's scores |
| ModelSelection.HighestMean | sdp-model/pipeline.py:285-291 | the argmax scan returns the first name with the largest positive mean, or none when no mean is positive |
| ModelSelection.SelectBestModel | sdp-model/pipeline.py:264-293 | the champion has the largest mean ROC-AUC and a positive one; every earlier model has a strictly smaller mean; there is none exactly when no mean is positive; the selection argument plays no part |
| PredictService.Contains | sdp-service/src/sdp/app.py:31 | `key in data` is key membership on an object, element membership on an array, a substring test on a string, and raises on anything else |
| PredictService.AllPresent | sdp-service/src/sdp/app.py:31 | `all(...)` is true exactly when every key is present, and raises only on a body where `in` raises |
| PredictService.Predict | sdp-service/src/sdp/app.py:14-41 | 503 exactly when the service is down; else 400 exactly for a non-JSON request or a body missing a required key; 200 with the service's result exactly when it returns; 500 exactly when something raises |
| PredictService.AvailabilityFirst | sdp-service/src/sdp/app.py:19-20 | a down service answers 503 whatever the request |
| PredictService.MissingKeyRejected | sdp-service/src/sdp/app.py:30-32 | a missing required key is answered 400 before the service is consulted |
| PredictService.ExtraKeysAllowed | sdp-service/src/sdp/app.py:30-37 | only presence is checked: an object with the four keys and any others reaches the service |
| PredictService.StringBodyReachesService | sdp-service/src/sdp/app.py:31-37 | a JSON string containing the four keys as substrings also reaches the service |
| PredictService.FeatureVectorBodyRejected | sdp-service/src/sdp/app.py:30-32 | a body holding only `data_tuple` is answered 400 |
| PredictService.Health | sdp-service/src/sdp/app.py:43-48 | `/health` answers 200 with status "ok" whether or not the service loaded |

## Left out

- Network, zip, filesystem and CSV/XLSX I/O (downloads, extraction, directory walks, `read_csv`, `read_excel`, `to_csv`). The tables read are inputs. Request outcomes and file existence are parameters.
- pandas type inference when a file is re-read. For example, merge_data.py reads `ID_MUNICIPIO` back as integers. The education table is taken as given.
- `str.replace('.0', '')` is modelled with literal semantics, as in pandas 2.0 and later. Earlier pandas treated the pattern as a regular expression.
- Floating point. Rates, means and scores are exact `real`s or finite decimals, so binary rounding of doubles is not reproduced.
- Cells.RateCell: rounds the exact value half-even. pandas rounds a double, which can differ on values that are not exactly representable.
- Text.Upper: upper-cases the ASCII letters only. Python also maps non-ASCII letters, some to longer texts ('ß' becomes "SS"), so its result need not keep the length; party codes are ASCII.
- Text.ParseDecimal: reads only sign, digits and one optional '.'. Exponents, surrounding whitespace, "inf" and "nan" texts are not modelled.
- Cells.AsStr: float `repr` is modelled only in its fixed-point form. The exponent form for very large or very small magnitudes is not modelled.
- scikit-learn, imblearn and metrics (training, cross-validation, SMOTE, scoring). The per-fold ROC-AUC scores are inputs.
- ModelSelection.SelectBestModel: `fold_results` is a dict of dicts. It is modelled as a sequence of folds in key order, each a sequence of (name, score) pairs with at most one entry per model; the other metrics are left out.
- `load_model` and the pickle contents are opaque library calls.
- Analysis.Median: the contract states that the median exists for a non-empty column and lies between its values. It does not restate the sorted-middle definition.
- Plots, printed statistics, scipy tests, the HTML template and base64 encoding are presentation only.
- `sdp-service/src/sdp/service.py`, the prediction service wrapper, is not part of this model. Its outcome is the `predict` parameter.
- app.py imports `PerformancePredictionService`, which service.py does not define; that import failure would leave the service unavailable, which the `available` parameter covers.
- The service tests post `data_tuple` and expect a `result` key, which contradicts app.py:30-37. The model follows app.py; see PredictService.FeatureVectorBodyRejected.
- `jsonify` serialisation and the exact error message texts are reduced to error kinds.
- sdp-data/pipeline.py and docs/parse_data.py only chain the scripts and are not part of this model.
- tx_rend.py's own download loop (two-second retries) is network handling and is not modelled; its input choice is (InepRates.ChooseSource).
