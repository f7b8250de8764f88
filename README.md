# Pre-owned car recommender: ranking and matching rules in Dafny

This project models the selection rules of a small pre-owned car recommender
written in Python with pandas. The numeric pipeline is taken as given:
TF-IDF text weights, standardised price and mileage, and the cosine
similarity matrix. The model covers the rules applied on top of it:

- **Ranking** (`recommend_cars`): one row of the similarity matrix is paired
  with its column indices and sorted by descending score. The sort is
  Python's stable `sorted(..., reverse=True)`, so tied scores keep ascending
  index order. The first sorted pair is dropped and the next `top_n` indices
  are returned, together with the display columns.
- **Column discovery and display projection**: the one-hot indicator
  families are the column names that contain `Fuel` or `Transmission`. A
  recommendation shows `Car Name`, `Price`, `KM's driven` and `Condition`,
  then those families, keeping only the columns the table has.
- **Preference matching** (`find_best_match`): a row passes when all of
  these hold:
  - the price is within budget;
  - the mileage is within the limit;
  - the lower-cased name contains the fragment;
  - the chosen fuel and transmission indicators are 1 wherever the table has
    those columns.

  The first passing row wins. When no row passes, the row whose price is
  closest to the budget wins, with the lowest position taken on ties.

Modules:

- `Wrappers` holds `Option` and `Result`.
- `Seqs` holds list comprehensions as an order-preserving `Filter`, and
  Python slicing `s[lo:hi]` with its bound normalisation.
- `Text` holds ASCII lower-casing and the substring test `needle in s`.
- `Columns`, `Ranking` and `Matching` hold the three parts of the recommender.

The similarity matrix and the catalog are explicit parameters instead of
module-level globals. Scores, prices and mileages are exact reals.
`cosine_sim[car_index]` follows numpy indexing: a negative index counts from
the end, and anything outside `-N .. N-1` is an IndexError.

A negative `top_n` is not rejected by the code. The model applies Python's
slice rules to it: `top_n = -1` returns nothing, and `top_n <= -2` returns
`max(0, N + top_n)` indices (`TopIndicesSize`), so `top_n = -2` on five cars
returns three (`NegativeTopNWitness`). The corrected ranking treats a negative `top_n` as 0.

The source itself shows intent that the code does not carry out, in three
places:

- `recommend_cars` (lines 66-68). The comment on line 68 says "Exclude the
  input car itself", but the code drops the first sorted pair, whatever its
  index.
- The closest-price fallback of `find_best_match` (lines 106-108).
  `df.loc[idxmin]` is a single row, so `.index[0]` is its first column name,
  not a row position.
- `find_best_match` on an empty table (lines 104-108). `idxmin` raises
  ValueError, so the `else None` of line 108 is never reached. `main` has a
  "No suitable cars found" branch for `None` (lines 119-125).

Each of the three is modelled both ways. `Ranking.RecommendCars` and
`Matching.FindBestMatchAsWritten` follow the code as written.
`Ranking.RecommendExcludingSelf` and `Matching.FindBestMatch` give the
intended behaviour. For the ranking, `TopRun`, `TopIndicesSize`,
`TopIndicesRanked`, `TopIndicesComplete`, `DroppedIsFirstMaximum`,
`StrictMaximumExcluded`, `SelfRecommendedWitness` and `NegativeTopNWitness`
are about the ranking as written (`TopIndices`). `Others`, `TopOthersSize`,
`TopOthersRanked` and `TopOthersComplete` are about the corrected ranking
(`TopOthers`), and `TopOthersAgrees` relates the two. For matching, the
lemmas about `FindBestMatch` describe the corrected matcher.
`AsWrittenAgreesOnMatch`, `FallbackReturnsColumnLabel` and
`EmptyCatalogRaises` describe the code as written. All three divergences are
listed under Findings.

## Model

| member | source | states |
|---|---|---|
| `Seqs.Filter` | preowned_car_recommendation.py:42-43 | a list comprehension keeps exactly the elements satisfying the test, each satisfying it, never more elements than the input |
| `Seqs.FilterCount` | preowned_car_recommendation.py:72 | a comprehension filter keeps every occurrence of a kept element and no occurrence of a dropped one |
| `Seqs.FilterIsSubsequence` | preowned_car_recommendation.py:72 | a comprehension filter keeps the input's relative order |
| `Seqs.Slice` | preowned_car_recommendation.py:68 | `s[lo:hi]` is the run starting at the normalised lower bound, and for `0 <= lo <= hi` its length is `min(hi, n) - min(lo, n)` |
| `Text.Lower` | preowned_car_recommendation.py:99 | lower-casing keeps the length, maps each upper-case `A`-`Z` to its lower-case letter, leaves no upper-case letter and changes nothing else |
| `Text.Contains` | preowned_car_recommendation.py:99 | the substring test holds exactly when the needle occurs at some start position |
| `Text.ContainsEmpty` | preowned_car_recommendation.py:99 | an empty name fragment matches every car |
| `Text.LoweredMissesUpper` | preowned_car_recommendation.py:99 | a fragment with an upper-case letter never matches, because only the names are lower-cased |
| `Columns.FuelColumns` | preowned_car_recommendation.py:42 | exactly the column names containing `Fuel`, in table order |
| `Columns.TransmissionColumns` | preowned_car_recommendation.py:43 | exactly the column names containing `Transmission`, in table order |
| `Columns.KeepPresent` | preowned_car_recommendation.py:72 | exactly the requested columns that the table has, in request order |
| `Columns.DisplayColumns` | preowned_car_recommendation.py:71-72 | the base columns the table has, then every fuel column, then every transmission column; all of them exist in the table |
| `Ranking.Enumerate` | preowned_car_recommendation.py:66 | `enumerate` pairs every position with its own score, one pair per column |
| `Ranking.SortDesc` | preowned_car_recommendation.py:67 | the sort returns a permutation of its input |
| `Ranking.SortRanked` | preowned_car_recommendation.py:67 | on pairs in index order the sort is descending by score, with ties in ascending index order (stability) |
| `Ranking.Ranking` | preowned_car_recommendation.py:66-67 | the sorted pairs are a permutation of the enumerated row, ranked, with each index once and its own score |
| `Ranking.RankingIsUnique` | preowned_car_recommendation.py:66-67 | any ranked permutation of the enumerated row equals the sorted list |
| `Ranking.PlaceInRanking` | preowned_car_recommendation.py:66-67 | every column index appears in the sorted list with its score |
| `Ranking.TopIndices` | preowned_car_recommendation.py:68 | the returned indices are at most N and are all valid column positions |
| `Ranking.RowAt` | preowned_car_recommendation.py:66 | a row index is accepted exactly in `-N .. N-1`, and a negative one counts from the end |
| `Ranking.RecommendCars` | preowned_car_recommendation.py:55-74 | IndexError exactly for an out-of-range `car_index`; every display column exists in the table; `top_n` defaults to 5 |
| `Ranking.TopRun` | preowned_car_recommendation.py:68 | `similarity_scores[1:top_n+1]` is the run of the ranking right after its head |
| `Ranking.TopIndicesSize` | preowned_car_recommendation.py:68 | at most N-1 indices; exactly `min(top_n, N-1)` when `top_n >= 0`, none for `top_n = -1`, and `max(0, N + top_n)` for `top_n <= -2` |
| `Ranking.TopIndicesRanked` | preowned_car_recommendation.py:66-68 | valid indices listed by non-increasing score with ties in ascending index (so distinct) |
| `Ranking.TopIndicesComplete` | preowned_car_recommendation.py:66-68 | every index left out, except the dropped head, ranks below all returned ones |
| `Ranking.DroppedIsFirstMaximum` | preowned_car_recommendation.py:67-68 | the dropped pair is the lowest index among the row's maximal scores |
| `Ranking.StrictMaximumExcluded` | preowned_car_recommendation.py:68 | a car whose own score is strictly maximal is never in its own recommendation |
| `Ranking.SelfRecommendedWitness` | preowned_car_recommendation.py:66-68 | with row `[1.0, 1.0]`, car 1 and `top_n = 1` the result is `[1]`: the car recommends itself |
| `Ranking.NegativeTopNWitness` | preowned_car_recommendation.py:68 | `top_n = -2` on five cars returns three indices |
| `Ranking.TopOthers` | preowned_car_recommendation.py:68 | the corrected result never contains the query car and has at most `max(top_n, 0)` entries |
| `Ranking.RecommendExcludingSelf` | preowned_car_recommendation.py:55-74 | the corrected ranking has the same IndexError condition and display columns |
| `Ranking.Others` | preowned_car_recommendation.py:66-68 | the ranking without the query's pair stays ranked, keeps scores and is one shorter |
| `Ranking.TopOthersSize` | preowned_car_recommendation.py:68 | the corrected ranking never returns the query car; it returns no entries for `top_n <= 0`, otherwise `min(top_n, N-1)` |
| `Ranking.TopOthersRanked` | preowned_car_recommendation.py:66-68 | the corrected result is valid, by non-increasing score, ties in ascending index |
| `Ranking.TopOthersComplete` | preowned_car_recommendation.py:66-68 | every other car the corrected ranking leaves out ranks below all that it returns |
| `Ranking.TopOthersAgrees` | preowned_car_recommendation.py:68 | for `top_n >= 0`, when the query car heads its own ranking, the code as written and the corrected ranking return the same indices |
| `Matching.FirstMissing` | preowned_car_recommendation.py:97-99 | a KeyError names a missing required column, the first in evaluation order (`Price`, `KM's driven`, `Car Name`), and there is none exactly when all three exist |
| `Matching.Passes` | preowned_car_recommendation.py:97-101 | where the table has neither chosen indicator column, a row passes exactly when it is within budget and mileage and its lower-cased name contains the fragment |
| `Matching.Survivors` | preowned_car_recommendation.py:96-102 | the surviving positions are exactly the rows that pass every filter, in catalog order |
| `Matching.Distance` | preowned_car_recommendation.py:106 | `abs(price - max_price)`: non-negative, at least the difference either way, equal to one of them, and zero exactly at the budget |
| `Matching.ClosestPrice` | preowned_car_recommendation.py:106 | `idxmin`: a position with minimal `abs(price - max_price)`, no earlier position as close |
| `Matching.FindBestMatch` | preowned_car_recommendation.py:92-108 | KeyError exactly when a required column is missing; no match exactly for an empty catalog; any match is a valid position |
| `Matching.BestMatchIsFirstSurvivor` | preowned_car_recommendation.py:96-108 | when a row passes, the match is the first passing row: within budget and mileage, name containing the fragment, indicators set where the columns exist |
| `Matching.BestMatchFallback` | preowned_car_recommendation.py:104-106 | when no row passes in a non-empty catalog, the match minimises `abs(price - max_price)`, the lowest position winning ties |
| `Matching.EmptyCatalogNoMatch` | preowned_car_recommendation.py:104-108 | an empty catalog gives no match |
| `Matching.FallbackIgnoresBudget` | preowned_car_recommendation.py:104-106 | the fallback returns a car over budget when it is the only one |
| `Matching.FindBestMatchAsWritten` | preowned_car_recommendation.py:92-108 | as written: an error exactly for a missing required column or an empty catalog, and never `None` |
| `Matching.AsWrittenAgreesOnMatch` | preowned_car_recommendation.py:108 | when some row passes, the code as written returns the same position as the corrected matcher |
| `Matching.FallbackReturnsColumnLabel` | preowned_car_recommendation.py:106-108 | as written, the fallback returns the table's first column name, not a row position |
| `Matching.EmptyCatalogRaises` | preowned_car_recommendation.py:104-106 | as written, an empty catalog raises ValueError |

## Findings

| source | as written | input that shows it | evidently intended | confidence | as-written member | corrected member |
|---|---|---|---|---|---|---|
| preowned_car_recommendation.py:66-68 | drops the first pair of the sorted list, whatever its index | similarity row `[1.0, 1.0]`, `car_index = 1`, `top_n = 1` returns `[1]`, the query car itself | exclude `car_index` itself, as the comment on line 68 says | medium, not executed | `Ranking.SelfRecommendedWitness` | `Ranking.TopOthersSize` |
| preowned_car_recommendation.py:106-108 | `df.loc[idxmin]` is one row as a Series, so `.index[0]` is its first column name | columns `["Car Name", "Price", "KM's driven"]`, one car priced over budget: returns `"Car Name"` | the position of the closest-priced car | high, not executed | `Matching.FallbackReturnsColumnLabel` | `Matching.BestMatchFallback` |
| preowned_car_recommendation.py:104-108 | on an empty table `idxmin` raises ValueError, so the `else None` of line 108 is never reached | an empty catalog with the required columns | return `None` | medium, not executed | `Matching.EmptyCatalogRaises` | `Matching.EmptyCatalogNoMatch` |

## Left out

- Loading the CSV, `df.head()`, `print`, `input()`, `get_user_input` and `main` are I/O and are not modelled.
- The TF-IDF vectoriser, its English stop words and its 500-term cap are not modelled. They are library calls over floating point, and the scores they feed enter the model as a parameter.
- `StandardScaler`, the sparse `hstack` and `cosine_similarity` are floating-point library calls and are not modelled. The score matrix is an input, and no symmetry, diagonal or range is assumed of it.
- `df.iloc[top_indices][recommendation_columns]` is not built. A recommendation is the list of row positions plus the list of columns to show.
- Floating point is not modelled: scores, prices and mileages are exact reals, so NaN and rounding do not arise.
- pandas index labels are taken to be the default positions 0..N-1, so a row label equals its position.
- A NaN car name would make the `str.contains` mask non-boolean. This is not modelled.
- `Text.Contains`: the fragment is a plain substring. pandas treats it as a regular expression by default, so fragments with regex metacharacters are not modelled.
- `Text.Lower`: lower-cases ASCII letters only. Python's `str.lower` also maps other Unicode letters.
- A missing indicator cell counts as "not 1", which is the pandas behaviour for NaN. Indicator values other than integers are not modelled.
