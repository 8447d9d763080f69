# Real-estate dashboard: recommender, radius filter and price band

This project models the logic of a multi-page real-estate dashboard, apart from its user interface. The dashboard has three pieces of logic:

- **Recommender** (`Recommender`, `recommender.dfy`). Three precomputed similarity matrices are combined into one composite matrix with entry-wise weights 0.5, 0.8 and 1.0. `recommend_properties` looks up a property's position in the index of the distance table. It pairs every column of that property's composite row with its score and sorts the pairs by score, descending, with Python's stable sort. It drops the first pair, keeps the next `top_n`, and maps their positions back to property names. An unknown name gives an explicit not-found result.
- **Radius filter** (`RadiusFilter`, `radius.dfy`). It keeps the properties whose known distance to the selected location is strictly below `radius * 1000` metres, and orders them by distance, ascending.
- **Price predictor** (`PricePredictor`, `predictor.dfy`). The form's twelve selections become a one-row feature table. If the trained pipeline names the columns it expects, a loop adds each missing column with the value 0. The table is then reduced to exactly those columns, in that order. The pipeline's estimate `p` becomes the band `[0.78 p, 1.22 p]`.

`wrappers.dfy` holds the `Option` and `Result` types (`Wrappers`) and two sequence helpers (`Sequences`): distinctness, and slicing with Python's rules, where negative bounds count from the end and bounds are clamped.

Scores, distances and prices are Dafny `real`s. They stand for abstract ordered values, not IEEE floats. The recommender and the radius filter are pure expressions in the source, so they are functions here. Each sort is an insertion sort whose contract gives the order and the permutation. The column alignment updates the table step by step in a `for` loop, so it is a method with loop invariants. That method is proved against the specification function `Aligned`.

Where the behaviour the system is described as having differs from what its code does, the model follows the code:

- **Self-exclusion.** The system is described as never recommending the queried property itself. The code drops only the head of the ranking. That head is the queried property exactly when its self cell is the earliest maximum of its row: no column scores higher, and no earlier column scores the same (`Recommender.DroppedIsEarliestMaximum`, `Recommender.SelfExcludedWhenEarliestMaximum`). Otherwise another column is dropped, and the queried property is recommended exactly when its rank lies between 1 and `top_n`, for `top_n >= 0` (`Recommender.ReturnedIffRankedWithin`). `Recommender.TieRecommendsQueried` gives such an input.
- **Negative estimates.** The description wants a negative estimate reported as a failure. The code computes the band anyway, and for a negative estimate the band is inverted (`PricePredictor.Band`).
- **Unknown location.** The description wants an unknown location column to fail explicitly. The code never looks one up: a widget offers only existing columns. The model therefore takes the selected column as its input.

## Model

| member | source | states |
|---|---|---|
| `Recommender.Composite` | pages/3_Recommendation_System.py:39 | The composite has the inputs' shape. Each cell is 0.5, 0.8 and 1.0 times the three input cells, summed. |
| `Recommender.CompositeInRange` | pages/3_Recommendation_System.py:33-39 | If every input score lies in [0, 1], every composite score lies in [0, 2.3]. |
| `Recommender.CompositeKeepsStrictRowMaximum` | pages/3_Recommendation_System.py:39 | If the self cell is a row maximum in all three inputs, and a strict one in at least one of them, it is the strict maximum of the composite row. |
| `Recommender.CompositeCommutesWithReindex` | pages/3_Recommendation_System.py:33-39 | Reordering the rows and columns of all three inputs the same way reorders the composite the same way. Alignment with a shared index is kept. |
| `Recommender.RowScores` | pages/3_Recommendation_System.py:55 | The row's columns, each paired with its own score, in increasing column order. |
| `Recommender.Rank` | pages/3_Recommendation_System.py:55-56 | The sorted pairs are a permutation of the enumerated row. They are in descending score order, and ties keep the earlier column first (stability under `reverse=True`). |
| `Recommender.RankedUnique` | pages/3_Recommendation_System.py:56 | Two such rankings of the same pairs are equal. Any stable descending sort therefore yields exactly `Rank`'s result. |
| `Recommender.Lookup` | pages/3_Recommendation_System.py:50-54 | The result is "absent" exactly when the name is not in the index. Otherwise it is a valid position holding the name, with no earlier occurrence. |
| `Recommender.RecommendPositions` | pages/3_Recommendation_System.py:50-58 | It returns None exactly when the name is unknown. A known name can still give an empty list, for `top_n = 0` or a one-entry index. Every position it returns is a valid index position. |
| `Recommender.Recommend` | pages/3_Recommendation_System.py:48-65 | The result is not-found exactly when the name is not in the index. Otherwise the names are the index entries at the ranked positions, in rank order. |
| `Recommender.TopPositions` | pages/3_Recommendation_System.py:58 | Fewer positions than the row has columns, because the head is always dropped. `TopPositionsAreRanks` states its contents. |
| `Sequences.Slice` | pages/3_Recommendation_System.py:58 | Python's slice: the normalised bounds give its length and it is empty when they cross. Its k-th element is the element at the normalised start plus k. Within bounds it equals Dafny's slice. |
| `Recommender.TopPositionsAreRanks` | pages/3_Recommendation_System.py:55-58 | The k-th returned position is the column at rank 1 + k. For `top_n >= 0` there are `min(top_n, n - 1)` of them. |
| `Recommender.TopPositionsOrdered` | pages/3_Recommendation_System.py:56-58 | Returned scores do not increase in rank order. Among equal scores, the lower column comes first. |
| `Recommender.TopPositionsDistinct` | pages/3_Recommendation_System.py:55-59 | Returned positions are pairwise distinct, and each is a column of the row. |
| `Recommender.DroppedIsEarliestMaximum` | pages/3_Recommendation_System.py:56-58 | The dropped entry is the highest-scoring column, and the earliest one on ties. |
| `Recommender.TopPositionsSkipBest` | pages/3_Recommendation_System.py:56-58 | The dropped column is never returned. Every returned column outranks every column that is neither returned nor dropped. |
| `Recommender.SelfExcludedWhenEarliestMaximum` | pages/3_Recommendation_System.py:56-58 | If the self cell is the earliest maximum of its row (for example, the strict maximum), it is the dropped column and is not returned. |
| `Recommender.ReturnedIffRankedWithin` | pages/3_Recommendation_System.py:56-58 | A column at rank m is returned exactly when 1 <= m <= the number returned. For `top_n >= 0` that means exactly when 1 <= m <= `top_n`. |
| `Recommender.RecommendLength` | pages/3_Recommendation_System.py:54-59 | A found name with `top_n >= 0` yields exactly `min(top_n, n - 1)` names, where n is the index size. |
| `Recommender.DefaultRecommendLength` | pages/3_Recommendation_System.py:48 | The page's call at line 126 uses the default `top_n = 5`. A found name then yields exactly `min(5, n - 1)` names. |
| `Recommender.RecommendExcludesQueried` | pages/3_Recommendation_System.py:50-59 | If index names are distinct and the queried row's diagonal cell is its earliest maximum, the queried name is not among the recommendations. |
| `Recommender.TieRecommendsQueried` | pages/3_Recommendation_System.py:54-59 | Take index ["A", "B"] and a row of equal scores. Querying "B" with `top_n = 1` returns ["B"]: self-exclusion is not guaranteed. |
| `RadiusFilter.Candidates` | pages/3_Recommendation_System.py:96-97 | There are no more results than rows. A pair is kept exactly when some row has that name and a known distance below the limit. |
| `RadiusFilter.CandidatesAppend` | pages/3_Recommendation_System.py:96-97 | Filtering a concatenation gives the concatenation of the filters. Each row is kept or dropped on its own, in table order, so nothing is invented or duplicated. |
| `RadiusFilter.SortByDistance` | pages/3_Recommendation_System.py:98 | The result is ascending by distance and is a permutation of its input. |
| `RadiusFilter.WithinRadius` | pages/3_Recommendation_System.py:96-98 | The intended filter, which skips rows with a missing distance. The result is ascending by distance and is a permutation of the filtered rows (the radius is converted to metres). It agrees with the page's expression only on columns with no missing distance (`AsWrittenAgreesWithoutMissing`). |
| `RadiusFilter.WithinRadiusExact` | pages/3_Recommendation_System.py:96-98 | A property is returned exactly when its distance is known and strictly below `radius * 1000`. |
| `RadiusFilter.NonPositiveRadiusFindsNothing` | pages/3_Recommendation_System.py:96-98 | If distances are non-negative, a radius of 0 or less returns nothing. |
| `RadiusFilter.AnyAscendingOrderAgrees` | pages/3_Recommendation_System.py:98 | Any ascending permutation of the filtered rows, which is all that the unstable `sort_values` promises, has the same distance sequence as `WithinRadius`. Results differ only in the order of rows at equal distance. |
| `RadiusFilter.WithinRadiusAsWritten` | pages/3_Recommendation_System.py:96-98 | The expression as the page writes it. It fails exactly when some distance is missing. Otherwise it gives an ascending permutation of the filtered rows. |
| `RadiusFilter.AsWrittenAgreesWithoutMissing` | pages/3_Recommendation_System.py:96-98 | On a column with no missing distance, the expression as written returns the intended result. |
| `RadiusFilter.MissingDistanceFails` | pages/3_Recommendation_System.py:96-97 | Take a column with 500 m, 2000 m and one missing distance. As written, the expression fails. The intended filter returns the 500 m property. |
| `PricePredictor.AssembleRecord` | pages/1_Price_predictor.py:179-192 | The one-row record. No contract of its own: `AssembledRecordFields` and `AssembledRecordWellFormed` state its contents. |
| `PricePredictor.AssembledRecordFields` | pages/1_Price_predictor.py:179-192 | The record's columns are the twelve keys in the written order. Each cell holds the corresponding form selection. |
| `PricePredictor.AssembledRecordWellFormed` | pages/1_Price_predictor.py:179-192 | The record names each column once and has a cell under each column name. |
| `PricePredictor.AlignColumns` | pages/1_Price_predictor.py:194-200 | The columns after alignment are exactly the expected list, in order, and no other column survives. Missing expected columns hold 0. Columns already present keep the user's value. |
| `PricePredictor.AlignIdempotent` | pages/1_Price_predictor.py:196-200 | Aligning an aligned table to the same list changes nothing. |
| `PricePredictor.AlignDropsUnexpected` | pages/1_Price_predictor.py:200 | A column of the record that is not in the expected list is dropped. |
| `PricePredictor.PrepareFeatures` | pages/1_Price_predictor.py:179-200 | If the pipeline names no columns, the table is the twelve-key record. Otherwise its columns are exactly the expected list. |
| `PricePredictor.Band` | pages/1_Price_predictor.py:205 | The band contains the estimate when the estimate is not negative, and is inverted when it is negative. Its width is 0.44 times the estimate. |
| `PricePredictor.BandMidpointRoundTrip` | pages/1_Price_predictor.py:205 | The midpoint of the band is the estimate. |
| `PricePredictor.EstimatePriceRange` | pages/1_Price_predictor.py:177-210 | The pipeline sees the assembled and aligned table. Its failure is reported with its message. Its estimate becomes the band. |

## Findings

| source | as written | input that shows it | evidently intended | confidence | as-written member | corrected member |
|---|---|---|---|---|---|---|
| pages/3_Recommendation_System.py:96-97 | The mask is computed on the column after `dropna()`, so it lacks the labels of rows with a missing distance. pandas refuses to index the full table with a boolean Series whose labels do not cover the table's index ("Unalignable boolean Series provided as indexer"), so the search raises. | A location column {A: 500, B: 2000, C: missing} with radius 1 km | Rows with a missing distance are skipped, and the result is [A] | medium: depends on pandas' boolean-indexer alignment; not executed | `RadiusFilter.WithinRadiusAsWritten` (shown by `RadiusFilter.MissingDistanceFails`) | `RadiusFilter.WithinRadius` (proved by `RadiusFilter.WithinRadiusExact`, `RadiusFilter.AnyAscendingOrderAgrees`) |

## Left out

- Streamlit page setup, widgets, `st.session_state` and the success, warning and error messages are user interface. The not-found case is a `Recommendation.NotFound` value, not a message.
- Downloading the artifacts with `gdown`, and loading the pickles and the CSV with caching, are file and network input. The index, the matrices, the distance column and the pipeline are parameters.
- `pipeline.predict` is an opaque trained model. It is the `predict` field of `Pipeline`, a total function that may return a failure.
- `np.expm1` is folded into that predict function, which returns the estimate on the linear price scale. Exponentials on reals are not modelled.
- The `:.2f` display, the km conversion with `round(..., 2)`, and the display copy with its rank column are formatting.
- The `try`/`except` catch-all is modelled only for a failure of the pipeline, which becomes a `Failure` result. Failures raised while the table is built are not modelled.
- `.str.strip()` on names is load-time cleaning. The index is taken as already trimmed.
- Selecting the location column (`location_df[selected_location]`) is not modelled. The widget offers only existing columns, so `WithinRadius` takes the selected column, paired with property names. It returns each name with its distance; the page keeps the names and looks the distance up again to display it.
- Duplicate labels in the index are not modelled. pandas' `get_loc` would return a mask there, while `Lookup` takes the first position.
- Matrix shapes are not validated. `Composite` requires equal shapes, and `Recommend` requires a square matrix the size of the index. numpy broadcasting and index errors on misaligned inputs are not modelled.
- Floating-point rounding of the weights, the band factors and the radius conversion is not modelled: all arithmetic is on reals.
- home.py (page routing) and pages/2_Analysis.py (float aggregation, map and word-cloud rendering) are not part of this model.
- The commented-out first version of the predictor page (pages/1_Price_predictor.py:1-91) duplicates the live code and is not modelled.
- Recommender.RecommendLength: states the length only for `top_n >= 0`. For a negative `top_n`, `Recommend` follows Python's slice rules, but no lemma gives the resulting length.
