# Matching rules of the patent-citation pipeline, in Dafny

This project models the data-preparation core of a study of knowledge
spillovers through patent citations. The pipeline cleans the patents and
citation tables and picks the "originating" patents, those granted between
1 January and 1 February of a base year, both days included. It then forms treated (citing, cited) pairs and finds, for
each pair, control patents that resemble the citing patent. These are granted
in the same window, filed within a search range of days of it, and share no
assignee or inventor with the cited patent. Controls that themselves cite
the cited patent are removed. The work is done batch by batch. Patents are
then located through their US inventors, the controls are reshaped for
distances, CPC classes and abstracts, and only the controls that are
approximate nearest neighbours of their citing patent's abstract are kept.

Every dataframe is a sequence of rows (`Relation`). Joins, `unique`,
`filter`, `explode` and `unpivot` are functions on sequences whose meaning is
stated as membership. A `validate=` join that would fail becomes an `Err`
result. Dates are day numbers. The modules follow the source files:
`Patents` (features/patents.py), `Controls` and `Batching`
(features/controls.py and the older features.py), `Locations`
(features/locations.py), `Abstracts` (features/abstracts.py), `Classes`
(features/classes.py) and `Ann` (modelling/ann.py).

Where the two versions of a function differ, both are modelled. This covers
`make_controls` (join_where vs. cross join), `save_controls` (slicing) and
`filter_abstracts` (row index). Each contract is proved against an
independent reference definition: `IsTreated`, `IsControl`, `IsMatchedRow`,
`IsClassified`, `IsNeighbour`, `KeptEdge`, `MatchedId`, or the unbatched
pipeline in the case of batching.

## Model

| member | source | states |
|---|---|---|
| Relation.Dedup | lse_diss/features/patents.py:102 | `unique()` yields no repeated row and keeps exactly the rows of its input |
| Relation.DedupByFirst | lse_diss/features/locations.py:26 | `unique(subset, keep="first")` keeps, for each key, the first input row with that key |
| Relation.DedupByCovers | lse_diss/features/locations.py:26 | every key of the input keeps a row after `unique(subset)` |
| Relation.InnerJoinManyToOne | lse_diss/features/locations.py:45-47 | a join whose right side is unique on the key (`validate="m:1"`) yields at most one row per left row |
| Relation.InnerJoinUniqueOn | lse_diss/features/locations.py:45-47 | a many-to-one join keeps the left side's uniqueness on a key its output rows carry |
| Relation.MaxOr | lse_diss/features/locations.py:34 | `max().over(...)` is an element of the group and bounds it from above |
| Relation.MinOr | lse_diss/features/locations.py:37-39 | `min().over(...)` is an element of the group and bounds it from below |
| Patents.LoadPatents | lse_diss/features/patents.py:6-47 | the loaded frame is unique on (patent_id, inventor_id), and every loaded patent has no null in any of its raw rows |
| Patents.LoadPatentsRowsFromRaw | lse_diss/features/patents.py:9-41 | every loaded row is the renamed projection of a raw row without nulls |
| Patents.LoadPatentsKeepsCompletePatents | lse_diss/features/patents.py:9-45 | every (patent, inventor) of a patent with no null row is loaded |
| Patents.BandIdsMembers | lse_diss/features/patents.py:51-60 | an id survives the length band exactly when the patent has an abstract whose length lies in [lo, hi] |
| Patents.JoinOnPatentMembers | lse_diss/features/patents.py:63-65 | the join back onto the frame keeps exactly the rows whose patent is among the ids |
| Patents.TrimAbstracts | lse_diss/features/patents.py:50-67 | the "1:m" join fails exactly when some patent has two different in-band abstracts; otherwise the result is exactly the rows whose patent has an in-band abstract |
| Patents.TrimKeyCheck | lse_diss/features/patents.py:51-65 | the in-band ids repeat exactly when some patent has two different in-band abstracts |
| Patents.InBandKept | lse_diss/features/patents.py:51-60 | a row whose abstract length is in the band keeps its (patent, abstract) pair |
| Patents.PatentIdsMember | lse_diss/features/patents.py:85 | the unique id column holds exactly the patent ids of the frame |
| Patents.FilterCitations | lse_diss/features/patents.py:78-105 | the citation edges are duplicate-free, join two patents of the frame, and have a kept category |
| Patents.FilterCitationsMember | lse_diss/features/patents.py:87-103 | an edge survives the two joins, the category filter and `unique` exactly when a raw row carries it between two patents under a listed category |
| Patents.FilterCitationsExact | lse_diss/features/patents.py:85-103 | the output is exactly the kept edges some raw row carries |
| Patents.ExaminerCategoryNotKept | lse_diss/features/patents.py:93-97 | with the literal list as written, no edge of category "cited by examiner" is kept |
| Patents.FilterCitationsIntended | lse_diss/features/patents.py:78-105 | with the examiner category spelled "cited by", the edges are duplicate-free and join two patents under one of the three categories |
| Patents.ExaminerCategoryKept | lse_diss/features/patents.py:93-97 | with the intended list, an examiner's citation between two patents of the frame is kept |
| Patents.FilterCitationsIntendedExact | lse_diss/features/patents.py:85-103 | with the intended list, the output is exactly the edges some raw row carries between two patents under one of the three categories |
| Controls.MakeOriginating | lse_diss/features/controls.py:8-24 | one row per distinct (patent, assignee, grant date, application date); the dummy is 1 exactly when the grant date lies in [1 January, 1 February] of the base year, both ends included |
| Controls.MakeOriginatingGroups | lse_diss/features/controls.py:12-15 | each group comes from some row, and its inventor list holds exactly the inventors of the rows with its key |
| Controls.MakeOriginatingCovers | lse_diss/features/controls.py:12-15 | every patent row belongs to some group |
| Controls.MakeTreated | lse_diss/features/controls.py:27-62 | fails with the "1:m" error exactly when two originating rows share a patent id |
| Controls.PairsOfMember | lse_diss/features/controls.py:45-59 | the pairs of one originating patent are exactly its citations whose citing patent is granted in the window and is not a self-cite |
| Controls.MakeTreatedExact | lse_diss/features/controls.py:27-62 | the treated pairs are exactly those of the reference definition: originating cited patent, citing patent granted in [base year, base year + duration] that cites it, different assignees, no shared inventor |
| Controls.TreatedNotSelfCite | lse_diss/features/controls.py:51-58 | every treated pair is a citation whose two patents have different assignees and disjoint inventor lists |
| Controls.PotentialControlsMember | lse_diss/features/controls.py:75-79 | the potential controls are exactly the patents granted inside the window |
| Controls.CitingWindowsMember | lse_diss/features/controls.py:81-97 | a `citing` row is a treated pair with the window of `search_range` days around its citing patent's application date |
| Controls.CitedRowsMember | lse_diss/features/controls.py:99-104 | a `cited` row is a windowed pair joined with its cited patent's assignee and inventors |
| Controls.JoinWhereMember | lse_diss/features/controls.py:106-114 | `join_where` yields exactly the (row, candidate) pairs meeting its four predicates |
| Controls.CrossJoinMember | lse_diss/features.py:241-242 | the cross join yields exactly all (row, candidate) pairs |
| Controls.MakeControls | lse_diss/features/controls.py:65-134 | the control triples are duplicate-free, and no control is the citing or the cited patent |
| Controls.MakeControlsSelected | lse_diss/features/controls.py:106-131 | a triple is output exactly when some joined row and candidate meet all five predicates |
| Controls.MakeControlsCross | lse_diss/features.py:199-258 | in the older version no control is the citing or the cited patent |
| Controls.MakeControlsCrossSelected | lse_diss/features.py:241-256 | in the older version a triple is output exactly when some row and candidate meet the five predicates |
| Controls.JoinWhereMatchesCrossJoin | lse_diss/features/controls.py:106-131 | the `join_where` version and the older cross-join version output the same set of triples |
| Controls.SelectedByIsControl | lse_diss/features/controls.py:65-134 | every selected triple meets the reference definition of a control |
| Controls.IsControlSelectedBy | lse_diss/features/controls.py:65-134 | every triple meeting the reference definition is selected |
| Controls.MakeControlsExact | lse_diss/features/controls.py:65-134 | the output is exactly the reference control triples: treated pair, control granted in the window, filed within `search_range` days of the citing patent, neither patent of the pair, no assignee and no inventor shared with the cited patent |
| Controls.RemoveCited | lse_diss/features/controls.py:137-146 | a triple survives exactly when its control does not itself cite its cited patent |
| Controls.RemoveCitedKeepsRows | lse_diss/features/controls.py:142-144 | the anti join keeps each surviving triple exactly as often as the input has it |
| Batching.BatchCount | lse_diss/features/controls.py:160 | `ceil(N / b)`: a zero batch size is an error; for b > 0 it is the least k with k·b >= N |
| Batching.Slice | lse_diss/features/controls.py:166 | `slice(start, length)` takes at most `length` rows of the frame, and exactly the window when it fits |
| Batching.Windows | lse_diss/features/controls.py:160-166 | the current version makes `ceil(N / b)` windows that cut [0, N) into consecutive non-empty pieces; every window but the last has exactly b rows, the last at most b |
| Batching.BatchWindowsTiling | lse_diss/features/controls.py:162-166 | when (k - 1)·b < N <= k·b, the k windows starting at i·b with `min(b, N - i·b)` rows tile [0, N), all but the last with exactly b rows |
| Batching.Batches | lse_diss/features/controls.py:160-166 | there are `ceil(N / b)` batches; every batch has between 1 and b rows, and every batch but the last exactly b |
| Batching.TilingConcat | lse_diss/features/controls.py:162-166 | the slices of consecutive windows, read back in order, are the first N rows |
| Batching.BatchesPartition | lse_diss/features/controls.py:159-166 | with b > 0 the batches, concatenated, are the pairs frame itself |
| Batching.BatchMembersArePairs | lse_diss/features/controls.py:166 | every row of a batch is one of the pairs |
| Batching.SaveControls | lse_diss/features/controls.py:149-173 | one output per batch; in every file the control differs from the citing and the cited patent and does not cite the cited patent (the full control conditions are `Batching.SavedTripleIsControl`) |
| Batching.BatchControlIsControl | lse_diss/features/controls.py:167-170 | a control triple of a batch is a control triple of the whole pairs frame |
| Batching.ControlInSomeBatch | lse_diss/features/controls.py:167-170 | a control triple of the whole frame is one of the batch that holds its pair |
| Batching.SavedTripleIsControl | lse_diss/features/controls.py:149-173 | every triple in an output file is in the unbatched `remove_cited(make_controls(...))` |
| Batching.ControlIsSaved | lse_diss/features/controls.py:149-173 | every triple of the unbatched pipeline lands in some output file |
| Batching.BatchControlIsSaved | lse_diss/features/controls.py:167-173 | a control of batch i that does not cite its cited patent is written to file i |
| Batching.SaveControlsComplete | lse_diss/features/controls.py:149-173 | batching changes nothing but the file a triple lands in: the files together hold exactly the unbatched result |
| Batching.LegacyWindows | lse_diss/features.py:278-286 | the older version makes `ceil(N / b)` windows |
| Batching.LegacyBatches | lse_diss/features.py:280-286 | every row of an older batch is one of the pairs |
| Batching.LegacySaveControls | lse_diss/features.py:273-289 | the older version writes one file per batch |
| Batching.LegacySaveControlsSound | lse_diss/features.py:273-289 | every triple the older version writes is in the unbatched cross-join result |
| Batching.LegacyWindowsHundred | lse_diss/features.py:278-286 | with 100 pairs and b = 25 the older windows are (0, 4), (25, 4), (50, 4), (75, 4) |
| Batching.LegacySkipsRow | lse_diss/features.py:278-286 | with 100 distinct pairs and b = 25 row 4 reaches no older batch, but it is in a current batch |
| Batching.LegacyRepeatsRow | lse_diss/features.py:278-286 | with 3 pairs and b = 1 the older batches are rows [0], [1, 2], [2], so row 2 is processed twice |
| Locations.SortRows | lse_diss/features/locations.py:25 | the rows sorted by (patent_id, inventor_sequence) are a permutation of the input |
| Locations.Insert | lse_diss/features/locations.py:25 | inserting a row into a sorted frame keeps it sorted and adds exactly that row |
| Locations.StrLeTotal | lse_diss/features/locations.py:25 | the string order of the sort compares any two ids |
| Locations.StrLeTrans | lse_diss/features/locations.py:25 | the string order of the sort is transitive |
| Locations.StrLeAntisym | lse_diss/features/locations.py:25 | the string order of the sort is antisymmetric |
| Locations.SortLeTotal | lse_diss/features/locations.py:25 | the (patent, sequence) order compares any two rows |
| Locations.SortLeTrans | lse_diss/features/locations.py:25 | the (patent, sequence) order is transitive |
| Locations.Deduplicated | lse_diss/features/locations.py:18-27 | the US rows are made unique on (patent, inventor, location), and every kept row is a US row |
| Locations.DeduplicatedKeepsLowest | lse_diss/features/locations.py:24-26 | an inventor listed twice at one location keeps its lowest sequence |
| Locations.DeduplicatedCovers | lse_diss/features/locations.py:26 | every (patent, inventor, location) of the US rows keeps a row |
| Locations.RuleOneModal | lse_diss/features/locations.py:33-34 | a row kept by rule 1 is at a location no other location of its patent outnumbers |
| Locations.RuleOneKeepsPatent | lse_diss/features/locations.py:33-34 | rule 1 keeps a row of every patent |
| Locations.RuleTwoFirst | lse_diss/features/locations.py:35-40 | a row kept by rule 2 has the lowest sequence of its patent |
| Locations.RuleTwoKeepsPatent | lse_diss/features/locations.py:35-40 | rule 2 keeps a row of every patent |
| Locations.PatentLocations | lse_diss/features/locations.py:29-43 | there are no more patent locations than inventor rows |
| Locations.PatentLocationChosen | lse_diss/features/locations.py:29-43 | every patent location comes from a row that is modal among its patent's locations and has the lowest sequence among those |
| Locations.ChosenRowHolds | lse_diss/features/locations.py:30-40 | a row both rules keep is modal and first |
| Locations.EveryPatentLocated | lse_diss/features/locations.py:18-43 | every patent with a US inventor gets a location |
| Locations.OneLocationPerPatent | lse_diss/features/locations.py:29-43 | when inventor sequences are distinct within a patent, each patent gets exactly one location |
| Locations.JoinCoordinates | lse_diss/features/locations.py:45-47 | the "m:1" join fails exactly when a location id repeats in the coordinates table; otherwise no row is multiplied |
| Locations.JoinCoordinatesMember | lse_diss/features/locations.py:45-47 | a located patent is exactly a patent location with the coordinates of its location |
| Locations.JoinCoordinatesUnique | lse_diss/features/locations.py:45-47 | the coordinate join keeps the frame unique on the patent |
| Locations.MakeLocations | lse_diss/features/locations.py:7-49 | the current `make_locations` fails exactly when the coordinates are not unique on the location id |
| Locations.MakeLocationsUnique | lse_diss/features/locations.py:7-49 | with distinct sequences `locations.parquet` has at most one row per patent |
| Locations.Unpivot | lse_diss/features/locations.py:61-70 | the unpivot gives two rows per control triple |
| Locations.UnpivotMember | lse_diss/features/locations.py:61-70 | the unpivoted rows are exactly the citing patent tagged 1 and the control tagged 0, each with the cited patent as parent |
| Locations.MakeDistances | lse_diss/features/locations.py:60-97 | the two "m:1" joins fail exactly when the locations are not unique on the patent; otherwise there are at most two rows per triple |
| Locations.MatchedRowSource | lse_diss/features/locations.py:60-97 | every matched row is the row of a triple's child, with both patents' locations |
| Locations.MatchedRowHas | lse_diss/features/locations.py:60-97 | every child of a triple with both patents located gives a matched row |
| Locations.MakeDistancesExact | lse_diss/features/locations.py:60-97 | the matched rows are exactly those of the reference definition |
| Abstracts.ControlIds | lse_diss/features/abstracts.py:15-21 | the unpivoted and deduplicated ids are duplicate-free |
| Abstracts.ControlIdsMember | lse_diss/features/abstracts.py:15-21 | an id is kept exactly when it is the citing or the control patent of some triple |
| Abstracts.FilterAbstracts | lse_diss/features/abstracts.py:6-27 | the (patent, abstract) rows are duplicate-free |
| Abstracts.FilterAbstractsExact | lse_diss/features/abstracts.py:11-25 | a (patent, abstract) row is kept exactly when some patent row has it and the patent is a citing or a control patent |
| Abstracts.CitedOnlyExcluded | lse_diss/features/abstracts.py:15-25 | a patent that occurs only as the cited patent gets no abstract |
| Abstracts.WithRowIndex | lse_diss/features.py:307-311 | `with_row_index()` numbers the rows 0, 1, 2, … |
| Abstracts.WithRowIndexRoundTrip | lse_diss/features.py:307-311 | dropping the index gives the rows back, in order |
| Abstracts.FilterAbstractsIndexed | lse_diss/features.py:292-313 | the older version yields the same rows, each numbered by its position |
| Classes.UnpivotAll | lse_diss/features/classes.py:17-19 | `unpivot()` gives three rows per triple, one per id column |
| Classes.UnpivotAllMember | lse_diss/features/classes.py:17-19 | an unpivoted row is exactly some triple's id in its column |
| Classes.SectionsOf | lse_diss/features/classes.py:21 | the sections the join finds for a patent are exactly those the CPC rows list for it |
| Classes.SectionsOfNoDup | lse_diss/features/classes.py:11-15 | over deduplicated class pairs, each section of a patent is found once |
| Classes.LeftMatchesMember | lse_diss/features/classes.py:21 | the left join gives an id one row per section, or a single null-section row when it has none |
| Classes.LeftJoinNoDup | lse_diss/features/classes.py:11-21 | with classes and unpivoted rows deduplicated first, the left join repeats no row |
| Classes.FilterClasses | lse_diss/features/classes.py:6-36 | the output rows are unique, and `cited_dummy` is 0 or 1 |
| Classes.FilterClassesSound | lse_diss/features/classes.py:17-33 | every output row is an id of some column of the controls, with that column's dummy and a class of the id (null only when it has none) |
| Classes.FilterClassesComplete | lse_diss/features/classes.py:17-33 | every row of the reference definition is output |
| Classes.FilterClassesExact | lse_diss/features/classes.py:11-33 | the output is exactly the reference set of (section, patent, dummy) rows |
| Classes.EveryIdClassified | lse_diss/features/classes.py:17-27 | every id of every column appears with its column's dummy, and with each of its sections |
| Ann.NeighbourCount | lse_diss/modelling/ann.py:43-44 | `ceil(n / 100)`: at least 1 when n >= 1, and the least k with k·100 >= n |
| Ann.CitingIds | lse_diss/modelling/ann.py:41 | the citing ids are unique and are exactly the citing patents of the controls |
| Ann.EmbeddingOf | lse_diss/modelling/ann.py:47-53 | the lookup finds an embedding of the patent exactly when it has one |
| Ann.EmbeddingOfUnique | lse_diss/modelling/ann.py:47-53 | when embeddings are unique on the patent, the one found is its only one |
| Ann.CitingEmbeddings | lse_diss/modelling/ann.py:47-57 | one row per citing id, in order, with its embedding; a missing embedding is an error |
| Ann.CitingEmbeddingsMember | lse_diss/modelling/ann.py:47-53 | the looked-up rows are exactly the citing ids with their embeddings |
| Ann.Explode | lse_diss/modelling/ann.py:60-61 | `explode` gives exactly one row per neighbour of the citing patent |
| Ann.CitingNeighboursSource | lse_diss/modelling/ann.py:59-70 | every neighbour pair names the id of a `citing_ids` row and the patent of an embeddings row whose index that row's neighbour list holds |
| Ann.CitingNeighboursHas | lse_diss/modelling/ann.py:59-70 | every embeddings row whose index a row's neighbour list holds gives a neighbour pair with that row's id |
| Ann.AttachedPairNeighbour | lse_diss/modelling/ann.py:47-70 | a neighbour pair (c, p) comes from the row where the second evaluation of `citing_ids` holds c, and p is a neighbour of the id the first evaluation holds at that position |
| Ann.MatchControls | lse_diss/modelling/ann.py:32-76 | the "1:1" join fails exactly when a patent has two embedding rows; otherwise a citing patent without embedding is an error; the output is a subset of the potential controls, whatever order the second evaluation of `citing_ids` gives |
| Ann.KeptControlsSource | lse_diss/modelling/ann.py:72-74 | a kept triple is a potential control whose (citing, control) pair is a neighbour pair |
| Ann.MatchControlsSound | lse_diss/modelling/ann.py:41-74 | every kept triple is a potential control whose control is a neighbour of the id the first evaluation of `citing_ids` holds at the position of its citing patent in the second |
| Ann.MatchControlsComplete | lse_diss/modelling/ann.py:41-74 | a potential control whose control is a neighbour of the id at its citing patent's position in the first evaluation is kept |
| Ann.MatchControlsAttachedKept | lse_diss/modelling/ann.py:41-74 | the same, with the position and the embeddings rows left to be found |
| Ann.MatchControlsExact | lse_diss/modelling/ann.py:41-74 | a potential control survives exactly when its control is among the nearest neighbours of the id its row's neighbour list was computed for, for every order of the second evaluation |
| Ann.MatchControlsMisattributes | lse_diss/modelling/ann.py:41-60 | with citing ids [A, B] in the first evaluation and [B, A] in the second, the potential control (A, X, D) is kept although D is a neighbour of B and not of A |
| Ann.MatchControlsAligned | lse_diss/modelling/ann.py:32-76 | `match_controls` with `citing_ids` evaluated once: the same error conditions, and a subset of the potential controls |
| Ann.MatchControlsAlignedExact | lse_diss/modelling/ann.py:41-74 | with one evaluation, a potential control survives exactly when its control is among the nearest neighbours of its own citing patent |

## Left out

- File and network I/O is not modelled: parquet scans and sinks, directory creation, partitioned writes and the download scripts. Every frame is a parameter and every result is returned.
- The geodesic distance at lse_diss/features/locations.py:99-111 is not modelled. It is a floating-point call into geopy, so `make_distances` stops at the matched rows.
- The 1% and 99% quantiles of `trim_abstracts` are not computed; they are the parameters `lo` and `hi`.
- `str.to_date` and the casts to `Utf8` are not modelled. Dates are day numbers and ids are strings from the start.
- The voyager index is left out: `create_index`, `open_index` and the approximate search itself. The query is the parameter `query(embedding, k)`.
- `Ann.NeighbourCount`: models `ceil(n / 100)` on integers, not Python's float division, which rounds for very large `n`.
- `Batching.BatchCount`: models `ceil(N / b)` on integers, not Python's float division, which rounds for very large `N`.
- `Ann.MatchControls`: null embeddings reach the library query, whose refusal is modelled as an error. It is not known whether the library raises or returns garbage.
- Polars sorts with ties in an arbitrary order. The model sorts stably by (patent_id, inventor_sequence), which is one admissible outcome.
- Polars `unique()` keeps an arbitrary occurrence, in an arbitrary row order. The model keeps the first occurrence in input order, which is one admissible outcome. Properties stated as membership of a single evaluation do not depend on this choice. The positions `Abstracts.FilterAbstractsIndexed` numbers are those of one evaluation. Where a lazy frame is evaluated twice, the order can differ; `Ann` models this explicitly, and `Batching` does not (see below).
- `Abstracts.FilterAbstractsIndexed`: the row numbers are positions in one evaluation of `filter_abstracts`. Another evaluation may number the same rows differently.
- `Ann.CitingEmbeddings`: the `how="left"` join at lse_diss/modelling/ann.py:47-53 is taken to keep the row order of `citing_ids`, so the looked-up embeddings follow the first evaluation's order.
- `Batching.SaveControlsComplete`: assumes every `pairs.slice` at lse_diss/features/controls.py:168 sees the pairs in one and the same order. `pairs` is lazy and built from joins and a `group_by` that keep no order, so each batch re-evaluates it. Under different orders a pair can fall in no batch, or in two. The same holds for `Batching.ControlIsSaved` and `Batching.BatchesPartition`; `Batching.SavedTripleIsControl` holds for any order.
- `Ann.MatchControlsExact`: the neighbour lists go to the rows of the second evaluation of `citing_ids` by position, so the contract names the id at that position in the first evaluation. Only `Ann.MatchControlsAlignedExact`, where the two agree, states "a neighbour of its own citing patent".
- `Locations.OneLocationPerPatent`: holds only when inventor sequences are distinct within a patent. The source keeps all tied rows, and the model keeps them too.
- `Classes.ClassRow`: the CPC section is taken to be non-null. lse_diss/features/classes.py:11-14 reads `cpc_section` unfiltered; a null there would give a classified id a null-section row, which `Classes.LeftMatchesMember` and `Classes.FilterClassesSound` do not allow.
- The inventor columns read by `make_locations` are taken to be non-null. The raw partition may hold nulls there, and polars would group them as a value of their own.
- `make_originating` in features.py and in features/controls.py are identical. So are `load_patents`, `trim_abstracts` and `filter_citations`. Only the features package copy is cited.
- `make_locations` of features.py is modelled by `Locations.PatentLocations`. That function is the current version without the coordinate join.
- The `tqdm` progress bar and the printed neighbour count are not modelled; they only produce output.
- Outside this model: embeddings.py, predict.py, benchmark.py and encode_all.py (model inference), validation.py and sub.py/alt.py (scripts), and the bulk-data and OSM downloaders.

## Findings

| source | as written | input that shows it | evidently intended | confidence | as-written member | corrected member |
|---|---|---|---|---|---|---|
| lse_diss/features.py:278-286 | the batch loop slices `pairs.slice(i * b, min((i + 1) * b, ceil(N / b)))`, passing a bound computed from the batch count where `slice` takes a length | 100 pairs, batch size 25: four slices of 4 rows at offsets 0, 25, 50, 75, so row 4, one of 84 rows, is never processed; with 3 pairs and batch size 1 row 2 is processed twice | `slice(i * b, min(b, N - i * b))`, as the features package version does (completeness assumes every slice sees the pairs in one order, see "## Left out") | high; not executed | Batching.LegacyBatches (Batching.LegacySkipsRow, Batching.LegacyRepeatsRow, Batching.LegacyWindowsHundred) | Batching.Batches (Batching.BatchesPartition, Batching.SaveControlsComplete) |
| lse_diss/features/patents.py:93-97 | the kept citation categories include the literal "cite by examiner" | a citation row between two loaded patents with category "cited by examiner" is dropped | "cited by examiner", spelled as the other two categories are | medium; not executed | Patents.FilterCitations (Patents.ExaminerCategoryNotKept) | Patents.FilterCitationsIntended (Patents.ExaminerCategoryKept, Patents.FilterCitationsIntendedExact) |
| lse_diss/modelling/ann.py:41-60 | `citing_ids` is a lazy `unique()` without `maintain_order`; it is evaluated once to look up the embeddings that are queried, and again when `with_columns(neighbour=neighbours)` attaches the neighbour lists by row position | citing ids A and B, the first evaluation giving [A, B] and the second [B, A]: B's neighbour list is attached to A, so a potential control (A, X, D) with D a neighbour of B and not of A is kept | each list stays with the id it was computed for, e.g. by collecting `citing_ids` once or with `unique(maintain_order=True)` | medium; not executed | Ann.MatchControls (Ann.MatchControlsMisattributes, Ann.MatchControlsExact) | Ann.MatchControlsAligned (Ann.MatchControlsAlignedExact) |
