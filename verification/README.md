# TasteTrend review pipeline — a Dafny model

This project models the data path of the TasteTrend restaurant-review analytics system in Dafny. It covers these stages:

- The review loader standardises heterogeneous review exports into one schema.
- The validators check the processed files and the restaurant metadata.
- The ETL Lambda gathers, validates and renumbers every file in a bucket.
- Two embedding Lambdas turn reviews into indexed vector documents.
- The retrieval layer chunks review texts, indexes them and queries them.

Every external service is a parameter of the model: S3, Bedrock, OpenSearch, pandas' file readers and parsers, clocks and identifiers. Each operation is proved against a specification function, and lemmas state what the source promises about that function.

Modules, one file each:

- `Wrappers`: `Option` and `Result`.
- `Text`: the Python string operations the code relies on. These are `str.isspace`, `strip`, `lower`, `split()` / `" ".join`, `count`, `replace(pat, "")` and `split(sep)[0]`.
- `Ordering`: Python's string order, and the stable multi-key sort behind `sort_values`.
- `Frames`: the slice of pandas in use. A DataFrame is a list of columns and a list of rows. A row maps column names to cells, and an absent cell reads as missing. The module also covers selection, `duplicated`, `drop_duplicates`, `value_counts`, `nunique` and missing-value counts.
- `Schema`: the unified columns, the synonym table, the categorical lookup tables, column-name normalisation and the unified-to-raw column map (`normalize_colname`, `build_colmap`).
- `Transforms`: the column passes of `load_and_standardize`:
  - text and number coercion;
  - review-text cleaning;
  - rating-scale inference and rescaling;
  - tip percentage and its cap;
  - the review-length cap;
  - categorical normalisation;
  - the per-file deduplication of `deduplicate_reviews`.
- `Loader`: the `ReviewLoader` class, with its schema-audit log and categorical log and its two variants of `load_and_standardize`:
  - `src/etl/etl.py` deduplicates and returns the expected columns that are present;
  - `src/etl.py` selects every expected column and fails when one is absent.
- `Validation`: `src/etl_validation.py`. This covers the integrity report, the processed-data and restaurant-info validations, the deduplication metrics and the combined report over many sources. A status only rises along pass < warn < fail.
- `EtlCore`: `src/lambda/etl_core.py`. This covers `safe_json_dict` and `handle_etl`: it lists the raw bucket, loads, validates and concatenates every data file, renumbers `review_id` 1..N and counts the categorical values for the bias summary.
- `Embedding`: what both embedding handlers share. This is the indexed document, the `s3://bucket/key` split and the batching loop that embeds and upserts full batches and then flushes the remainder once.
- `EmbeddingCsv`: `src/lambda_functions/embedding_handler.py`. This covers delimiter sniffing, the row filter and defaults of `_iter_csv_rows`, the actions of `_bulk_upsert` and `handler`.
- `EmbeddingParquet`: `src/lambda/embedding_handler.py`. This covers `_iter_parquet_rows`, the NDJSON body of `_bulk_upsert` and `handler`.
- `Chunker`: `src/rag/chunker.py`. This covers whitespace normalisation and the sliding window of `chunk_text`.
- `Ingest`: `src/rag/ingest_parquet_to_opensearch.py`. This covers the host normalisation, the retry loop of `embed_one`, the generator `make_actions` and the text filter of `main`.
- `Query`: `src/rag/test_query.py`. This covers the host, the k-NN query body with its optional filters and the mapping of hits to results.

Numbers are exact reals or unbounded integers. Dates are day numbers.

## Behaviour worth noting

- `rating_1_5` is the raw rating times 5/scale, with no clamp (`src/etl/etl.py:319`). A raw rating above the inferred scale gives a value above 5, and 0 or a negative rating stays below 1.
- `infer_rating_scale` returns 5, 10 or 100 (`src/etl/etl.py:163-173`). It returns 10 for a maximum in (5, 10] and 100 for a maximum in (10, 100]. It returns 5 for a maximum of at most 5, for a maximum above 100, and when no rating is present.
- A gender, ethnicity or age value missing from its lookup table falls back to its lower-cased, stripped raw text (`src/etl/etl.py:329-343`). It does not become missing.
- Deduplication runs per file inside `load_and_standardize` (`src/etl/etl.py:215-241`).
- A `review_id` shared by rows naming different customers is only counted in the validation metrics (`src/etl_validation.py:196-225`). It turns a passing report into a warning, and no row is dropped for it.
- `tip_percentage` is capped at 30 from above only, so a negative value stays negative (`src/etl/etl.py:187-192`).
- The ETL Lambda renumbers `review_id` 1..N over the concatenation of all files (`src/lambda/etl_core.py:126`).

## Model

| member | source | states |
|---|---|---|
| Text.Lower | src/etl/etl.py:127 | lowering keeps the length and leaves no ASCII capital; only ASCII letters are lowered (see Left out) |
| Text.LowerNoUpper | src/etl/etl.py:127 | lowering a name that has no upper-case letter changes nothing |
| Text.Strip | src/etl/etl.py:150 | `str.strip()` is no longer than its input and neither starts nor ends with whitespace |
| Text.StripTrimmed | src/etl/etl.py:150 | a string without whitespace at either end is its own strip |
| Text.StripEmpty | src/etl/etl.py:155 | strip gives "" exactly when the input is all whitespace (the texts `clean_review_text` turns into missing) |
| Text.StripIdempotent | src/etl/etl.py:150 | stripping twice is stripping once |
| Text.StripSurrounding | src/etl/etl.py:127 | whitespace around a core that starts and ends with non-whitespace is removed and the core kept intact |
| Text.CollapseSpaces | src/etl/etl.py:128 | `re.sub(r"[\s]+", "_", c)` leaves no whitespace character |
| Text.CollapseNoSpace | src/etl/etl.py:128 | a name without whitespace is unchanged by the substitution |
| Text.CollapseRun | src/etl/etl.py:128 | a whole run of whitespace, however long, becomes exactly one "_" |
| Text.WordsWellFormed | src/rag/chunker.py:2 | every word `str.split()` returns is non-empty and free of whitespace |
| Text.JoinSingleSpaced | src/rag/chunker.py:2 | `" ".join` of such words has no whitespace at either end and single spaces between words; it is empty iff there are no words |
| Text.WordsOfJoin | src/rag/chunker.py:2 | splitting `" ".join(ws)` gives back ws, for any well-formed words |
| Text.Count | src/lambda_functions/embedding_handler.py:148-150 | `str.count(c)` is at most the length and is 0 exactly when c does not occur |
| Text.RemoveAllAbsent | src/rag/test_query.py:32 | `replace(pat, "")` changes nothing in a string lacking one of pat's characters |
| Text.RemoveAllAfterHead | src/rag/ingest_parquet_to_opensearch.py:44 | a removal that matches nowhere inside a prefix leaves that prefix in front of the removed rest |
| Text.RemoveAllKeepsHead | src/rag/ingest_parquet_to_opensearch.py:44 | removing a scheme pattern passes over a host without ':' followed by a path starting at "/" |
| Text.RemoveAllSlashHead | src/rag/ingest_parquet_to_opensearch.py:44 | a path starting at "/" still starts at "/" after removing a pattern that does not start with "/" |
| Text.BeforeFirst | src/rag/test_query.py:32 | `split("/")[0]` is a prefix without "/", followed in the input by "/" unless it is all of it |
| Text.BeforeFirstOf | src/rag/test_query.py:32 | the part before the first separator of a + sep + b is a, when a has none |
| Text.SplitOnce | src/lambda_functions/embedding_handler.py:121 | `split("/", 1)` unpacks into two parts exactly when "/" occurs; the first part has no "/" and the parts rejoin to the input |
| Frames.Column | src/etl_validation.py:133 | `df[c]` has one cell per row, the row's cell or missing |
| Frames.FirstIndices | src/etl_validation.py:141 | the first-occurrence positions are increasing, each is a first occurrence, and every first occurrence is listed |
| Frames.UniqueSpec | src/etl_validation.py:141 | `unique()` holds no value twice and holds exactly the input's values |
| Frames.FirstIndicesOfDistinct | src/etl/etl.py:230 | with no repeated value every position is kept |
| Frames.CountDuplicated | src/etl_validation.py:82 | the count is at most the length |
| Frames.DuplicatedPlusFirst | src/etl_validation.py:82 | `duplicated().sum()` plus the number of distinct values is the length |
| Frames.DuplicatedZeroIffDistinct | src/etl_validation.py:82-83 | no duplicate is counted exactly when all values are distinct |
| Frames.Occ | src/lambda/etl_core.py:140 | a value occurs 0 times exactly when it is absent, and at most length times |
| Frames.ValueCounts | src/lambda/etl_core.py:140 | one pair per distinct value, missing included, each with its number of occurrences; pairs are listed in first-appearance order, not pandas' descending-count order (see Left out) |
| Frames.ValueCountsSpec | src/lambda/etl_core.py:140 | every value of the column is named exactly once, and its count is its positive number of occurrences |
| Frames.ValueCountsTotal | src/lambda/etl_core.py:140 | the counts add up to the number of values |
| Frames.DropNA | src/etl/etl.py:333 | `dropna()` keeps exactly the present values |
| Frames.UniqueLength | src/etl_validation.py:27-28 | there are no more distinct values than values, and as many exactly when none repeats |
| Frames.DropNALength | src/etl_validation.py:27-28 | dropping missing values shortens the column exactly when it held one |
| Frames.NUniqueMoreThanOne | src/etl_validation.py:209-214 | `nunique() > 1` exactly when two present values differ |
| Frames.CountRows | src/etl_validation.py:141 | a boolean mask selects at most all rows |
| Frames.FilterRows | src/etl_validation.py:141 | the masked rows are exactly the rows satisfying the mask, as many as counted |
| Frames.CountRowsPositive | src/etl_validation.py:141 | a positive count means some row satisfies the mask, and conversely |
| Frames.FilterAll | src/etl/etl.py:224 | a mask every row satisfies keeps the rows unchanged |
| Frames.Derive | src/etl/etl.py:301 | `df[c] = ...` adds or replaces column c with the computed cells and leaves every other cell alone |
| Frames.Select | src/etl/etl.py:358-360 | `df[cols]` has exactly the listed columns, one row per row, and keeps the listed cells |
| Frames.Absent | src/etl.py:296 | the absent columns are exactly the listed ones the frame lacks |
| Frames.Rows | src/etl/etl.py:230 | a row subset keeps the columns and takes the rows at the given positions |
| Schema.Lookup | src/etl/etl.py:138 | `d[key]` is missing exactly when no entry has the key, and otherwise comes from an entry with that key |
| Schema.LookupAt | src/etl/etl.py:138 | in a dict with distinct keys, every entry is found under its own key |
| Schema.NormalizeColname | src/etl/etl.py:125-128 | a normalised column name holds no whitespace |
| Schema.NormalizeColnameShape | src/etl/etl.py:125-128 | a normalised name has no whitespace anywhere and no upper-case letter |
| Schema.NormalizeColnameIdempotent | src/etl/etl.py:125-128 | normalising an already normalised name changes nothing, so the renamed header of `load_and_standardize` normalises to itself |
| Schema.NormalizeColnameRun | src/etl/etl.py:125-128 | outer whitespace is dropped and an inner whitespace run of any length becomes one "_" (" Review  Text " becomes "review_text") |
| Schema.RawNorm | src/etl/etl.py:133 | each key of `raw_norm` is the normalised name of the raw column it maps to |
| Schema.RawNormCovers | src/etl/etl.py:133 | every raw column's normalised name is a key of `raw_norm` |
| Schema.RawNormLastWins | src/etl/etl.py:133 | a key shared by several raw columns maps to the last of them |
| Schema.FirstMatch | src/etl/etl.py:136-139 | the inner loop stops at the earliest synonym present among the normalised names, or finds none and no synonym is present |
| Schema.Colmap | src/etl/etl.py:131-140 | the mapping has no more entries than the synonym table and maps only to raw columns |
| Schema.ColmapDistinct | src/etl/etl.py:131-140 | with distinct unified names in the table, the mapping has at most one entry per unified name |
| Schema.ColmapLookup | src/etl/etl.py:134-139 | each unified name maps to the raw column of its earliest-listed present synonym, and is absent exactly when none is present |
| Schema.ColmapKeysFrom | src/etl/etl.py:135-138 | every key of the mapping is a unified name of the synonym table |
| Schema.BuildColmap | src/etl/etl.py:131-140 | the nested loops with `break` compute exactly `Colmap` |
| Schema.FirstMatchAt | src/etl/etl.py:136-139 | a present synonym with no present synonym before it is the one the loop stops at |
| Schema.DictSet | src/etl/etl.py:138 | `d[key] = v` keeps the length when the key is present and adds one entry otherwise |
| Schema.DictSetLookup | src/etl/etl.py:138 | after `d[key] = v`, key gives v and every other key gives what it gave before |
| Schema.DictSetDistinct | src/etl/etl.py:138 | assignment keeps the keys distinct |
| Chunker.NormalizeWsSingleSpaced | src/rag/chunker.py:1-2 | `normalize_ws` output has no whitespace at either end, only single spaces, and no other whitespace character |
| Chunker.NormalizeWsIdempotent | src/rag/chunker.py:1-2 | normalising keeps the words, so normalising twice equals normalising once |
| Chunker.NormalizeWsEmpty | src/rag/chunker.py:1-2 | the normalised text is empty exactly when the input is empty or all whitespace |
| Chunker.WindowsFrom | src/rag/chunker.py:11-16 | the windows the loop visits from `start` begin at `start` and are non-empty slices of at most target characters |
| Chunker.Windows | src/rag/chunker.py:9-16 | every window of the whole text is a non-empty slice of at most target characters |
| Chunker.WindowsLinked | src/rag/chunker.py:12-16 | every window but the last is exactly target long, ends before n, and the next starts overlap before its end |
| Chunker.WindowsEnd | src/rag/chunker.py:14-15 | with a non-negative overlap the last window ends at the end of the text |
| Chunker.SlideWindows | src/rag/chunker.py:8-17 | the while loop appends exactly the slices of the text at the windows, in order |
| Chunker.ChunkText | src/rag/chunker.py:4-17 | `chunk_text` returns the chunks of the normalised text (None read as "") |
| Chunker.ChunksEmpty | src/rag/chunker.py:5-7 | no chunks exactly when the text is missing, empty or whitespace only |
| Chunker.ChunksAreSlices | src/rag/chunker.py:11-13 | one chunk per window, each the slice at its window; the first starts at 0 and the last ends at the end of the text |
| Chunker.ShortTextOneChunk | src/rag/chunker.py:12-15 | a text of at most target characters is a single chunk, the whole text |
| Chunker.WindowsOverlap | src/rag/chunker.py:12-16 | consecutive windows overlap by exactly `overlap` positions, and each window is longer than that |
| Chunker.ChunksOverlap | src/rag/chunker.py:12-16 | the last `overlap` characters of a chunk are the first `overlap` characters of the next |
| Chunker.StitchWindows | src/rag/chunker.py:11-16 | the windows from `start` cover `t[start:]`: with the overlaps removed, the chunks rejoin to that suffix |
| Chunker.ChunksCover | src/rag/chunker.py:11-17 | nothing is lost: removing each overlap and concatenating the chunks gives back the normalised text |
| Transforms.CleanText | src/etl/etl.py:153-155 | a cleaned text that is present is non-empty and starts and ends with a non-space character |
| Transforms.CleanTextMissing | src/etl/etl.py:153-155 | a text cell becomes missing exactly when it is all whitespace (or empty) |
| Transforms.MaxNum | src/etl/etl.py:165-166 | the maximum is absent exactly when no cell is numeric; otherwise it is one of the numeric cells and bounds all of them |
| Transforms.InferRatingScale | src/etl/etl.py:163-173 | the inferred scale is always 5, 10 or 100 |
| Transforms.InferRatingScaleCases | src/etl/etl.py:163-173 | scale 5 without numeric ratings; 10 exactly when the maximum is in (5, 10]; 100 exactly when it is in (10, 100] |
| Transforms.RescaledAtMostFive | src/etl/etl.py:317-319 | when no rating exceeds 100, each rescaled rating is at most 5 |
| Transforms.Rescale | src/etl/etl.py:319 | a rating is present after rescaling exactly when it was, and rating_1_5 times the scale is rating_raw times 5, so the raw rating can be recovered |
| Transforms.RescaleNoClamp | src/etl/etl.py:319 | nothing is clamped: a raw 0 gives 0, a negative raw rating stays negative, and a missing rating stays missing |
| Transforms.ApplyRatings | src/etl/etl.py:315-323 | the frame gains rating_raw, rating_scale and rating_1_5, keeps its row count, and all other cells are unchanged |
| Transforms.ApplyRatingsCells | src/etl/etl.py:315-319 | with a rating_raw column, row i has the coerced raw rating, the scale inferred from the coerced column, and rating_1_5 = rating_raw / scale * 5, missing where rating_raw is |
| Transforms.ApplyRatingsMissing | src/etl/etl.py:320-323 | without a rating_raw column, all three rating cells of every row are missing |
| Transforms.ApplyRatingsAtMostFive | src/etl/etl.py:315-319 | each present rating_1_5 of a file whose ratings are at most 100 is at most 5 |
| Transforms.ComputeTipPct | src/etl/etl.py:176-184 | rows in the mask (percentage missing or 0, total_spent > 0, tip_amount present) get tip/total*100; all other cells, on all rows, are unchanged |
| Transforms.ComputeTipPctFills | src/etl/etl.py:181-183 | after the fill, a row with a positive total and a non-zero tip has a present, non-zero percentage |
| Transforms.ComputeTipPctIdempotent | src/etl/etl.py:176-184 | filling twice gives the same frame as filling once |
| Transforms.CapTipPercentage | src/etl/etl.py:187-192 | each tip_percentage cell is capped cellwise, and every other cell is unchanged |
| Transforms.CapTipPercentageSpec | src/etl/etl.py:190-191 | after capping, no present percentage exceeds the cap; values above it become the cap, and all others (negative and missing ones included) are kept |
| Transforms.CapTipPercentageIdempotent | src/etl/etl.py:187-192 | capping twice gives the same frame as capping once |
| Transforms.CapReviewLength | src/etl/etl.py:203-209 | with review_text present, review_length and review_text_trunc are added; row count and all other cells are unchanged |
| Transforms.CapReviewLengthSpec | src/etl/etl.py:207-208 | for a present text, review_length is its length, and the truncation is its prefix of length min(len, max_len); the text itself is kept |
| Transforms.CapReviewLengthMissing | src/etl/etl.py:207-208 | a missing text gives a missing length and a missing truncation |
| Transforms.MapCategory | src/etl/etl.py:331 | `.map(table).fillna(raw)` is missing exactly when the raw value is, and a present value becomes a table value or stays itself |
| Transforms.MapCategorySpec | src/etl/etl.py:331-332 | the mapped value is missing exactly when the raw value is; otherwise it is the table entry for the stripped, lower-cased raw value, or that value itself when the table has no entry |
| Transforms.ApplyCategorical | src/etl/etl.py:330-332 | with the raw column present, the frame gains the normalised column; without it, the frame is unchanged; all other cells are unchanged |
| Transforms.ApplyCategoricalCells | src/etl/etl.py:330-332 | row i's raw cell becomes its trimmed, lower-cased value, and its derived cell the table's entry for that value, or the lowered value itself when the table has none |
| Transforms.ApplyCategoricalNulls | src/etl/etl.py:331-332 | a derived cell is missing exactly when its raw cell is, before and after the normalisation |
| Transforms.Texts | src/etl/etl.py:333 | a text is listed exactly when it is a present cell of the column |
| Transforms.ObservedSpec | src/etl/etl.py:333 | the observed values are distinct, and are exactly the present texts of the column |
| Transforms.DropAllMissing | src/etl/etl.py:224 | dropping all-missing rows keeps the columns |
| Transforms.DropAllMissingKeepsAll | src/etl/etl.py:224 | a column present on every row means no row is dropped |
| Transforms.KeepFirst | src/etl/etl.py:230 | drop_duplicates keeps the columns and never adds rows |
| Transforms.KeepFirstSpec | src/etl/etl.py:230 | the kept rows are, in order, each key's first occurrence; their keys are distinct, and every input key survives |
| Transforms.KeepFirstDistinct | src/etl/etl.py:236 | a frame whose keys are already distinct is returned unchanged |
| Transforms.KeepFirstPreservesDistinct | src/etl/etl.py:230-236 | keys that were distinct under another subset stay distinct |
| Transforms.Present | src/etl/etl.py:234 | a column is listed exactly when it is a key column and a frame column |
| Transforms.DeduplicateReviews | src/etl/etl.py:215-241 | deduplication keeps the columns and never adds rows |
| Transforms.DeduplicateUniqueText | src/etl/etl.py:229-230 | after deduplication, no two rows share review_text (missing counted as one value) |
| Transforms.DeduplicateUniqueComposite | src/etl/etl.py:234-236 | after deduplication, no two rows share the composite key over the key columns present |
| Transforms.CompositePassNoOp | src/etl/etl.py:229-236 | with review_text present, the composite-key pass removes nothing more |
| Transforms.DeduplicateSubsequence | src/etl/etl.py:215-241 | every surviving row is a row of the input |
| Transforms.DeduplicateKeepsConstant | src/etl/etl.py:215-241 | a value every input row has in a column is kept by every surviving row |
| Loader.NormalizeNames | src/etl/etl.py:288 | the header has the same length, and each name is the normalised form of the raw name at that position |
| Loader.NormalizeHeader | src/etl/etl.py:288 | renaming the header keeps every row, and the columns become the normalised names |
| Loader.MappedRow | src/etl/etl.py:292-294 | each unified column holds the cell of the raw column it was mapped from; unmapped columns are missing |
| Loader.SelectMapped | src/etl/etl.py:292-300 | the frame's columns are the mapping's unified names; it has the file's rows, or none when nothing was mapped; each row is the mapped row |
| Transforms.CoerceNumeric | src/etl/etl.py:143-145 | `to_numeric(errors="coerce")` gives a number or missing, and a number either was the cell or is what the cell's text parses to |
| Transforms.CoerceDate | src/etl/etl.py:158-160 | `to_datetime(errors="coerce")` gives a date or missing, and a date either was the cell or is what the cell's text parses to |
| Loader.CoerceRow | src/etl/etl.py:304-312 | exactly the listed columns are coerced; the other cells are unchanged |
| Loader.CoerceTypes | src/etl/etl.py:303-312 | columns and rows are kept, and each present column's cells get that column's coercion |
| Loader.ApplyTip | src/etl/etl.py:326-327 | tip_percentage is added only when total_spent and tip_amount are both columns; the other cells are unchanged |
| Loader.ApplyCategoricals | src/etl/etl.py:330-343 | rows and columns are kept; each derived column exists exactly when it or its raw column existed; non-categorical cells are unchanged |
| Loader.ApplyCategoricalsColumns | src/etl/etl.py:330-343 | the categorical steps add no columns outside the categorical names |
| Loader.Stamped | src/etl/etl.py:291-301 | the frame has a row per raw row (none when nothing was mapped); its columns are source_file plus the mapped unified names; each row carries the file name and its mapped cells |
| Loader.Typed | src/etl/etl.py:303-327 | the coercions, ratings and tip fill keep every row, and add only the rating and tip columns |
| Loader.TypedRow | src/etl/etl.py:301-305 | source_file passes through unchanged, and review_text is cleaned when present |
| Loader.Prepare | src/etl/etl.py:285-343 | up to the categoricals, there is a row per raw row (none when nothing was mapped); source_file exists, and review_text exists exactly when it was mapped |
| Loader.PrepareNormColumn | src/etl/etl.py:330-343 | a derived categorical column exists exactly when its raw column or the derived column itself was mapped |
| Loader.PrepareRow | src/etl/etl.py:292-305 | prepared row i carries the file name and the cleaned mapped text of raw row i |
| Loader.EnsureColumns | src/etl/etl.py:346-348 | every listed column exists afterwards; existing cells are unchanged, and added ones are missing |
| Loader.Caps | src/etl/etl.py:351-353 | the outlier steps keep every row and column, add only review_length and review_text_trunc, and change only those and tip_percentage |
| Loader.Standardized | src/etl/etl.py:285-353 | every standard column exists, and any other column (except the two length columns) exists exactly when the prepared frame had it |
| Loader.StandardizedRow | src/etl/etl.py:285-353 | standardised row i carries the file name and the cleaned mapped text of raw row i |
| Loader.StandardizedNormColumn | src/etl/etl.py:330-348 | in the standardised frame, a derived categorical column exists exactly when it or its raw column was mapped |
| Loader.LoadDedup | src/etl/etl.py:356-360 | the output columns are exactly the expected columns the frame has, and deduplication never adds rows |
| Loader.LoadFixed | src/etl.py:296 | a successful selection has exactly the expected columns and every row; a failure names only expected columns that are absent |
| Loader.SourceFileEverywhere | src/etl/etl.py:301 | every standardised row carries the file name in source_file |
| Loader.DropAllMissingNoOp | src/etl/etl.py:224 | because source_file is set on every row, the all-missing drop removes nothing |
| Loader.LoadDedupSourceFile | src/etl/etl.py:301-360 | every row the deduplicating loader returns carries the file name |
| Loader.LoadDedupUniqueText | src/etl/etl.py:305-360 | the deduplicating loader returns rows with pairwise distinct review_text |
| Loader.LoadFixedFailsIffCategoricalMissing | src/etl.py:271-296 | the selection fails exactly when, for some categorical, neither its raw column nor its derived column was mapped |
| Loader.AbsentCategorical | src/etl.py:286-296 | an absent expected column means some categorical had neither its raw nor its derived column mapped |
| Loader.PresentCategorical | src/etl.py:271-296 | when no expected column is absent, every categorical had its raw or its derived column mapped |
| Loader.LoadFixedRowsCorrespond | src/etl.py:226-296 | without deduplication, a file with a recognised column gives one row per raw row, in order, each with the file name and its cleaned text |
| Loader.UnrecognisedFileIsEmpty | src/etl/etl.py:292-300 | a file with no recognised column gives no rows in either variant |
| Loader.ReviewLoader.constructor | src/etl/etl.py:278-283 | the loader starts with the given synonyms, an empty audit log, and empty summaries for gender, ethnicity and age_range |
| Loader.ReviewLoader.RecordAudit | src/etl/etl.py:293-299 | the audit log gains one row per mapped column, in mapping order; the summary is unchanged |
| Loader.ReviewLoader.Categorize | src/etl/etl.py:330-343 | the frame is the result of the three categorical steps, and the summary records each present raw column's observed values |
| Loader.ReviewLoader.Standardize | src/etl/etl.py:285-353 | returns the standardised frame, appends this file's audit rows, and records its categorical values |
| Loader.ReviewLoader.LoadAndStandardize | src/etl/etl.py:285-360 | returns the deduplicated selection, with the same audit and summary updates |
| Loader.ReviewLoader.LoadAndStandardizeFixed | src/etl.py:226-296 | returns the selection, or the KeyError naming the absent columns; updates made before the failure are kept |
| Loader.ReviewLoader.SchemaAudit | src/etl/etl.py:362-364 | the result is a permutation of the log, sorted by source file and unified column, and stable: the rows that share both keys with any row come out in their log order; an empty log fails |
| Loader.ReviewLoader.CategoricalReport | src/etl/etl.py:366-373 | the report is the summary's rows sorted by column, source and value |
| Loader.StampAndType | src/etl/etl.py:300-327 | the selection, the source_file stamp and the typing, computed by the method's steps |
| Loader.EnsureStandard | src/etl/etl.py:346-348 | the loop adds exactly the missing standard columns |
| Loader.CollectSources | src/etl/etl.py:370-372 | the loop over one column's sources collects that column's rows in insertion order |
| Loader.CollectValues | src/etl/etl.py:371-372 | the loop over one source's values collects one row per value, in order |
| Loader.RecordKeepsValid | src/etl/etl.py:333 | one summary update keeps the three column keys, and keeps the source keys distinct |
| Loader.AuditLeTotalPreorder | src/etl/etl.py:364 | the audit sort key (source file, then unified column) is a total preorder |
| Loader.SortedStrings | src/etl/etl.py:371 | sorting keeps the same values |
| Loader.ValueRowsHas | src/etl/etl.py:371-372 | a row is collected for a source exactly when its value is one of that source's values |
| Loader.SourceRowsHas | src/etl/etl.py:370-372 | a row is collected for a column exactly when its source is a key whose values include its value |
| Loader.ReportRowsHas | src/etl/etl.py:369-372 | a row is collected exactly when the summary lists its column, source and value |
| Loader.ReportContents | src/etl/etl.py:366-373 | the report lists (column, source, value) exactly when the summary recorded it, and fails only when nothing was recorded |
| Loader.ReportOrderDetermined | src/etl/etl.py:373 | any ordering of the rows by column, source and value is the report itself, since ties are impossible |
| Loader.ObservedKept | src/etl/etl.py:330-343 | a categorical step leaves the values observed in other columns unchanged |
| Loader.RecordOneEntry | src/etl/etl.py:333 | one update changes only its own column's entry, and only for the given source |
| Loader.SummarizeEntry | src/etl/etl.py:330-343 | after a file, the summary holds that source's observed values for each raw column it had; every other entry is unchanged |
| Validation.NullFraction | src/etl_validation.py:116-123 | the missing share is undefined exactly for an empty column, and otherwise lies in [0, 1] |
| Validation.RowsWith | src/etl_validation.py:46-48 | a group has exactly the frame's rows whose restaurant_name cell is the group's value |
| Validation.IntegrityReport | src/etl_validation.py:24-28 | duplicate_reviews is never negative |
| Validation.GroupStats | src/etl_validation.py:40-49 | a group's aggregates belong to its name, and neither the review count nor the distinct-customer count exceeds the group's size |
| Validation.ByRestaurant | src/etl_validation.py:39-56 | by_restaurant exists exactly when there is a restaurant_name column and a review_id or customer_name column to aggregate |
| Validation.NameLeTotalPreorder | src/etl_validation.py:47 | groupby's key order is total and transitive, so sorting the keys is defined |
| Validation.NameLeAntisym | src/etl_validation.py:47 | two keys each ordered before the other are the same key, so the sorted key list is unique |
| Validation.NoDuplicateReviewsIff | src/etl_validation.py:26-28 | duplicate_reviews is 0 exactly when every review id is present and no two are equal |
| Validation.ByRestaurantGroups | src/etl_validation.py:40-56 | by_restaurant has one group per distinct present restaurant name, no other groups, and the groups in ascending name order as groupby sorts them |
| Validation.Conflicts | src/etl_validation.py:209-214 | the number of conflicting ids never exceeds the number of ids |
| Validation.DedupMetrics | src/etl_validation.py:205 | rows_dropped_dedup is the raw row count minus the processed row count |
| Validation.ConflictsZero | src/etl_validation.py:209-214 | no ids conflict exactly when each id's rows name at most one distinct customer |
| Validation.CustomersOfConflict | src/etl_validation.py:210-212 | an id's rows name more than one customer exactly when two of its rows name two different present customers |
| Validation.ClashFromGroup | src/etl_validation.py:210-212 | two different customers within an id's group come from two clashing rows |
| Validation.GroupFromClash | src/etl_validation.py:210-212 | two clashing rows put two different customers into the id's group |
| Validation.NoConflictsIff | src/etl_validation.py:207-217 | conflicting_ids is 0 exactly when no review id is shared by two different present customers |
| Validation.ConsistentFromNoConflict | src/etl_validation.py:209-215 | when no id's group has two customers, the customers are consistent |
| Validation.InconsistentFromConflict | src/etl_validation.py:209-215 | an id whose group has two customers makes the customers inconsistent |
| Validation.CategoryWarnings | src/etl_validation.py:139-153 | every category listed in the warnings has at least one unmapped value |
| Validation.FailChecks | src/etl_validation.py:73-113 | checks 1 to 6 record their counts, and the status is fail exactly when one of them fires |
| Validation.RangeChecks | src/etl_validation.py:94-113 | checks 4 to 6 count the ratings outside [1, 5], the tips above 30 and the reviews longer than 2000, and fail exactly when any count is positive |
| Validation.MissingChecks | src/etl_validation.py:115-129 | the loop collects the positive missing shares, and a pass turns into a warn exactly when a share passes its threshold |
| Validation.ValidateProcessedData | src/etl_validation.py:61-160 | the method's report is the per-check specification of validate_processed_data |
| Validation.MissingAboveSnoc | src/etl_validation.py:118-127 | the threshold condition over one more listed column is the old condition or that column's share passing its threshold |
| Validation.ProcessedFailsIff | src/etl_validation.py:73-136 | the report fails exactly when a required column is missing, an id repeats (missing ids count as equal), the row counts differ, a rating is outside [1, 5], a tip exceeds 30, a review is longer than 2000, or more than half the texts are missing |
| Validation.UnmappedValuesSpec | src/etl_validation.py:141 | a value is reported unmapped exactly when some row holds it raw while that row's derived cell is missing |
| Validation.UnmappedValueRow | src/etl_validation.py:141 | every reported unmapped value comes from such a row |
| Validation.UnmappedRowValue | src/etl_validation.py:141 | the raw value of every such row is reported |
| Validation.PairWarnsIff | src/etl_validation.py:140-143 | a categorical pair warns exactly when its derived column is present and it has an unmapped value |
| Validation.CategoryWarningsNonEmpty | src/etl_validation.py:139-158 | the category warnings are non-empty exactly when some pair warns |
| Validation.ValidateRestaurantInfo | src/etl_validation.py:162-193 | the method's report is the specification of validate_restaurant_info |
| Validation.RestaurantFailsIff | src/etl_validation.py:173-191 | restaurant metadata never warns, and fails exactly when a column is missing, an avg_stars is outside [1, 5], or a total_reviews is negative |
| Validation.ProcessedWarnsIff | src/etl_validation.py:115-158 | a frame passing every failing check warns exactly when a missing share passes its threshold or a category is unmapped |
| Validation.EntryReportsAt | src/etl_validation.py:250-278 | report k is the report of entry k |
| Validation.CombinedStatusSnoc | src/etl_validation.py:280-283 | adding one source raises the combined status to the worse of the two |
| Validation.ValidateWithIntegrity | src/etl_validation.py:227-286 | one report per entry, in order; the combined status is fail if any source fails, else warn if any warns, else pass |
| Validation.ValidateStep | src/etl_validation.py:250-283 | one loop pass appends entry k's report and folds its status into the combined status |
| Validation.RaiseStatus | src/etl_validation.py:257-283 | the new combined status is the worse of the old one and the source's |
| Validation.ValidateEntry | src/etl_validation.py:251-276 | the entry's report as specified: the restaurant branch is taken exactly for an entry whose last component is "restaurant_info", including a review entry with that name, and restaurant metadata never warns |
| Validation.EntryBranch | src/etl_validation.py:251-258 | an entry is validated as restaurant metadata exactly when its last component is "restaurant_info"; a review entry so named is checked on its raw frame, with the processed frame as its source, and never warns |
| EtlCore.SafeJson | src/lambda/etl_core.py:28-36 | the resulting dict has distinct keys |
| EtlCore.SafeJsonDict | src/lambda/etl_core.py:30-36 | the loop builds the dict that safe_json_dict specifies |
| EtlCore.SafeJsonLookup | src/lambda/etl_core.py:31-35 | a JSON key is present exactly when some input key renders as it ("NA" for a missing key), and it holds the value of the last such entry |
| EtlCore.LastKeyed | src/lambda/etl_core.py:31-35 | the position found is the last entry whose key renders as t, or -1 when no key does |
| EtlCore.SafeJsonAt | src/lambda/etl_core.py:31-35 | the entry for t is the value at the last position whose key renders as t |
| EtlCore.SafeJsonRenders | src/lambda/etl_core.py:31-35 | when keys render pairwise differently, every entry is kept, in order |
| EtlCore.Rendered | src/lambda/etl_core.py:31-35 | rendering keeps one entry per input entry |
| EtlCore.SumCountsRendered | src/lambda/etl_core.py:140-141 | rendering the keys keeps the total of the counts |
| EtlCore.UnionCols | src/lambda/etl_core.py:122-125 | the concatenated columns are exactly the columns of either frame |
| EtlCore.Concat | src/lambda/etl_core.py:122-125 | a column of the concatenation is exactly a column of some input frame |
| EtlCore.ConcatRows | src/lambda/etl_core.py:122-125 | no row is lost or added: row k of frame i sits after all rows of the earlier frames |
| EtlCore.ConcatLength | src/lambda/etl_core.py:122-125 | the concatenation has the total row count of its inputs |
| EtlCore.Renumber | src/lambda/etl_core.py:126 | renumbering adds or keeps the review_id column and keeps every row |
| EtlCore.RenumberIds | src/lambda/etl_core.py:126 | after renumbering, the ids are 1..N in row order (so they are distinct), and no other column changes |
| EtlCore.BiasOf | src/lambda/etl_core.py:137-146 | each summary entry is for a listed column the frame has, and is that column's counts and missing share |
| EtlCore.BiasSummary | src/lambda/etl_core.py:137-147 | the loop builds the bias summary that BiasOf specifies |
| EtlCore.BiasCountsTotal | src/lambda/etl_core.py:140-141 | value_counts(dropna=False) counts every row once, and when keys render distinctly the JSON counts still sum to the row count |
| EtlCore.BaseName | src/lambda/etl_core.py:78 | the name is a suffix of the key that contains no "/" |
| EtlCore.LastIndex | src/lambda/etl_core.py:78 | the position found is the last occurrence of the character, or None when it does not occur |
| EtlCore.Stem | src/lambda/etl_core.py:94 | `Path.stem` is a prefix of the name |
| EtlCore.StemOfDataName | src/lambda/etl_core.py:94 | a .csv/.txt name's stem is the name without its four-character extension, unless the name is just the extension |
| EtlCore.AbortsIff | src/lambda/etl_core.py:80 | the loop aborts exactly when some data key's download raises |
| EtlCore.GatherStep | src/lambda/etl_core.py:73-102 | one more key either appends its (raw, processed, key) entry, when it is a data key whose table was read, or leaves the entries unchanged |
| EtlCore.Processed | src/lambda/etl_core.py:123 | one processed frame per entry |
| EtlCore.ProcessedKey | src/lambda/etl_core.py:94-96 | the processed file is uploaded directly under processed/, whatever folders the raw key had |
| EtlCore.ProcessedKeys | src/lambda/etl_core.py:94-101 | one upload key per loaded file |
| EtlCore.ProcessedKeysSnoc | src/lambda/etl_core.py:101 | a new entry appends its upload key at the end |
| EtlCore.GatheredReviews | src/lambda/etl_core.py:102 | every gathered entry is a review entry |
| EtlCore.GatherFiles | src/lambda/etl_core.py:73-102 | the loop aborts exactly when a download raises; otherwise it gathers the specified entries and upload keys |
| EtlCore.LoadOne | src/lambda/etl_core.py:89-90 | the entry pairs the raw table with the loader's output, under the key |
| EtlCore.EtlOutcome | src/lambda/etl_core.py:42-186 | the specification of handle_etl's answer: 400 without a bucket; 500 when listing raises; 404 without "Contents"; 500 when a download raises; 404 with no data file; 500 when validation would raise KeyError; otherwise 200 with the processed keys, the validation, the renumbered frame and the bias summary |
| EtlCore.HandleEtl | src/lambda/etl_core.py:42-186 | the handler's response is the specified outcome for the bucket, listing and download results, a raising list_objects_v2 included |
| EtlCore.MissingBucketIff | src/lambda/etl_core.py:54-56 | the answer is 400 exactly when the event has no bucket or an empty one |
| EtlCore.Sources | src/lambda/etl_core.py:102 | the sources list each entry's key, in order |
| EtlCore.GatheredSpec | src/lambda/etl_core.py:73-102 | a key is loaded exactly when it is a listed .csv/.txt key whose table was read |
| EtlCore.DoneIds | src/lambda/etl_core.py:104-179 | a 200 response processed at least one file, has one validation source per file, and numbers the combined ids 1..N |
| Embedding.S3UriParsed | src/lambda_functions/embedding_handler.py:120-121 | a URI parses exactly when it starts with "s3://" and has a "/" after that; then it is "s3://" + bucket + "/" + key, and the bucket contains no "/" |
| Embedding.S3UriRoundTrip | src/lambda_functions/embedding_handler.py:120-121 | building a URI from a bucket without "/" and any key, then parsing it, gives back the bucket and key |
| Embedding.FlattenSnoc | src/lambda_functions/embedding_handler.py:206-228 | laying out one more batch appends its documents |
| Embedding.Capacity | src/lambda_functions/embedding_handler.py:209-210 | the effective batch size is at least 1, and equals BATCH whenever BATCH is at least 1 |
| Embedding.BatchesSpec | src/lambda_functions/embedding_handler.py:206-228 | the batches hold every document once and in order, and every batch but the last is full |
| Embedding.BatchesUnique | src/lambda_functions/embedding_handler.py:206-228 | any batching that lays out the documents, is full except for a non-empty last batch, is that batching |
| Embedding.FlattenLength | src/lambda_functions/embedding_handler.py:206-228 | the laid-out documents include at least those of the last batch |
| Embedding.AttachVectors | src/lambda_functions/embedding_handler.py:212-213 | the loop gives each document the vector at its position, as zip does |
| Embedding.ZipVectors | src/lambda_functions/embedding_handler.py:212-213 | each document gets the vector at its own position and is otherwise unchanged; documents past the last vector are untouched |
| Embedding.Upserts | src/lambda_functions/embedding_handler.py:211-214 | one upsert per batch |
| Embedding.UpsertsAt | src/lambda_functions/embedding_handler.py:211-214 | upsert i is batch i with its embedded vectors |
| Embedding.FillBatches | src/lambda_functions/embedding_handler.py:206-221 | the loop upserts exactly the full batches, in order; what is left pending is the documents after the ingested count, fewer than BATCH of them |
| Embedding.FullBatchesSplit | src/lambda_functions/embedding_handler.py:206-223 | full batches covering a prefix, with fewer than BATCH documents after it, are exactly the full batches; the pending rest is the last batch |
| Embedding.FlushStep | src/lambda_functions/embedding_handler.py:210-215 | flushing the pending batch keeps the loop's account of the documents sent and upserted |
| Embedding.EmbedInBatches | src/lambda_functions/embedding_handler.py:206-228 | every document is upserted once, in the specified batches, and ingested counts all of them |
| Embedding.UpsertsCoverDocs | src/lambda_functions/embedding_handler.py:206-228 | the upserted batches lay out the documents in order, each with the vector for its position; every batch but the last has BATCH documents, and the last has 1 to BATCH |
| EmbeddingCsv.FirstLine | src/lambda_functions/embedding_handler.py:147 | the sample is the body's prefix up to, but not including, its first line break, and contains no line break |
| EmbeddingCsv.Delimiter | src/lambda_functions/embedding_handler.py:148-157 | the sniffed delimiter is ',', ';' or tab |
| EmbeddingCsv.DelimiterMostFrequent | src/lambda_functions/embedding_handler.py:148-157 | the chosen delimiter is one of the three and occurs at least as often as each of the others; ';' needs a strict majority, ',' wins ties, and a sample with none of them gets ',' |
| EmbeddingCsv.KeptDocs | src/lambda_functions/embedding_handler.py:165-179 | the generator never yields more documents than there are rows |
| EmbeddingCsv.IterCsvRows | src/lambda_functions/embedding_handler.py:110-179 | the generator loop yields the documents the specification gives for the URI, or raises where the URI assert or split raises |
| EmbeddingCsv.RowDoc | src/lambda_functions/embedding_handler.py:166-179 | a yielded document has non-empty text and a rating, and no vector yet |
| EmbeddingCsv.RowDocDefaults | src/lambda_functions/embedding_handler.py:166-179 | a row is kept exactly when its stripped text is non-empty and its rating is empty or parses; the kept document has the stripped text, "" for an absent id, "NA" for an absent location and 0.0 for an empty rating |
| EmbeddingCsv.KeptDocsStripped | src/lambda_functions/embedding_handler.py:167-176 | every yielded document has non-empty stripped text and a rating, and no vector yet |
| EmbeddingCsv.ActionsRoundTrip | src/lambda_functions/embedding_handler.py:95-106 | there is one "index" action per document into the given index, keyed by its review_id, and reading back the sources gives the documents; no bulk call is made without documents |
| EmbeddingCsv.Calls | src/lambda_functions/embedding_handler.py:206-228 | at most one bulk call per upserted batch |
| EmbeddingCsv.Handler | src/lambda_functions/embedding_handler.py:184-240 | the handler's response is the specified outcome for the event and the services it calls |
| EmbeddingCsv.BadRequestIff | src/lambda_functions/embedding_handler.py:196-204 | the handler answers 400 exactly when the event has neither s3_csv_uri nor records |
| EmbeddingCsv.IngestedCountsActions | src/lambda_functions/embedding_handler.py:206-238 | a successful run reports as ingested exactly the number of actions it sent, in batches of BATCH except for a shorter last one |
| EmbeddingCsv.CallsOfBatches | src/lambda_functions/embedding_handler.py:206-228 | one bulk call per batch, of that batch's size |
| EmbeddingParquet.Scan | src/lambda/embedding_handler.py:87-96 | the generator never yields more documents than there are rows |
| EmbeddingParquet.IterParquetRows | src/lambda/embedding_handler.py:80-96 | the generator loop yields the specified documents, and stops with an exception exactly where the specification says |
| EmbeddingParquet.ScanStops | src/lambda/embedding_handler.py:87-96 | once a row raises, later rows change nothing: the stream ends there, incomplete |
| EmbeddingParquet.ScanDocsNotBlank | src/lambda/embedding_handler.py:88-95 | every yielded document has non-blank text, kept unstripped, and no vector yet |
| EmbeddingParquet.RowStep | src/lambda/embedding_handler.py:87-96 | a yielded row had the text and id columns and non-blank text, and has no vector yet; without the text column the row raises |
| EmbeddingParquet.RowDefaults | src/lambda/embedding_handler.py:88-94 | a yielded row needs the text and id columns; without a location column the location is "NA"; the rating is None exactly without the column or for a missing cell, and is the cell's number otherwise; a row is skipped exactly when its text is blank |
| EmbeddingParquet.Pairs | src/lambda/embedding_handler.py:73-76 | the bulk list has two lines per document |
| EmbeddingParquet.PairsLayout | src/lambda/embedding_handler.py:74-76 | line 2i is the index header whose _id is document i's review_id, and line 2i+1 is document i |
| EmbeddingParquet.BulkUpsert | src/lambda/embedding_handler.py:72-78 | the append loop and the join build the specified body |
| EmbeddingParquet.SplitJoinLines | src/lambda/embedding_handler.py:78 | joining newline-free lines, adding a final newline and splitting again gives the lines back |
| EmbeddingParquet.SplitLinesCons | src/lambda/embedding_handler.py:78 | a newline-free line followed by a newline splits off as the first line |
| EmbeddingParquet.BulkBodyLines | src/lambda/embedding_handler.py:72-78 | no body is posted exactly when there are no documents; otherwise the body ends with a newline and splits into the dumped header/document lines, two per document |
| EmbeddingParquet.Requests | src/lambda/embedding_handler.py:118-135 | at most one posted body per upserted batch |
| EmbeddingParquet.Handler | src/lambda/embedding_handler.py:98-137 | the handler's response is the specified outcome for the event and the services it calls |
| EmbeddingParquet.BadRequestIff | src/lambda/embedding_handler.py:109-115 | the handler answers 400 exactly when the event has neither s3_parquet_uri nor records |
| EmbeddingParquet.OneBodyPerBatch | src/lambda/embedding_handler.py:118-135 | a completed run posts one body per batch, and a run that raised posts one body per full batch only |
| EmbeddingParquet.RequestsOfBatches | src/lambda/embedding_handler.py:118-135 | every batch of a batching is non-empty, so each one is posted |
| Ingest.Host | src/rag/ingest_parquet_to_opensearch.py:44 | the host contains no "/" and is no longer than the endpoint |
| Ingest.HostOfBareHost | src/rag/ingest_parquet_to_opensearch.py:44 | an endpoint that is already a bare host is kept unchanged |
| Ingest.HostOfUrl | src/rag/ingest_parquet_to_opensearch.py:44 | for an "https://" or "http://" URL with an empty path or one starting at "/", the host comes back |
| Ingest.DropHttps | src/rag/ingest_parquet_to_opensearch.py:44 | removing "https://" from an https URL leaves the host and the cleaned path |
| Ingest.DropHttpsAfterHttp | src/rag/ingest_parquet_to_opensearch.py:44 | removing "https://" from an http URL leaves the scheme and host in place |
| Ingest.KeepHttp | src/rag/ingest_parquet_to_opensearch.py:44 | "http://" contains no "https://", so that removal passes over it |
| Ingest.HostAfterHttps | src/rag/ingest_parquet_to_opensearch.py:44 | once "https://" is gone, removing "http://" and cutting at "/" yields the host |
| Ingest.EmbedFrom | src/rag/ingest_parquet_to_opensearch.py:59-81 | the outcome of the attempts from a given one on (a vector, a re-raise or RuntimeError), characterised by EmbedFromOutcome and EmbedFromBounds |
| Ingest.EmbedOne | src/rag/ingest_parquet_to_opensearch.py:59-81 | the retry loop ends as the specified outcome, after at most RETRY_ATTEMPTS calls |
| Ingest.EmbedFromBounds | src/rag/ingest_parquet_to_opensearch.py:62-81 | from any attempt on, no more than RETRY_ATTEMPTS calls are made, and the deciding attempt is not before the start |
| Ingest.EmbedOneOutcome | src/rag/ingest_parquet_to_opensearch.py:59-81 | embed_one returns the vector of the first attempt that returns, after retried failures only; it re-raises at the first ClientError that is not throttling or server-side; it raises RuntimeError exactly when all five attempts fail and are retried |
| Ingest.EmbedFromOutcome | src/rag/ingest_parquet_to_opensearch.py:62-81 | the same outcome, stated from any starting attempt |
| Ingest.RowText | src/rag/ingest_parquet_to_opensearch.py:97 | the row's text is given exactly when its text cell is a string, and is that string |
| Ingest.RatingOf | src/rag/ingest_parquet_to_opensearch.py:104 | on a row of `iterrows()`, the rating is None exactly when the row has no rating entry, and a number only when the cell holds that number |
| Ingest.IterRow | src/rag/ingest_parquet_to_opensearch.py:96 | a row of `df.iterrows()` has an entry for every column of the frame and no other, holding the cell or missing |
| Ingest.IterRows | src/rag/ingest_parquet_to_opensearch.py:140 | one `iterrows()` row per frame row, in order |
| Ingest.IterRowRating | src/rag/ingest_parquet_to_opensearch.py:104 | the streamed rating is None exactly when the frame has no rating column, the cell's number when it holds one, and NaN for a missing or non-numeric cell of a rating column |
| Ingest.MetaOf | src/rag/ingest_parquet_to_opensearch.py:100-107 | the metadata every chunk of a row carries: the row's review_id, location, menu_item, sentiment and ts cells, and its rating (see RatingOf) |
| Ingest.ChunkActions | src/rag/ingest_parquet_to_opensearch.py:110-122 | one action per chunk |
| Ingest.ChunkActionsAppend | src/rag/ingest_parquet_to_opensearch.py:110-122 | the actions of two runs of chunks are the actions of each run, in order |
| Ingest.MakeActions | src/rag/ingest_parquet_to_opensearch.py:94-122 | the generator yields the specified actions and makes the specified embedding calls |
| Ingest.PrefixStep | src/rag/ingest_parquet_to_opensearch.py:96-122 | one more row appends that row's actions and embedding calls |
| Ingest.SliceActions | src/rag/ingest_parquet_to_opensearch.py:110-122 | the slice loop yields one action per chunk, in order, and embeds the chunks in consecutive slices of batch_chunks |
| Ingest.ZipBatch | src/rag/ingest_parquet_to_opensearch.py:113-122 | action j carries chunk j, vector j, the target index and the row's metadata |
| Ingest.RowActionsSpec | src/rag/ingest_parquet_to_opensearch.py:96-122 | a row's actions are one per chunk, each a non-empty chunk with its own vector, the index and the row's metadata; stitched at the overlap they give the whitespace-normalised text; there are none exactly when the text is blank |
| Ingest.RowActionFields | src/rag/ingest_parquet_to_opensearch.py:113-122 | every action of a row has the index, the row's metadata, the vector of its own chunk, and a non-empty chunk |
| Ingest.RowActionsStitch | src/rag/ingest_parquet_to_opensearch.py:97-98 | a row's chunk texts, stitched at the overlap, give its whitespace-normalised text |
| Ingest.ChunkTexts | src/rag/ingest_parquet_to_opensearch.py:119 | one chunk text per action |
| Ingest.ChunkTextsOf | src/rag/ingest_parquet_to_opensearch.py:113-119 | reading back the chunk texts of the actions gives the chunks |
| Ingest.ChunkTextsAppend | src/rag/ingest_parquet_to_opensearch.py:119 | chunk texts distribute over concatenation |
| Ingest.AllChunks | src/rag/ingest_parquet_to_opensearch.py:96-98 | one chunk list per row |
| Ingest.ActionsInOrder | src/rag/ingest_parquet_to_opensearch.py:94-122 | the generator yields exactly one action per chunk, rows in order and chunks in order within a row |
| Ingest.EmbedCallsInOrder | src/rag/ingest_parquet_to_opensearch.py:110-112 | the same chunks, in the same order, are embedded in slices of 1 to batch_chunks texts |
| Ingest.FlattenAppend | src/rag/ingest_parquet_to_opensearch.py:96-122 | laying out two runs of calls lays out each run in turn |
| Ingest.Main | src/rag/ingest_parquet_to_opensearch.py:133-140 | main raises KeyError, before streaming anything, exactly when the frame has no review_text column |
| Ingest.TextRows | src/rag/ingest_parquet_to_opensearch.py:133 | the filter keeps only input rows that have non-empty text, and never adds rows |
| Ingest.TextRowsKeep | src/rag/ingest_parquet_to_opensearch.py:133 | a row is kept exactly when it is an input row with non-empty text |
| Ingest.IngestedFromText | src/rag/ingest_parquet_to_opensearch.py:133-140 | every action streamed comes from a kept row: a non-empty chunk with its own vector, the index, and the metadata of that row as `iterrows()` gives it |
| Ingest.ActionsFromRows | src/rag/ingest_parquet_to_opensearch.py:94-122 | every action comes from an input row: a non-empty chunk with its own vector, the index, and that row's metadata |
| Query.Host | src/rag/test_query.py:32 | the host contains no "/" and is no longer than the endpoint |
| Query.HostOfBareHost | src/rag/test_query.py:32 | an endpoint that is already a bare host is kept unchanged |
| Query.HostOfUrl | src/rag/test_query.py:32 | for "https://" + host + a path that is empty or starts at "/", the host comes back |
| Query.Clauses | src/rag/test_query.py:74-79 | one clause per filter entry |
| Query.FilterClauses | src/rag/test_query.py:74-79 | the append loop builds the specified clauses |
| Query.ClausesAt | src/rag/test_query.py:75-79 | clause i filters on entry i's field, and is "terms" exactly when its value is a list, carrying the same values |
| Query.Body | src/rag/test_query.py:60-88 | the body asks for k results |
| Query.BodyShape | src/rag/test_query.py:60-88 | both shapes ask for k results with the same k-NN clause; the bare k-NN query is sent exactly when there are no filters or an empty dict; the bool query has one filter clause per entry and the k-NN query under must |
| Query.Spread | src/rag/test_query.py:93 | spreading the source keeps "score" as the first key |
| Query.FirstKeyKept | src/rag/test_query.py:93 | setting a key keeps the dict's first key |
| Query.ResultLookup | src/rag/test_query.py:93 | a result starts with "score"; each _source key maps to its source value (a source "score" overrides the hit's score), and otherwise "score" maps to _score |
| Query.SpreadLookup | src/rag/test_query.py:93 | after spreading, a key present in the source maps to its source value, and any other key keeps its old entry |
| Query.Search | src/rag/test_query.py:57-93 | search returns the mapped hits of the specified body, in order |
| Query.ResultsInOrder | src/rag/test_query.py:93 | result i comes from hit i, and its "score" is that hit's score |
| Ordering.StrLeTotal | src/etl/etl.py:371 | any two strings are comparable in Python's string order |
| Ordering.StrLeTrans | src/etl/etl.py:371 | Python's string order is transitive |
| Ordering.StrLeAntisym | src/etl/etl.py:371 | two strings ordered both ways are equal |
| Ordering.Insert | src/etl/etl.py:371 | inserting adds exactly one copy of the element |
| Ordering.InsertSorted | src/etl/etl.py:371 | inserting into a sorted list keeps it sorted |
| Ordering.InsertLowerBound | src/etl/etl.py:371 | a lower bound of the element and of the list bounds the result |
| Ordering.StrLeTotalPreorder | src/etl/etl.py:371 | the string order is a total preorder |
| Ordering.SortedUnique | src/etl/etl.py:371-373 | under an antisymmetric order, a multiset has exactly one sorted arrangement, so any sorting algorithm returns it |
| Ordering.SortedHeads | src/etl/etl.py:371-373 | two sorted arrangements of one non-empty multiset start with the same element |
| Ordering.MultisetTails | src/etl/etl.py:371-373 | removing a common first element from two arrangements of one multiset leaves equal multisets |
| Ordering.SortedTail | src/etl/etl.py:371 | the tail of a sorted list is sorted |
| Ordering.SortBy | src/etl/etl.py:364 | the sort's result is sorted, and is a permutation of the input |
| Ordering.InsertTies | src/etl/etl.py:364 | inserting an element changes the elements tying with any y only by that element, in front |
| Ordering.SortByStable | src/etl/etl.py:364 | the sort is stable: for every y, the elements tying with y keep their input order |
| Ordering.PairLeTotalPreorder | src/etl/etl.py:364 | ordering by two string keys is a total preorder |
| Ordering.TripleLeTotalPreorder | src/etl/etl.py:373 | ordering by column, source and value is a total preorder |
| Ordering.TripleLeAntisym | src/etl/etl.py:373 | the three-key order is antisymmetric, so sorting distinct triples leaves no ties |
| Transforms.DistinctByComponent | src/etl/etl.py:234-236 | rows that are distinct on one key column are distinct on any key containing it; review texts made unique by the text pass leave the composite-key pass, whose key includes review_text, nothing to drop |

## Left out

- `add_log_total_spent` (`src/etl/etl.py:195-200`): `log1p` is floating-point maths, and both output selections of `load_and_standardize` drop `log_total_spent` anyway.
- File reading: `read_table_any`, `pd.read_csv` with its type inference, `pq.read_table` and the CSV sniffer's I/O are outside the model. A raw file enters the model as a table of text or missing cells, and number and date parsing are the `Parsers` parameter.
- Text.Lower: ASCII letters only. Python's `str.lower` lowers every cased letter ("É" becomes "é") and can change the length ("İ" becomes two characters). A column name or a categorical value with a non-ASCII capital therefore normalises differently in the model, and an unmapped category falls back to a different value.
- Loader.RenameRow: when two raw columns normalise to the same name, the renamed row keeps the first of them, where pandas would keep both columns under one name. `Schema.RawNorm` keeps the last one, as the dict comprehension does.
- `summarize_final_dataset`, the `__main__` runners and `save_validation_report`: these only log, merge with restaurant metadata for printing, or write files.
- Logging, `print` debugging and the string formatting of percentages (`f"{val:.1%}"`) are left out. Shares are exact fractions.
- Validation.ValidateRestaurantInfo: when a review entry is named "restaurant_info", the source puts the processed frame itself into the report's `source` field. The model keeps that frame as `FrameLabel(processed)` and does not render it as text.
- Validation.IntegrityReport: `missingness_pct` and the per-restaurant `reviews_pct` are not computed. Both are formatted display values.
- Frames.ValueCounts: the bias summary lists each column's counts in first-appearance order. pandas' `value_counts` sorts them by count, descending, with ties in an unspecified order. The model keeps the same value-to-count pairs. The order matters in one case only: when two keys render alike, `safe_json_dict` keeps the last one (EtlCore.SafeJsonLookup). That needs a present value whose text is "NA" next to a missing value. The categorical step lower-cases each value and then maps it through tables whose results are all lower case, so a derived column never holds "NA".
- Validation.ByRestaurant: groups are sorted numbers first, then dates, then texts. This matches groupby for the text names the loader produces. A name column mixing kinds is ordered this way in the model, while pandas' order for mixed keys depends on its version.
- Validation.ValidateWithIntegrity: the run's `uuid4` identifier and its timestamp are left out, because they are randomness and a clock.
- EtlCore.HandleEtl: the S3 uploads of the processed parquet and the reports, and the JSON shape of the response body, are left out. A processed frame with a derived categorical column (`gender_norm`, say) but without its raw column makes validation raise KeyError, and `handle_etl` answers 500. The model gives that 500 as well, but it does not prove whether a loaded frame can reach that path. A raising `list_objects_v2` is modelled (`EtlCore.Listing`) and answers 500. The account id taken from the invocation context is left out, with the IndexError a malformed ARN would raise.
- `_ensure_index` in both embedding handlers and `_embed_batch`'s Bedrock request body are left out. The index is assumed to exist, and an embedding is a function parameter from texts to vectors.
- The `streaming_bulk` and `bulk` success and failure counts, retries and refresh behaviour are left out. The model records the actions sent, in order.
- Ingest.EmbedOne: the back-off sleeps and their random jitter are left out. The model keeps the attempt count and which attempt ends the loop.
- `embed_parallel`: the thread pool is left out. Its result, one vector per text in input order, is the `embed` parameter applied text by text in `Ingest.MakeActions`. An exception raised inside a worker is not propagated in the model.
- EmbeddingParquet.RowStep: `Frames.Value` has one `NA` for None and NaN, but `_iter_parquet_rows` tests `is not None` on the text and `math.isnan` on the rating. So a NaN text cell, which the source turns into the text "nan" and yields, is skipped by the model. A None rating cell, on which `math.isnan` raises TypeError in the source, gives a document with rating None in the model. Columns read from parquet hold None for missing strings and NaN for missing floats, so these cases need a float-typed text column or an object-typed rating column.
- EmbeddingParquet.RowDefaults: states the rating and text rules of RowStep, with the same merging of None and NaN.
- Ingest.RatingOf: a text or date cell in the rating column is read as NaN. Python's `float()` would parse a numeric string or raise. A None cell of an object-typed rating column gives None in the source, but the model reads every missing cell as NaN, because `Frames.Value` has one `NA` for None and NaN.
- Ingest.RowChunks: a text cell that is not a string gives no chunks. The source would raise on it, but `main` has already dropped such rows, because `.str.len()` is NaN for them.
- Ingest.MakeActions and Ingest.SliceActions require `batch_chunks > 0`. Python's `range` raises for a step of 0, and a negative step gives an empty range, so no actions and no error. The only caller, `main`, passes 64.
- Chunker.ChunkText requires `0 < target_chars` and `overlap < target_chars`. With `overlap >= target_chars` the window start never advances. A `target_chars` of 0 or less makes empty or negative-index slices, which the model does not describe. The only caller, `make_actions`, passes the defaults 1200 and 240.
- Query.Search: the `ef_search` argument and the connection settings are passed through to the `search` parameter and have no meaning in the model.
- Infrastructure code, deployment scripts, agent orchestration and the dashboards are outside the modelled core.
