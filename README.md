# Friendly Cotton Genomes Toolkit: a verified model of its data-handling core

The Friendly Cotton Genomes Toolkit converts gene identifiers between
cotton genome assemblies through a homology bridge. It also finds
overlapping regions in bulked-segregant analysis (BSA) results, reads and
writes FASTA and PHYLIP text, and guesses the assembly a gene list comes
from. Its GUI forms feed most of these pipelines.

This project models the deterministic logic behind those features in Dafny
and proves what that logic promises:
- A pandas `DataFrame` is a sequence of records, with one field per column.
- A Python `dict` is a list of key/value pairs in insertion order.
- A `str` is a `seq<char>`.
- Loops in the program are methods with loop invariants. Each method is
  proved equal to a specification function, and the properties are lemmas
  about those functions.
- Regular expressions on patterns supplied by genome sources, the system
  locale and a chat model's replies are function parameters.

| Dafny module (file) | models |
|---|---|
| `HomologyMapper` (homology_mapper.dfy) | `cotton_toolkit/core/homology_mapper.py`: ID slicing, threshold filtering, per-query top-N selection, exact-then-prefix ID resolution and the two-hop bridge join |
| `HomologySelfTest` (homology_selftest.dfy) | the `__main__` self-test data of `homology_mapper.py`, computed stage by stage |
| `LegacyPipeline` (legacy_pipeline.dfy) | `cotton_toolkit/pipelines.py`: header-row search, the direct bridge selection and the output-format dispatch |
| `HomologyPipeline` (homology_pipeline.dfy) | `cotton_toolkit/pipelines/homology.py`: region-ID normalisation, chunking, the identity, score and strict-subgenome filters, `.N` stripping and column reordering |
| `GeneUtils` (gene_utils.dfy) | `cotton_toolkit/utils/gene_utils.py`: `parse_gene_id` as a left-to-right scanner |
| `BsaAnalyzer` (bsa_analyzer.dfy) | `cotton_toolkit/tools/bsa_analyzer.py`: overlap detection, the per-row annotation, the fine-mapping labels and the driver's guard and Index column |
| `FaLoader` (fa_loader.dfy) | `cotton_toolkit/tools/fa_loader.py`: `parse_fasta_text` |
| `SequenceQuery` (sequence_query.dfy) | `cotton_toolkit/pipelines/sequence_query.py`: the FASTA parser and the 80-column writer |
| `DataAccess` (data_access.dfy) | `cotton_toolkit/core/data_access.py`: ID-variant resolution and FASTA assembly, with the database as a set of stored IDs and sequences |
| `SequenceEvolution` (sequence_evolution.dfy) | `cotton_toolkit/external_functions/sequence_evolution.py`: alignment validation, short IDs, PHYLIP and map-file text |
| `Phylogenetics` (phylogenetics.dfy) | `cotton_toolkit/pipelines/phylogenetics.py`: `get_alignment_statistics` |
| `ConvertFiles` (convert_files.dfy) | `cotton_toolkit/core/convertFiles2sqlite.py`: the annotation-line reader, the Excel header-row search and the header assignment |
| `GenomeIdentifier` (genome_identifier.dfy) | `ui/utils/gui_helpers.py`: `identify_genome_from_gene_ids` |
| `ConfigModels` (config_models.dfy) | `cotton_toolkit/config/models.py`: the dictionary-style accessors, `from_dict`, `to_dict`, the `MainConfig` cleaning and the criteria defaults |
| `ConfigOverrides` (config_overrides.dfy) | `cotton_toolkit/utils/config_overrides_utils.py`: overrides applied in place to a configuration object |
| `Compatibility` (compatibility.dfy) | `cotton_toolkit/config/compatibility_check.py` |
| `ConfigLoader` (config_loader.dfy) | `cotton_toolkit/config/loader.py`: the local download path and the file status |
| `Translator` (translator.dfy) | `cotton_toolkit/locales/translator.py`: interface language, reply clean-up, entry selection and update, and the output name |
| `GffQuery` (gff_query.dfy) | `ui/tabs/gff_query_tab.py`: the input checks and the gene-list and region parsing of `start_gff_query_task` |
| `EnrichmentInput` (enrichment_input.dfy) | `ui/tabs/enrichment_tab.py`: the gene and Log2FC line parsing and the checks of `start_enrichment_task` |
| `Wrappers`, `Numeric`, `PyDict`, `PyText`, `StrOrder`, `SeqUtil` | shared pieces: Option and Result; numeric cells with NaN as `to_numeric(errors='coerce')` leaves them; ordered dictionaries; Python string operations; Python's string ordering and `sorted(set(...))`; list filtering and counting |

ID resolution and the bridge join follow `cotton_toolkit/core/homology_mapper.py`
as written. An ID not found verbatim (lines 335-345) is expanded to every
source ID that starts with it, each noted `模糊匹配 on '<id>'`, and such
inputs are counted. The mapping is the inner join of the two hops without
duplicate rows; candidates are not ordered or merged beyond that.

## Model

| member | source | states |
|---|---|---|
| HomologyMapper.ApplyIdSlicer | cotton_toolkit/core/homology_mapper.py:25-35 | the result is a prefix of the ID; when a non-empty slicer occurs it is the text before its first occurrence (result plus slicer is a prefix, and the result holds no slicer); otherwise the ID is unchanged |
| HomologyMapper.Keep | cotton_toolkit/core/homology_mapper.py:188 | a boolean mask keeps exactly the rows that pass the test |
| HomologyMapper.KeepSub | cotton_toolkit/core/homology_mapper.py:188 | a mask keeps a sub-multiset of the rows, in order, never duplicating one |
| HomologyMapper.ApplyThresholds | cotton_toolkit/core/homology_mapper.py:183-208 | a row survives the three filters exactly when every threshold that is set and whose column exists holds for it (a non-numeric cell never passes) |
| HomologyMapper.PairFlags | cotton_toolkit/core/homology_mapper.py:215-240 | pairing the usable sort metrics with their flags succeeds exactly when every usable position has a flag; a failure names the first usable position past the end of `ascending` (the IndexError); the keys are the usable metrics in order |
| HomologyMapper.PairFlagsPairs | cotton_toolkit/core/homology_mapper.py:238-240 | each sort key pairs a usable metric with the flag at that metric's own position in the criteria |
| HomologyMapper.InsertRowPerm | cotton_toolkit/core/homology_mapper.py:250 | inserting a row into the sorted list adds exactly that row |
| HomologyMapper.InsertRowSorted | cotton_toolkit/core/homology_mapper.py:250 | inserting into a list sorted by the keys keeps it sorted |
| HomologyMapper.SortRowsPerm | cotton_toolkit/core/homology_mapper.py:245-250 | `sort_values` permutes the rows |
| HomologyMapper.SortRowsSorted | cotton_toolkit/core/homology_mapper.py:245-250 | after `sort_values` the rows are ordered lexicographically by the sort columns, each in its own direction |
| HomologyMapper.Head | cotton_toolkit/core/homology_mapper.py:246-251 | `head(n)` is a prefix of length min(n, size); a negative n drops the last -n rows; `None` keeps everything |
| HomologyMapper.PickAll | cotton_toolkit/core/homology_mapper.py:248-251 | there is one picked group per query ID, and group k is that query's sorted rows cut by `head` |
| HomologyMapper.SelectBestHomologs | cotton_toolkit/core/homology_mapper.py:165-259 | the step-by-step method (masks reassigning the frame, then the group loop) returns exactly `SelectBest` |
| HomologyMapper.SelectBest | cotton_toolkit/core/homology_mapper.py:165-259 | the reference definition of `select_best_homologs`: an empty frame selects nothing, and the only error is the sort raised once some candidate reaches it with a usable metric; its other properties are SelectBestEmpty, SelectBestWithoutSortColumns, SelectBestFails, SelectBestSubset, SelectBestTopN, SelectBestOrdered and SelectBestKeepsBest |
| HomologyMapper.PickPerQuery | cotton_toolkit/core/homology_mapper.py:248-257 | the loop over `groupby(query)` appends the groups in ascending query order and gives exactly `Rank` |
| HomologyMapper.SelectBestEmpty | cotton_toolkit/core/homology_mapper.py:165-167 | empty input, or nothing past the thresholds, yields an empty result (also lines 210-212) |
| HomologyMapper.SelectBestWithoutSortColumns | cotton_toolkit/core/homology_mapper.py:215-224 | with no usable sort metric, every row past the thresholds is returned and `top_n` is ignored |
| HomologyMapper.SelectBestFails | cotton_toolkit/core/homology_mapper.py:232-240 | the selection raises exactly when some row reaches the sort and a usable sort position has no ascending flag |
| HomologyMapper.SelectBestSubset | cotton_toolkit/core/homology_mapper.py:179-259 | every selected row is an input row, no row appears more often than in the input, and each satisfies every applicable threshold |
| HomologyMapper.SelectGroupsSubset | cotton_toolkit/core/homology_mapper.py:248-257 | the concatenated groups use each candidate row at most once |
| HomologyMapper.SelectGroupsRestrict | cotton_toolkit/core/homology_mapper.py:248-257 | restricted to one query ID, the grouped result is exactly that query's picked group |
| HomologyMapper.SelectBestTopN | cotton_toolkit/core/homology_mapper.py:248-251 | in the grouped case each query ID contributes at most `top_n` rows |
| HomologyMapper.SelectBestOrdered | cotton_toolkit/core/homology_mapper.py:238-251 | within one query ID the selected rows are sorted by the usable columns with their paired flags |
| HomologyMapper.SelectBestKeepsBest | cotton_toolkit/core/homology_mapper.py:248-251 | a candidate of the same query that sorts strictly before a kept row is kept too, so the rows kept are the best ones |
| HomologyMapper.SelectBestAllWhenUnlimited | cotton_toolkit/core/homology_mapper.py:251 | with `top_n` None every candidate row is returned |
| HomologyMapper.SliceQueries | cotton_toolkit/core/homology_mapper.py:319-321 | each query ID is cut by the slicer, in place, row for row |
| HomologyMapper.SliceHits | cotton_toolkit/core/homology_mapper.py:323-326 | each match ID is cut by the slicer, in place, row for row |
| HomologyMapper.SliceNone | cotton_toolkit/core/homology_mapper.py:319-326 | without a slicer the IDs are unchanged |
| HomologyMapper.ResolveSourceIds | cotton_toolkit/core/homology_mapper.py:329-345 | the resolution loop with its inner loop over the fuzzy matches computes exactly `Resolve` |
| HomologyMapper.NoteMatches | cotton_toolkit/core/homology_mapper.py:344-345 | the inner loop computes `NoteAll`: every fuzzy match ends with the note, and every other ID keeps the note it had |
| HomologyMapper.Resolve | cotton_toolkit/core/homology_mapper.py:329-345 | the reference resolution: the fuzzy count never exceeds the number of inputs, exactly the expanded IDs carry a note, and every expanded ID is an available source ID; ResolveExpanded, ResolveNotes and ResolveCount say which ones |
| HomologyMapper.ResolveExpanded | cotton_toolkit/core/homology_mapper.py:335-345 | an ID is expanded exactly when some input brings it in: the input itself when available, else an available ID it prefixes |
| HomologyMapper.ResolveNotes | cotton_toolkit/core/homology_mapper.py:336-345 | exactly the expanded IDs have a note, and it is the one written by the last input that brings the ID in ("direct" or "fuzzy on '<input>'") |
| HomologyMapper.ResolveCount | cotton_toolkit/core/homology_mapper.py:335-342 | over distinct inputs the fuzzy count is the number of inputs that are not available but prefix an available ID |
| HomologyMapper.JoinMembers | cotton_toolkit/core/homology_mapper.py:379-391 | the merge pairs every hop-1 row with every hop-2 row whose query is the hop-1 row's bridge ID, nothing else, with the source ID's note |
| HomologyMapper.MapGenesViaBridge | cotton_toolkit/core/homology_mapper.py:306-397 | the step-by-step method returns exactly `MapViaBridge` |
| HomologyMapper.MapViaBridge | cotton_toolkit/core/homology_mapper.py:306-397 | the reference mapping: no input IDs give no paths and count 0, and paths exist only when some input was resolved; MapViaBridgeCount, MapViaBridgePaths, MapViaBridgeDistinct and MapViaBridgeSources carry the rest |
| HomologyMapper.MapViaBridgeEmptyInput | cotton_toolkit/core/homology_mapper.py:306-310 | an empty input list maps to no paths with count 0 |
| HomologyMapper.MapViaBridgeCount | cotton_toolkit/core/homology_mapper.py:335-349 | on every path, early returns included, the count is the number of distinct inputs resolved only by prefix (also lines 360-362, 374-376) |
| HomologyMapper.MapViaBridgeResolves | cotton_toolkit/core/homology_mapper.py:347-397 | the count returned is the resolution loop's |
| HomologyMapper.Hop1Steps | cotton_toolkit/core/homology_mapper.py:347-362 | whenever the mapping succeeds the first selection succeeds, and it selects nothing when no source ID was expanded |
| HomologyMapper.Hop2Steps | cotton_toolkit/core/homology_mapper.py:364-376 | whenever the mapping succeeds the second selection succeeds, and it selects nothing after an empty first one |
| HomologyMapper.HopOfNothing | cotton_toolkit/core/homology_mapper.py:352-366 | a step whose query list is empty selects nothing |
| HomologyMapper.MapViaBridgePaths | cotton_toolkit/core/homology_mapper.py:347-397 | when the mapping succeeds, the paths are exactly the hop-1/hop-2 pairs on one bridge ID, noted by the source ID's note (the early returns are the empty cases) |
| HomologyMapper.MapViaBridgeDistinct | cotton_toolkit/core/homology_mapper.py:394 | no path is listed twice (`drop_duplicates`) |
| HomologyMapper.MapViaBridgeSources | cotton_toolkit/core/homology_mapper.py:316-397 | every path starts at a sliced source row of an expanded ID that passes the hop-1 thresholds, ends at a sliced bridge row that passes the hop-2 thresholds, links on the bridge ID, and carries the note of the last input that reached its source |
| HomologyMapper.HopRow | cotton_toolkit/core/homology_mapper.py:352-372 | a row one step selects is a row of that step's table, for a listed query ID, past the thresholds |
| HomologySelfTest.SelfTestResolve | cotton_toolkit/core/homology_mapper.py:445 | every self-test input that has hits is found verbatim, so each gets the direct note and the fuzzy count is 0 (also lines 333-345) |
| HomologySelfTest.PidDrop1 | cotton_toolkit/core/homology_mapper.py:427-434 | the PID threshold 60 drops the hit At_G103_low_score (PID 55) |
| HomologySelfTest.Group1 | cotton_toolkit/core/homology_mapper.py:427-434 | of CottonA_G001's hits, top-1 by score keeps At_G100 (score 500) (also lines 479) |
| HomologySelfTest.SelfTestHop1 | cotton_toolkit/core/homology_mapper.py:479-481 | step 1 keeps At_G100 for CottonA_G001 and CottonA_G002, and At_G102 for CottonA_G003 |
| HomologySelfTest.Bridge1 | cotton_toolkit/core/homology_mapper.py:435-442 | of At_G100's hits, top-1 by score keeps CottonB_g201 (score 700) (also lines 482) |
| HomologySelfTest.SelfTestHop2 | cotton_toolkit/core/homology_mapper.py:482-483 | step 2 keeps CottonB_g201 for At_G100 and CottonB_g204 for At_G102 |
| HomologySelfTest.SelfTestJoin | cotton_toolkit/core/homology_mapper.py:484-487 | the merge gives the three expected paths, in order |
| HomologySelfTest.SelfTest | cotton_toolkit/core/homology_mapper.py:449-491 | the self-test's expectation holds: exactly three paths, two ending in CottonB_g201 and one in CottonB_g204, with fuzzy count 0 |
| HomologySelfTest.CheckAsWritten | cotton_toolkit/core/homology_mapper.py:449-467 | the program's check binds the returned `(frame, count)` pair and asks for `.empty`, so it can neither confirm the expectation nor report that nothing was found |
| HomologySelfTest.SelfTestNeverConfirms | cotton_toolkit/core/homology_mapper.py:449-467 | on the self-test data the mapping succeeds, and the check as written stops at the missing attribute |
| HomologySelfTest.CheckIntended | cotton_toolkit/core/homology_mapper.py:467-494 | the check on the unpacked frame confirms exactly three rows reaching CottonB_g201 and CottonB_g204, and reports nothing found exactly for no rows |
| HomologySelfTest.SelfTestConfirms | cotton_toolkit/core/homology_mapper.py:449-494 | with the frame unpacked, the self-test data confirm the expectation |
| LegacyPipeline.LowerCells | cotton_toolkit/pipelines.py:53 | each cell is lower-cased, cell for cell, so no result cell holds an upper-case letter and lower-casing the result again changes nothing |
| LegacyPipeline.FindHeaderRow | cotton_toolkit/pipelines.py:51-56 | the result is the first of at most the first three rows whose space-joined lower-cased cells contain some lower-cased keyword, and None exactly when none of them does |
| LegacyPipeline.MentionsKeywordIgnoresCase | cotton_toolkit/pipelines.py:53-54 | the header test ignores the case of the cells and of the keywords |
| LegacyPipeline.KeywordSpansCells | cotton_toolkit/pipelines.py:53-54 | because the cells are joined with spaces, a keyword may span two cells |
| LegacyPipeline.NormaliseSearch | cotton_toolkit/pipelines.py:285-288 | the searched column (query or match by direction) is normalised row for row; nothing else changes (also lines 331-334) |
| LegacyPipeline.KeepSearchIn | cotton_toolkit/pipelines.py:291 | exactly the rows whose searched ID is a normalised input are kept (also lines 337) |
| LegacyPipeline.DirectThresholds | cotton_toolkit/pipelines.py:295-300 | a row survives the three masks exactly when every threshold that is set and whose column exists holds (also lines 341-346) |
| LegacyPipeline.ByScorePerm | cotton_toolkit/pipelines.py:302 | the score sort permutes the rows (also lines 348) |
| LegacyPipeline.ByScoreOrdered | cotton_toolkit/pipelines.py:302 | after the sort, scores descend and rows without a numeric score come last (also lines 348) |
| LegacyPipeline.TopPerKeyGroups | cotton_toolkit/pipelines.py:303 | `groupby(search_col).head(n)` keeps, for each searched ID, exactly its first n rows in order (also lines 349) |
| LegacyPipeline.TopPerKeySub | cotton_toolkit/pipelines.py:303 | `head` per key keeps a sub-multiset of the rows (also lines 349) |
| LegacyPipeline.TopPerKeyOrdered | cotton_toolkit/pipelines.py:303 | keeping the first rows of each key preserves the descending score order (also lines 349) |
| LegacyPipeline.FailedCount | cotton_toolkit/pipelines.py:306-307 | an input not found keeps all its occurrences among the failures; a found one keeps none (also lines 352-353) |
| LegacyPipeline.FailedAppend | cotton_toolkit/pipelines.py:307 | the failures follow the input order (also lines 353) |
| LegacyPipeline.DirectSelectFails | cotton_toolkit/pipelines.py:302 | the lookup fails (KeyError on `Score`) exactly when the table has no Score column (also lines 348) |
| LegacyPipeline.DirectCandidatesMembers | cotton_toolkit/pipelines.py:285-300 | a row reaches the sort exactly when it is a normalised input row whose searched ID is some input's normalised ID and it passes every threshold |
| LegacyPipeline.DirectSelectSound | cotton_toolkit/pipelines.py:285-307 | the mapped rows are a sub-multiset of the rows that reach the sort, ordered by score descending |
| LegacyPipeline.DirectSelect | cotton_toolkit/pipelines.py:285-307 | the lookup fails exactly without a Score column; the mapped rows are a sub-multiset of the rows that reach the sort, and every failure is an input ID |
| LegacyPipeline.DirectSelectUnlimited | cotton_toolkit/pipelines.py:302-303 | without a positive `top_n` every row that reaches the sort is mapped |
| LegacyPipeline.DirectSelectTopN | cotton_toolkit/pipelines.py:302-303 | with a positive `top_n` each searched ID keeps exactly its `top_n` best-scored rows (also lines 348-349) |
| LegacyPipeline.DirectSelectFailed | cotton_toolkit/pipelines.py:305-307 | the failures are the raw inputs, in order and with repeats, that are not the (normalised) source ID of a mapped row (also lines 351-353) |
| LegacyPipeline.DirectSelectReportsVariant | cotton_toolkit/pipelines.py:289-307 | an input mapped only after normalisation is still listed as failed, because the raw ID is compared with normalised IDs |
| LegacyPipeline.FailedNormalised | cotton_toolkit/pipelines.py:289-307 | the intended failure test: an input fails exactly when its normalised form is not among the found IDs |
| LegacyPipeline.DirectSelectIntended | cotton_toolkit/pipelines.py:289-307 | the lookup with the intended failure test fails exactly when the lookup does, and maps the same rows |
| LegacyPipeline.DirectSelectIntendedFailed | cotton_toolkit/pipelines.py:289-307 | as intended, an input is reported exactly when no mapped row carries its normalised ID (the same at lines 340-353) |
| LegacyPipeline.DirectSelectIntendedFindsVariant | cotton_toolkit/pipelines.py:289-307 | on the input the program reports as failed, the intended test reports nothing |
| LegacyPipeline.SaveMappingResults | cotton_toolkit/pipelines.py:83-137 | success needs a supported suffix; an unsupported suffix always fails; with `.csv` or `.xlsx` the save succeeds exactly when the write goes through |
| LegacyPipeline.OutputFormatIgnoresCase | cotton_toolkit/pipelines.py:83-112 | the suffix dispatch ignores the path's case |
| LegacyPipeline.OutputFormatUpperCsv | cotton_toolkit/pipelines.py:83-85 | `a.CSV` is written as CSV |
| LegacyPipeline.OutputFormatXlsx | cotton_toolkit/pipelines.py:112 | `a.xlsx` is written as XLSX |
| LegacyPipeline.OutputFormatXls | cotton_toolkit/pipelines.py:112-137 | `a.xls` is not supported |
| LegacyPipeline.OutputFormatInnerCsv | cotton_toolkit/pipelines.py:85 | only the final suffix counts: `a.csv.txt` is not supported (also lines 134-137) |
| HomologyPipeline.NormaliseRegionIds | cotton_toolkit/pipelines/homology.py:217-225 | the kept IDs are exactly the non-empty normalised region IDs; there are never more of them than raw IDs; NormaliseAppend and NormaliseOne fix order and repeats |
| HomologyPipeline.NormaliseAppend | cotton_toolkit/pipelines/homology.py:224-225 | the comprehension keeps order and repeats: the IDs of `a + b` are those of `a`, then those of `b` |
| HomologyPipeline.NormaliseOne | cotton_toolkit/pipelines/homology.py:224-225 | one raw ID gives its normalised form when that is a non-empty text, and nothing otherwise |
| HomologyPipeline.ChunkSize | cotton_toolkit/pipelines/homology.py:239-240 | the chunk size is at least 1 and, for positive worker counts, the ceiling of n over the workers (size times workers covers n, one less does not) |
| HomologyPipeline.Chunks | cotton_toolkit/pipelines/homology.py:241 | the chunks are non-empty, none is longer than the size, and concatenated they give back the ID list |
| HomologyPipeline.ChunkCount | cotton_toolkit/pipelines/homology.py:241 | there are ceil(n / size) chunks |
| HomologyPipeline.AtMostOneChunkPerWorker | cotton_toolkit/pipelines/homology.py:239-241 | with at least one worker there are never more chunks than workers |
| HomologyPipeline.PlanChunks | cotton_toolkit/pipelines/homology.py:230-241 | an empty gene list raises ValueError, zero workers divide by zero, and otherwise the chunks partition the list in order into at least one and at most max-workers chunks (for a positive worker count; a negative one is planned here, though the pool at line 246 refuses it) |
| HomologyPipeline.FilterHits | cotton_toolkit/pipelines/homology.py:278-296 | the filtered table is a sub-multiset of the hits, every kept hit passes the PID and score thresholds that apply, and in strict mode between two cotton genomes every kept hit has matching subgenome and chromosome |
| HomologyPipeline.FilterHitsSound | cotton_toolkit/pipelines/homology.py:278-296 | in the corrected stage (strict attribute declared), a hit is kept exactly when it passes the PID filter and the score filter where they apply, and, in strict mode between two cotton genomes, both IDs parse to the same subgenome and chromosome |
| HomologyPipeline.StrictFilterInactive | cotton_toolkit/pipelines/homology.py:285-289 | in the corrected stage, without strict mode or when either genome is not cotton, the strict filter changes nothing |
| HomologyPipeline.FilterStage | cotton_toolkit/pipelines/homology.py:269-296 | no hits give the empty table; with hits the stage raises the missing-attribute error exactly when the criteria lack `strict_subgenome_priority`; a table it returns is a sub-multiset of the hits, each passing the thresholds |
| HomologyPipeline.NoStrictField | cotton_toolkit/config/models.py:206-212 | `HomologySelectionCriteria` declares no `strict_subgenome_priority` field |
| HomologyPipeline.StrictNeverSet | cotton_toolkit/utils/config_overrides_utils.py:17-22 | whatever the overrides, the criteria object never gets the strict attribute, and a non-`None` strict value from the form is only warned about |
| HomologyPipeline.FilterStageRaises | cotton_toolkit/pipelines/homology.py:285 | as written, every run whose workers return a hit raises AttributeError on `criteria.strict_subgenome_priority` |
| HomologyPipeline.LocusConversionNeverProceeds | cotton_toolkit/pipelines/homology.py:337-359 | as written, the mapping the locus conversion receives is always `None` or empty, so it always takes its no-homologs return |
| HomologyPipeline.IntendedStrict | cotton_toolkit/config/models.py:206-212 | with the field declared as `False`, the attribute holds the last non-`None` strict value of the overrides, or `False` |
| HomologyPipeline.FilterStageIntended | cotton_toolkit/pipelines/homology.py:278-296 | with the field declared, the stage never raises and returns `FilterHits` of the hits, in strict mode exactly when the form's strict value is truthy |
| HomologyPipeline.StripVersion | cotton_toolkit/pipelines/homology.py:395-397 | removing the version suffix never lengthens the ID |
| HomologyPipeline.VersionSuffixIsLastDot | cotton_toolkit/pipelines/homology.py:396 | only the last `.` can start the `.<digits>` suffix |
| HomologyPipeline.StripVersionRemovesSuffix | cotton_toolkit/pipelines/homology.py:396 | an ID ending in `.<digits>` loses exactly that suffix |
| HomologyPipeline.StripVersionBeforeNewline | cotton_toolkit/pipelines/homology.py:396 | before a final newline the suffix is removed and the newline kept (`$` matches there) |
| HomologyPipeline.StripVersionKeepsPlainId | cotton_toolkit/pipelines/homology.py:396 | an ID without a trailing `.<digits>` is its own lookup key |
| HomologyPipeline.StripVersionNotIdempotent | cotton_toolkit/pipelines/homology.py:396 | the lookup key is not idempotent: `X.1.2` becomes `X.1`, which becomes `X` |
| HomologyPipeline.RemoveFirst | cotton_toolkit/pipelines/homology.py:431-437 | `list.remove` drops the first occurrence of the name and keeps every other column in its order |
| HomologyPipeline.PlaceAfterMoves | cotton_toolkit/pipelines/homology.py:430-434 | with distinct names and the ID column present, the move is a permutation that puts the loci column right after the ID column |
| HomologyPipeline.PlaceAfterDropsOrphan | cotton_toolkit/pipelines/homology.py:430-434 | a loci column whose ID column is absent is dropped from the output |
| HomologyPipeline.PlaceAfterKeeps | cotton_toolkit/pipelines/homology.py:430-434 | moving a loci column never adds a column, and every other column survives |
| HomologyPipeline.ReorderColumns | cotton_toolkit/pipelines/homology.py:429-442 | the final order adds no column and keeps every column other than the two loci columns; ReorderColumnsPermutes and PairSurvivesMove say where the loci columns go |
| HomologyPipeline.ReorderColumnsPermutes | cotton_toolkit/pipelines/homology.py:429-442 | with distinct names and all four columns present, the final order is a permutation with Query_Loci right after Query_ID and Hit_Loci right after Hit_ID |
| HomologyPipeline.PairSurvivesMove | cotton_toolkit/pipelines/homology.py:436-440 | moving the Hit columns keeps any other adjacent pair, such as Query_ID and Query_Loci, adjacent |
| BsaAnalyzer.PairOverlapsSymmetric | cotton_toolkit/tools/bsa_analyzer.py:42-47 | the strict overlap test (same chromosome, `start1 < end2 and end1 > start2`, positive length) is symmetric |
| BsaAnalyzer.ConditionWithoutLength | cotton_toolkit/tools/bsa_analyzer.py:42-47 | the interval condition alone does not give a positive length: a region with start > end can pass it, so the length check matters |
| BsaAnalyzer.FindOverlappingRegions | cotton_toolkit/tools/bsa_analyzer.py:20-59 | the nested i/j loops, after the column and numeric checks, return exactly `FindOverlaps` |
| BsaAnalyzer.FindOverlaps | cotton_toolkit/tools/bsa_analyzer.py:20-58 | the search succeeds exactly when the three required columns exist and both bounds are numeric in every row, and then gives the pair records `Overlaps`; a missing-column error names a required column that is absent; OverlapsExactlyOnce and OverlapsExtent say what the records are |
| BsaAnalyzer.FirstMissing | cotton_toolkit/tools/bsa_analyzer.py:21-24 | no column is reported exactly when every required column exists, and a reported one is required and absent |
| BsaAnalyzer.PairRecordsMembers | cotton_toolkit/tools/bsa_analyzer.py:39-58 | the inner loop for row i records exactly the overlapping pairs (i, k) with i < k |
| BsaAnalyzer.AllRecordsMembers | cotton_toolkit/tools/bsa_analyzer.py:38-58 | the outer loop records exactly the overlapping pairs a < b |
| BsaAnalyzer.OverlapsExactlyOnce | cotton_toolkit/tools/bsa_analyzer.py:34-58 | there is a record for rows i < j exactly when they overlap, each unordered pair is listed once, and the first index is the smaller |
| BsaAnalyzer.OverlapsExtent | cotton_toolkit/tools/bsa_analyzer.py:44-56 | each record names two rows of the sheet, its extent is [max start, min end) and its length is end - start > 0 |
| BsaAnalyzer.FindOverlapsErrors | cotton_toolkit/tools/bsa_analyzer.py:21-29 | the overlap search fails only on a missing column or a non-numeric bound, never as "already analysed" |
| BsaAnalyzer.AnnotateOverlaps | cotton_toolkit/tools/bsa_analyzer.py:64-94 | the annotation loop returns exactly `Annotate`, and the partner column is each row's `','.join(sorted(set(...)))` |
| BsaAnalyzer.AnnotateCount | cotton_toolkit/tools/bsa_analyzer.py:76-89 | `num_overlaps` counts the row's appearances in valid records, and `is_overlapping` holds exactly when it appears at all |
| BsaAnalyzer.AnnotateUntouched | cotton_toolkit/tools/bsa_analyzer.py:65-69 | a row no record mentions keeps False, 0, no partners and 0.0 |
| BsaAnalyzer.AnnotatePartners | cotton_toolkit/tools/bsa_analyzer.py:80-87 | the partner list of a row holds `str(p + 1)` exactly for the rows p a record pairs it with, and every entry is a 1-based row number |
| BsaAnalyzer.IsPartnerSymmetric | cotton_toolkit/tools/bsa_analyzer.py:77-89 | both rows of a record are annotated, so partnership is symmetric |
| BsaAnalyzer.AnnotateMaxLength | cotton_toolkit/tools/bsa_analyzer.py:69-89 | `max_overlap_length_with_partner` is at least 0 and every length of the row's records, and it is 0 or one of those lengths |
| BsaAnalyzer.PartnerTextSplits | cotton_toolkit/tools/bsa_analyzer.py:93 | the partner column splits back into the distinct entries in increasing order |
| BsaAnalyzer.PotentialIncomplete | cotton_toolkit/tools/bsa_analyzer.py:134-152 | a row is labelled "信息不全" exactly when one of its three values is -1, and that label is never suffixed |
| BsaAnalyzer.CompleteLabelRule | cotton_toolkit/tools/bsa_analyzer.py:137-150 | on complete rows the five labels are disjoint and cover every case; "ideal" is the inclusive length window plus the gene-count cap |
| BsaAnalyzer.PotentialSuffix | cotton_toolkit/tools/bsa_analyzer.py:151-152 | the overlap suffix is added exactly to complete rows that overlap another row |
| BsaAnalyzer.AssessFineMapping | cotton_toolkit/tools/bsa_analyzer.py:110-155 | one label per row, in order: each is the rule applied to the converted values (missing or non-numeric gives -1, and a missing flag column is False) |
| BsaAnalyzer.AnalyzeBsaGuard | cotton_toolkit/tools/bsa_analyzer.py:198-206 | the driver stops before any analysis exactly when some output column already exists |
| BsaAnalyzer.AnalyzeBsa | cotton_toolkit/tools/bsa_analyzer.py:160-264 | the driver saves a sheet exactly when no output column exists yet and the overlap search succeeds, the sheet has one row per input row, and the already-analysed error lists only output columns the sheet has; AnalyzeBsaIndex and AnalyzeBsaOverlaps say what the rows hold |
| BsaAnalyzer.AnalyzeBsaIndex | cotton_toolkit/tools/bsa_analyzer.py:110-124 | the saved sheet keeps every row in order behind an Index column numbered 1..n (lines 255-257), with chromosome and bounds as read and `Effective SNP`, `region.length` and `Gene Number` as the assessment converted them: truncated toward zero, -1 for a blank or non-numeric cell, -1 throughout for a missing column |
| BsaAnalyzer.SavedValueExamples | cotton_toolkit/tools/bsa_analyzer.py:116-124 | a saved cell of 12.7 becomes 12, -2.5 becomes -2, a blank cell -1 and a missing column -1 |
| BsaAnalyzer.OverlapsPartner | cotton_toolkit/tools/bsa_analyzer.py:34-89 | after the search, rows are partners exactly when one overlaps the other |
| BsaAnalyzer.AnnotatedFlag | cotton_toolkit/tools/bsa_analyzer.py:77 | a row is flagged exactly when it overlaps another row (also lines 84, 212-214) |
| BsaAnalyzer.AnnotatedPartnerText | cotton_toolkit/tools/bsa_analyzer.py:80-93 | a row's partner text lists, 1-based, exactly the rows that overlap it |
| BsaAnalyzer.AnalyzeBsaOverlaps | cotton_toolkit/tools/bsa_analyzer.py:210-257 | in the saved sheet `is_overlapping` holds exactly for the rows that overlap another row, and the partner column names exactly those rows, 1-based |
| FaLoader.ParseFastaText | cotton_toolkit/tools/fa_loader.py:12-37 | the line loop over the stripped, newline-split text returns exactly `ParseFasta` |
| FaLoader.StepBody | cotton_toolkit/tools/fa_loader.py:23-32 | a non-header line is collected, stripped, under an open header (a blank one is skipped) and ignored when no header is open |
| FaLoader.FoldBody | cotton_toolkit/tools/fa_loader.py:22-32 | after an open header the non-header lines are collected in order, blank ones skipped |
| FaLoader.ParseRecord | cotton_toolkit/tools/fa_loader.py:26-35 | a record appended to any lines stores its stripped key with the concatenation of its body lines, replacing an earlier record with the same key |
| FaLoader.ParseBareHeader | cotton_toolkit/tools/fa_loader.py:27-34 | a bare `>` record is dropped together with its sequence lines, because an empty header is falsy |
| FaLoader.ParsePreamble | cotton_toolkit/tools/fa_loader.py:31 | lines before the first header are ignored |
| FaLoader.ParseBlank | cotton_toolkit/tools/fa_loader.py:24-25 | a blank line anywhere changes nothing |
| FaLoader.ParseFastaShape | cotton_toolkit/tools/fa_loader.py:18-37 | the keys are distinct, non-empty and stripped, and no sequence contains a newline |
| FaLoader.ParseFasta | cotton_toolkit/tools/fa_loader.py:12-37 | the parsed dictionary has distinct keys, a later header replacing an earlier one; ParseFastaShape and ParseRecord say what the entries hold |
| SequenceQuery.ParseSequences | cotton_toolkit/pipelines/sequence_query.py:74-87 | the parse loop and the join loop return exactly `ParseText` |
| SequenceQuery.CollectParts | cotton_toolkit/pipelines/sequence_query.py:76-84 | the line loop builds the per-ID line lists of `Fold` (a header, even `>`, resets its ID's list) |
| SequenceQuery.JoinAll | cotton_toolkit/pipelines/sequence_query.py:86-87 | the second loop replaces every line list by its concatenation, keeping the key order |
| SequenceQuery.JoinParts | cotton_toolkit/pipelines/sequence_query.py:86-87 | the keys, and their order, are those of the line lists, so the parsed dictionary lists the IDs in the order of their first header; JoinUndoesChunking shows the join undoes the writer's 80-column chunking |
| SequenceQuery.JoinUndoesChunking | cotton_toolkit/pipelines/sequence_query.py:86-87 | joining the 80-column chunks of every sequence gives back the dictionary |
| SequenceQuery.ParseText | cotton_toolkit/pipelines/sequence_query.py:74-87 | an empty FASTA text gives the empty dictionary, and the parsed IDs are distinct; JoinParts and RoundTrip say what the entries hold |
| SequenceQuery.FoldUnique | cotton_toolkit/pipelines/sequence_query.py:76-84 | a header re-uses its ID's place, so the per-ID line lists keep distinct IDs |
| SequenceQuery.WriteRecord | cotton_toolkit/pipelines/sequence_query.py:98-101 | one record is written as its header line, then its 80-character chunks, each followed by a newline |
| SequenceQuery.WriteFasta | cotton_toolkit/pipelines/sequence_query.py:96-101 | the writing loop produces exactly `FastaText`, record by record in key order |
| SequenceQuery.FastaText | cotton_toolkit/pipelines/sequence_query.py:96-101 | an empty dictionary writes nothing; otherwise the text starts with the `>` of the first header and ends in a newline; RoundTrip reads it back |
| SequenceQuery.AllLinesFirst | cotton_toolkit/pipelines/sequence_query.py:98-99 | the first line written is the first record's header |
| SequenceQuery.LinesLast | cotton_toolkit/pipelines/sequence_query.py:99-101 | lines written each with its newline end in a newline and start with the first line's first character |
| SequenceQuery.ChunksAt | cotton_toolkit/pipelines/sequence_query.py:100-101 | chunk k is the slice at `start + 80 k`, and the last one reaches the end of the sequence |
| SequenceQuery.ChunksShape | cotton_toolkit/pipelines/sequence_query.py:100-101 | every chunk is non-empty and at most 80 characters; all but the last are exactly 80 |
| SequenceQuery.ChunksJoin | cotton_toolkit/pipelines/sequence_query.py:100-101 | the chunks concatenate to the sequence, and an empty sequence has none |
| SequenceQuery.RoundTrip | cotton_toolkit/pipelines/sequence_query.py:76-101 | parsing the written file gives back the dictionary whenever its IDs are distinct, non-empty, single-line and not space-ended and its sequences hold no whitespace and no `>` |
| SequenceQuery.Extraction | cotton_toolkit/pipelines/sequence_query.py:43-65 | the pipeline gives nothing (the raised error, turned into None by the `pipeline_task` wrapper) exactly when resolution is empty or no FASTA came back; otherwise it returns the parsed dictionary `ParseText(fasta)` exactly when there is no output path, and writes `FastaText` of that dictionary when there is one (also lines 89-105) |
| SequenceQuery.ExtractionWrittenReadsBack | cotton_toolkit/pipelines/sequence_query.py:89-105 | a written output file parses back to the dictionary the pipeline parsed, whenever its IDs and sequences are writable |
| DataAccess.VariantsOrder | cotton_toolkit/core/data_access.py:70 | the candidate DB IDs of a user ID are its transcript form, then its gene form, then the raw ID, each kept once |
| DataAccess.ExistingIds | cotton_toolkit/core/data_access.py:83-91 | the batched `IN` queries of 500 IDs each collect exactly the listed IDs that the table holds |
| DataAccess.FirstInEarliest | cotton_toolkit/core/data_access.py:103-107 | the first variant found has no found variant before it |
| DataAccess.FirstVariant | cotton_toolkit/core/data_access.py:102-107 | the inner loop leaves with the first variant found, or with none |
| DataAccess.ResolvedMap | cotton_toolkit/core/data_access.py:99-107 | exactly the user IDs with a variant in the table are resolved, each to its first such variant |
| DataAccess.NotFound | cotton_toolkit/core/data_access.py:100-109 | the missing list holds exactly the user IDs with no variant in the table |
| DataAccess.ResolveIds | cotton_toolkit/core/data_access.py:99-109 | the resolution loop builds exactly `ResolvedMap` and `NotFound` |
| DataAccess.EmitRecords | cotton_toolkit/core/data_access.py:138-146 | the emission loop writes one record per distinct written DB ID, in input order, skipping unresolved IDs and empty sequences |
| DataAccess.GetSequences | cotton_toolkit/core/data_access.py:40-41 | the whole lookup, loop by loop, returns exactly `Sequences` (also lines 65-149) |
| DataAccess.EmptyInput | cotton_toolkit/core/data_access.py:40-41 | an empty ID list gives an empty text and no missing IDs |
| DataAccess.PreferredIsFirst | cotton_toolkit/core/data_access.py:66-107 | the first variant found by the batched query is the first variant the table holds |
| DataAccess.Resolution | cotton_toolkit/core/data_access.py:98-109 | every input ID is resolved, to its transcript form, else its gene form, else itself, whichever the table holds first, or else it is listed as missing, and never both |
| DataAccess.NotFoundDistinct | cotton_toolkit/core/data_access.py:66 | the missing IDs are distinct and are exactly the inputs with no variant in the table (also lines 100-109) |
| DataAccess.CandidatesMembers | cotton_toolkit/core/data_access.py:140-146 | a DB ID is written exactly when it is some input's truthy resolution and has a truthy fetched sequence |
| DataAccess.FetchedIsTable | cotton_toolkit/core/data_access.py:118-130 | every resolved DB ID is a key of the table, so the fetch finds it |
| DataAccess.Emission | cotton_toolkit/core/data_access.py:117-149 | the FASTA text is one `>db_id` record per distinct written DB ID, in input order and joined by newlines; the written IDs are exactly the resolutions with a non-empty stored sequence |
| DataAccess.NothingResolved | cotton_toolkit/core/data_access.py:118-120 | when nothing resolves, the text is empty and every distinct input is missing, in order |
| DataAccess.NotFoundAll | cotton_toolkit/core/data_access.py:108-109 | when no user ID resolves, all of them are missing, in order |
| SequenceEvolution.FirstMismatch | cotton_toolkit/external_functions/sequence_evolution.py:82-84 | the first record from `from` on whose length differs from the first record's, with all records before it matching; none when they all match |
| SequenceEvolution.ValidateAlignment | cotton_toolkit/external_functions/sequence_evolution.py:77-91 | the check passes exactly when all records have the first one's length; the error names the first mismatching record, its length and the expected length |
| SequenceEvolution.ShortIdLength | cotton_toolkit/external_functions/sequence_evolution.py:148-149 | up to 999 records a short ID has at most 10 characters, so it fits a PHYLIP name |
| SequenceEvolution.ShortIdPrefix | cotton_toolkit/external_functions/sequence_evolution.py:148-149 | a short ID starts with the first six characters of the original ID, then `_` |
| SequenceEvolution.ShortIdDistinct | cotton_toolkit/external_functions/sequence_evolution.py:146-149 | records at different positions never share a short ID, whatever their original IDs |
| SequenceEvolution.IdPairsUnique | cotton_toolkit/external_functions/sequence_evolution.py:143-154 | the ID map has one entry per record and its keys are distinct, so no entry is overwritten |
| SequenceEvolution.CreateShortIds | cotton_toolkit/external_functions/sequence_evolution.py:140-157 | it fails exactly when the records differ in length; otherwise it returns the relabelled records (same order and sequences, short IDs, empty descriptions) and the map in record order |
| SequenceEvolution.IdMapBack | cotton_toolkit/external_functions/sequence_evolution.py:154 | every short ID maps back to the original ID of its record |
| SequenceEvolution.LJust | cotton_toolkit/external_functions/sequence_evolution.py:119 | `f"{s:<10}"` keeps the ID, pads it with spaces to the width, and never cuts it |
| SequenceEvolution.WritePhylip | cotton_toolkit/external_functions/sequence_evolution.py:109-120 | writing succeeds exactly when all records have one length, and then gives the count line followed by one line per record |
| SequenceEvolution.PhylipText | cotton_toolkit/external_functions/sequence_evolution.py:109-120 | the PHYLIP text starts with the space of the ` n length` header and ends in a newline; PhylipLineLayout gives each record line |
| SequenceEvolution.PhylipLineLayout | cotton_toolkit/external_functions/sequence_evolution.py:119 | for an ID of at most ten characters the ID and its padding fill columns 0-9, two spaces follow, the sequence starts at column 12 and the line ends in a newline |
| SequenceEvolution.WriteMapFile | cotton_toolkit/external_functions/sequence_evolution.py:123-126 | the loop writes exactly the header and one tab-separated line per map entry |
| SequenceEvolution.MapFileText | cotton_toolkit/external_functions/sequence_evolution.py:123-126 | the map file starts with its header line and ends in a newline; MapFileReadBack reads it back |
| SequenceEvolution.MapFileReadBack | cotton_toolkit/external_functions/sequence_evolution.py:124-126 | when no ID holds a tab or a newline, the map file splits back into the header and one line per entry, each splitting on the tab into its short and original ID |
| SequenceEvolution.ConvertToPhylip | cotton_toolkit/external_functions/sequence_evolution.py:94-128 | it succeeds exactly when the records have one length, and then gives the PHYLIP text and the map-file text |
| Phylogenetics.Band | cotton_toolkit/pipelines/phylogenetics.py:171-185 | the advice is "trim" exactly above 20 % gaps, "may trim" above 5 % up to 20 %, and "no need" otherwise (0 % when there are no characters) |
| Phylogenetics.NoEntries | cotton_toolkit/pipelines/phylogenetics.py:153-155 | the statistics stay all zero with no advice exactly when the stripped text has no `>`; otherwise there is advice |
| Phylogenetics.SequenceCount | cotton_toolkit/pipelines/phylogenetics.py:153-157 | the number of sequences is the number of `>` in the stripped text |
| Phylogenetics.StatsFields | cotton_toolkit/pipelines/phylogenetics.py:157-185 | the gaps are every `-` of the text, headers included; the characters are sequences times length; the length is the first entry's; the advice is the band of the gap percentage |
| Phylogenetics.AlignmentStats | cotton_toolkit/pipelines/phylogenetics.py:153-185 | the characters are sequences times length, there is advice exactly when there is a sequence, and with none every statistic is zero; Band and StatsFields give the values |
| Phylogenetics.EntryLength | cotton_toolkit/pipelines/phylogenetics.py:160-163 | the length of an entry is that of its sequence lines without the newlines |
| Phylogenetics.BandMonotone | cotton_toolkit/pipelines/phylogenetics.py:175-185 | more gaps among as many characters never weaken the advice |
| ConvertFiles.CollectRows | cotton_toolkit/core/convertFiles2sqlite.py:44-56 | the line loop, with its padding loop, collects exactly `RawRows`: one three-field row per data line |
| ConvertFiles.SegmentRows | cotton_toolkit/core/convertFiles2sqlite.py:68-72 | the rows of one exploded row, one per Match segment; what this means for the reader is carried by ExplodeCount (one row per segment), ExplodeOrigin (Query and Description copied from a collected row) and ExplodeNoPipeLeft (no separator left in a Match) |
| ConvertFiles.RawRowsAppend | cotton_toolkit/core/convertFiles2sqlite.py:44-56 | the rows of two line blocks are the rows of each in turn, so blank and `#` lines contribute nothing |
| ConvertFiles.NoDataLines | cotton_toolkit/core/convertFiles2sqlite.py:58-60 | a file with no data line gives the empty table |
| ConvertFiles.FieldsThree | cotton_toolkit/core/convertFiles2sqlite.py:45-50 | a line `query ws match ws description` splits into the two whitespace-free words and the rest, whose inner whitespace is kept |
| ConvertFiles.FieldsOne | cotton_toolkit/core/convertFiles2sqlite.py:50-56 | a line of one word has no Match and no Description |
| ConvertFiles.ExplodeNoPipe | cotton_toolkit/core/convertFiles2sqlite.py:65-72 | without a `\|` in any Match, exploding changes nothing beyond stripping, so the `any()` test could be dropped |
| ConvertFiles.ReadIsExplode | cotton_toolkit/core/convertFiles2sqlite.py:58-75 | the table the reader returns is the exploded table of the collected rows |
| ConvertFiles.ReadAnnotation | cotton_toolkit/core/convertFiles2sqlite.py:58-75 | the table has at least one row per collected row, and exactly one when no Match holds a `\|`; ExplodeCount and ExplodeOrigin say what the rows hold |
| ConvertFiles.ExplodeCount | cotton_toolkit/core/convertFiles2sqlite.py:68-69 | exploding gives one row per `\|`-segment of every Match |
| ConvertFiles.ExplodeNoPipeLeft | cotton_toolkit/core/convertFiles2sqlite.py:68-69 | no Match of the result holds a `\|` |
| ConvertFiles.ExplodeOrigin | cotton_toolkit/core/convertFiles2sqlite.py:68-72 | each result row copies the stripped Query and Description of a collected row |
| ConvertFiles.FindHeaderRowExcel | cotton_toolkit/core/convertFiles2sqlite.py:83-92 | the result is the first of the first five rows holding a cell equal, in lower case, to a lower-cased keyword, and None exactly when there is none |
| ConvertFiles.NotSubstring | cotton_toolkit/core/convertFiles2sqlite.py:87-88 | the test is cell equality, not containment: a keyword that is only part of a cell does not make a header row |
| ConvertFiles.HeaderFor | cotton_toolkit/core/convertFiles2sqlite.py:214-232 | there are at least three labels, the first three are Query, Match and Description, and extra columns keep their positions |
| ConvertFiles.PadRow | cotton_toolkit/core/convertFiles2sqlite.py:218-224 | a short row keeps its cells and gets `None` for each added column |
| ConvertFiles.HeaderAligned | cotton_toolkit/core/convertFiles2sqlite.py:214-232 | every cell keeps its column under the new labels |
| GenomeIdentifier.CheckedIds | ui/utils/gui_helpers.py:31-34 | the IDs kept are exactly the input IDs that are non-empty and do not start with `scaffold`, `unknown` or `chr` in any case |
| GenomeIdentifier.MatchCount | ui/utils/gui_helpers.py:52 | the count is at most the number of IDs, and zero exactly when the pattern matches none of them |
| GenomeIdentifier.Scores | ui/utils/gui_helpers.py:53-55 | every scored assembly has a positive match count |
| GenomeIdentifier.Best | ui/utils/gui_helpers.py:63-68 | the first entry of the descending sort carries the highest score, and no earlier entry ties with it |
| GenomeIdentifier.ScoreSources | ui/utils/gui_helpers.py:38-58 | the scoring loop builds the score table of the sources, skipping missing, empty and invalid patterns |
| GenomeIdentifier.IdentifyGenome | ui/utils/gui_helpers.py:28-101 | the whole identification: filter, score, pick the best, prefer UTX over JGI, apply the 50% threshold |
| GenomeIdentifier.Identify | ui/utils/gui_helpers.py:28-101 | no checked ID or no source gives no answer; an answer counts all checked IDs with more than half matching, and an ambiguous one is UTX |
| GenomeIdentifier.ScoresFrom | ui/utils/gui_helpers.py:44-55 | each score entry comes from a source whose usable pattern matches that many checked IDs |
| GenomeIdentifier.ScoresComplete | ui/utils/gui_helpers.py:44-55 | every source with a usable pattern that matches some checked ID is scored |
| GenomeIdentifier.NothingToCheck | ui/utils/gui_helpers.py:28-37 | no IDs, no sources, or no ID surviving the filter gives no answer |
| GenomeIdentifier.NoneChecked | ui/utils/gui_helpers.py:31-34 | when every ID is filtered out, nothing is left to check |
| GenomeIdentifier.Answer | ui/utils/gui_helpers.py:59-98 | an answer has more than half of the checked IDs matching the best source's pattern, no usable pattern matches more, and the answer is switched to UTX (with a warning) exactly when the best is JGI and UTX's pattern matches some ID |
| ConfigModels.Names | cotton_toolkit/config/models.py:46 | a schema's field names, in declaration order, as `fields(cls)` lists them; FromDictFields shows `from_dict` builds exactly these attributes in this order |
| ConfigModels.InstanceData | cotton_toolkit/config/models.py:45-100 | the first `n` entries of `instance_data` are keyed by the first `n` field names, in order |
| ConfigModels.ConvertEntries | cotton_toolkit/config/models.py:77-86 | converting a `Dict[str, dataclass]` field keeps every key, in order |
| ConfigModels.ConvertItems | cotton_toolkit/config/models.py:88-97 | converting a `List[dataclass]` field keeps the list's length |
| ConfigModels.FromDictLoop | cotton_toolkit/config/models.py:40-101 | the field loop of `from_dict` builds the instance that `FromDict` describes |
| ConfigModels.FromDictFields | cotton_toolkit/config/models.py:40-101 | the instance has exactly the schema's fields, in order, each with the value its rule gives |
| ConfigModels.FromDict | cotton_toolkit/config/models.py:40-101 | `from_dict` builds an instance with one attribute per schema field, named as the field, in declaration order |
| ConfigModels.FieldsUpTo | cotton_toolkit/config/models.py:46-100 | each of the first `n` fields gets its value by the field rule applied to `data.get(name)` |
| ConfigModels.MissingTakesDefault | cotton_toolkit/config/models.py:51-60 | a missing or `None` value takes the field's default, its factory's value or `None` |
| ConfigModels.PlainVerbatim | cotton_toolkit/config/models.py:98-100 | a given value of a plain field is used unchanged |
| ConfigModels.ExtraKeysIgnored | cotton_toolkit/config/models.py:46-48 | keys that are not field names do not affect the result |
| ConfigModels.AgreeUpTo | cotton_toolkit/config/models.py:46-48 | two inputs that agree on every field name build the same first `n` fields |
| ConfigModels.EmptyInput | cotton_toolkit/config/models.py:51-60 | building from an empty dictionary gives every field its default |
| ConfigModels.NestedFromDict | cotton_toolkit/config/models.py:63-65 | a dictionary given for a nested dataclass field is built with that class's `from_dict` |
| ConfigModels.GetItem | cotton_toolkit/config/models.py:15-17 | `obj[key]` fails with `KeyError(key)` exactly when the attribute is missing, and otherwise returns its value |
| ConfigModels.GetOr | cotton_toolkit/config/models.py:12-13 | `get` returns the attribute when present and the default otherwise |
| ConfigModels.SetDefault | cotton_toolkit/config/models.py:26-30 | `setdefault` leaves a present attribute alone and returns it, and otherwise adds the default and returns it |
| ConfigModels.SetDefaultThenGet | cotton_toolkit/config/models.py:26-30 | after `setdefault` the key reads back its value, and a second `setdefault` changes nothing |
| ConfigModels.Items | cotton_toolkit/config/models.py:22-24 | `items` yields exactly the attributes that are init fields |
| ConfigModels.AsDict | cotton_toolkit/config/models.py:34 | `asdict` of an instance or dictionary is a dictionary with the same keys |
| ConfigModels.AsDictEntries | cotton_toolkit/config/models.py:34 | converting the first `m` entries keeps their keys |
| ConfigModels.AsDictItems | cotton_toolkit/config/models.py:34 | converting a list keeps its length |
| ConfigModels.Pop | cotton_toolkit/config/models.py:36 | `pop(key, None)` removes the key and keeps every other entry |
| ConfigModels.ToDict | cotton_toolkit/config/models.py:32-37 | `to_dict` never holds the internal `_config_file_abs_path_` key |
| ConfigModels.CleanEntry | cotton_toolkit/config/models.py:266-281 | one entry gives at most one cleaned entry, under the same key |
| ConfigModels.CleanItems | cotton_toolkit/config/models.py:272 | cleaning a list keeps its length |
| ConfigModels.CleanDict | cotton_toolkit/config/models.py:262-282 | the loop of `_clean_dict_recursively` computes `Clean` |
| ConfigModels.Clean | cotton_toolkit/config/models.py:262-282 | cleaning never adds an entry, and an empty dictionary stays empty; CleanShape and CleanKeepsScalar say what is kept |
| ConfigModels.CleanPrefixShape | cotton_toolkit/config/models.py:266-281 | every entry kept from the first `n` holds a cleaned value under one of their keys |
| ConfigModels.CleanShape | cotton_toolkit/config/models.py:262-282 | no kept value is `None`, empty text, an API key placeholder, an empty dictionary or an empty list, and every kept key is an input key |
| ConfigModels.CleanScalar | cotton_toolkit/config/models.py:276-281 | a scalar entry is kept exactly when it is not `None`, not empty and not a placeholder |
| ConfigModels.CleanPrefixSplit | cotton_toolkit/config/models.py:266 | an entry kept at position `i` stays in the result of every longer prefix |
| ConfigModels.CleanKeepsScalar | cotton_toolkit/config/models.py:276-281 | a kept scalar entry appears unchanged in the cleaned dictionary |
| ConfigModels.MainToDictShape | cotton_toolkit/config/models.py:257-290 | `MainConfig.to_dict` has no internal path key, and a present `ai_services` section always holds `providers` |
| ConfigModels.MainToDict | cotton_toolkit/config/models.py:257-290 | `MainConfig.to_dict` has the keys of the cleaned dictionary in the same order, and every entry other than `ai_services` is the cleaned entry unchanged |
| ConfigModels.PutProviders | cotton_toolkit/config/models.py:287-288 | adding an empty `providers` keeps the internal key out and leaves `providers` in the section |
| ConfigModels.CleanUnique | cotton_toolkit/config/models.py:265-281 | cleaning a dictionary with distinct keys gives distinct keys |
| ConfigModels.CleanUniqueUpTo | cotton_toolkit/config/models.py:265-281 | cleaning the first `n` entries keeps the keys distinct |
| ConfigModels.CriteriaDefaults | cotton_toolkit/config/models.py:205-213 | an empty dictionary builds the default criteria: sort by Score then Exp, descending then ascending, top 1, thresholds 1e-10, 30 and 50 |
| ConfigModels.PipelineCriteriaDefaults | cotton_toolkit/config/models.py:234-237 | the bridge-to-target criteria default to thresholds 1e-15, 40 and 80, and a partial dictionary with only `top_n` gets the class defaults, not the field's factory |
| ConfigOverrides.Applied | cotton_toolkit/utils/config_overrides_utils.py:17-20 | applying overrides never adds or removes an attribute |
| ConfigOverrides.Unknown | cotton_toolkit/utils/config_overrides_utils.py:21-22 | a warning is only logged for a key the object does not have |
| ConfigOverrides.LastSet | cotton_toolkit/utils/config_overrides_utils.py:17-18 | the value that last sets a key is a non-`None` value given for it |
| ConfigOverrides.ConfigObject.UpdateFromOverrides | cotton_toolkit/utils/config_overrides_utils.py:14-22 | the object's attributes become `Applied` of the old ones and the warnings grow by `Unknown`, in order |
| ConfigOverrides.NoOverrides | cotton_toolkit/utils/config_overrides_utils.py:15-16 | `None` or an empty dictionary changes nothing and logs nothing |
| ConfigOverrides.AppliedAt | cotton_toolkit/utils/config_overrides_utils.py:17-20 | each attribute ends with the last non-`None` value given for it, or keeps its old value |
| ConfigOverrides.LastSetUnique | cotton_toolkit/utils/config_overrides_utils.py:17-18 | with distinct keys, the value set is the one given, unless it is `None` |
| ConfigOverrides.Idempotent | cotton_toolkit/utils/config_overrides_utils.py:14-22 | applying the same overrides twice is applying them once |
| ConfigOverrides.UnknownExactly | cotton_toolkit/utils/config_overrides_utils.py:17-22 | a key is warned about exactly when the object lacks it and some non-`None` value is given for it |
| Compatibility.IntToString | cotton_toolkit/config/compatibility_check.py:90 | the decimal text of a version is never empty |
| Compatibility.Format | cotton_toolkit/config/compatibility_check.py:90 | `str.format` fails only on a placeholder whose name has no argument, and names it |
| Compatibility.FormatField | cotton_toolkit/config/compatibility_check.py:90 | a text piece then a placeholder format as the text, then the argument's value, then the rest |
| Compatibility.FormatText | cotton_toolkit/config/compatibility_check.py:90 | a template without placeholders formats as itself |
| Compatibility.FormatOne | cotton_toolkit/config/compatibility_check.py:90 | a template with one placeholder substitutes its argument |
| Compatibility.FormatTwo | cotton_toolkit/config/compatibility_check.py:90 | a template with two placeholders substitutes both arguments in place |
| Compatibility.Language | cotton_toolkit/config/compatibility_check.py:86 | the language used is always one the message table has, and a supported request is used as given |
| Compatibility.LevelOf | cotton_toolkit/config/compatibility_check.py:67-79 | the level is error exactly below version 2, warning exactly above it and info exactly at it |
| Compatibility.KeyFollowsLevel | cotton_toolkit/config/compatibility_check.py:70-79 | the message key is `compatible`, `incompatible_old` or `incompatible_new` exactly for an equal, older or newer version |
| Compatibility.Fallback | cotton_toolkit/config/compatibility_check.py:86 | an unsupported language gives exactly the English result |
| Compatibility.Texts | cotton_toolkit/config/compatibility_check.py:13-47 | formatting never fails: the result has the version's level and the table's message with the versions filled in (also lines 67-101) |
| Compatibility.LoggedLine | cotton_toolkit/config/compatibility_check.py:93 | the logged text is the message with each line break replaced by a space, and no other change |
| Compatibility.CheckCompatibility | cotton_toolkit/config/compatibility_check.py:52-101 | a report is an error exactly below the latest version and a warning exactly above it, and its logged line has no line break and the message's length |
| ConfigLoader.Sanitize | cotton_toolkit/config/loader.py:50 | each forbidden character (the regex class, then the space) becomes `_`, every other character stays, and the length is kept |
| ConfigLoader.VersionDir | cotton_toolkit/config/loader.py:48-50 | the version directory is never empty: `version_id`, else the sanitized species name, else `unknown_genome` |
| ConfigLoader.Basename | cotton_toolkit/config/loader.py:45 | `os.path.basename` is the slash-free suffix after the last `/` |
| ConfigLoader.JoinPath | cotton_toolkit/config/loader.py:52-54 | `os.path.join` of two texts, not both empty, is not empty |
| ConfigLoader.Status | cotton_toolkit/config/loader.py:165-177 | `not_applicable` exactly without a path, `complete` exactly when the path exists with a positive size, `incomplete` exactly at size zero, `missing` exactly when it does not exist |
| ConfigLoader.PathExists | cotton_toolkit/config/loader.py:38-43 | there is a path exactly when the `<file_key>_url` attribute exists and is a non-empty text |
| ConfigLoader.BasenameOfJoin | cotton_toolkit/config/loader.py:45-54 | joining a slash-free file name onto a directory keeps it as the basename |
| ConfigLoader.BasenameAfterSlash | cotton_toolkit/config/loader.py:45 | whatever follows the last `/` is the basename |
| ConfigLoader.PathShape | cotton_toolkit/config/loader.py:45-54 | the path is the URL's file name inside the version directory inside the download directory, and its basename is the URL's |
| ConfigLoader.SanitizedClean | cotton_toolkit/config/loader.py:50 | a sanitized name keeps its length, holds no forbidden character and keeps every allowed one |
| ConfigLoader.SanitizeIdempotent | cotton_toolkit/config/loader.py:50 | sanitizing twice is sanitizing once |
| ConfigLoader.NotApplicableMeansNoUrl | cotton_toolkit/config/loader.py:38-43 | `not_applicable` exactly when the URL attribute is missing, `None` or empty (also lines 168-169) |
| Translator.DetectUiLanguage | cotton_toolkit/locales/translator.py:156-175 | the result always has a string table; `zh-TW` exactly for a Chinese locale naming Taiwan, Hong Kong or Macau but neither China nor Singapore, `zh-CN` for every other Chinese locale, `ja` for a Japanese one, `en` when the locale is unknown, the query raised or the language is another |
| Translator.UiLanguage | cotton_toolkit/locales/translator.py:244-247 | without `--ui-lang` the detected language is used; otherwise the word after the first `--ui-lang`; an `IndexError` exactly when the only `--ui-lang` is the last argument |
| Translator.IndexOfWord | cotton_toolkit/locales/translator.py:246 | `sys.argv.index('--ui-lang')`: the first position holding the word, or the length when there is none |
| Translator.StringTable | cotton_toolkit/locales/translator.py:247 | the table used always exists, and is the requested one exactly when that one exists |
| Translator.DetectedHasTable | cotton_toolkit/locales/translator.py:156-175 | a detected language never falls back to English's table (also lines 247) |
| Translator.StripQuotes | cotton_toolkit/locales/translator.py:197-198 | a reply starting and ending with a quote loses both ends (a lone quote becomes empty); any other reply is kept |
| Translator.QuotedReply | cotton_toolkit/locales/translator.py:197-198 | a reply wrapped in any two quotes comes back as what they wrap |
| Translator.TranslateText | cotton_toolkit/locales/translator.py:185-199 | a blank text is answered with the empty text without a request; otherwise the answer is the stripped reply without its quotes |
| Translator.ToTranslate | cotton_toolkit/locales/translator.py:291 | the entries sent are never more than the catalogue's |
| Translator.SelectedExactly | cotton_toolkit/locales/translator.py:291 | an entry is sent exactly when it is in the catalogue, not translated and not obsolete |
| Translator.Translated | cotton_toolkit/locales/translator.py:291 | an entry counted as translated is not obsolete and has a singular or plural translation |
| Translator.Results | cotton_toolkit/locales/translator.py:208-210 | every result is keyed by a non-empty `msgid` and holds a non-empty translation |
| Translator.HasIdSnoc | cotton_toolkit/locales/translator.py:233 | an id is among the entries exactly when it is among all but the last or is the last one's |
| Translator.ResultsExactly | cotton_toolkit/locales/translator.py:203-237 | a result exists for an id exactly when some sent entry has it as a non-empty `msgid` and its cleaned reply is not empty |
| Translator.ResultsValue | cotton_toolkit/locales/translator.py:208-210 | each result is the cleaned reply for its `msgid` |
| Translator.RemoveFirst | cotton_toolkit/locales/translator.py:309-310 | `list.remove` drops exactly one occurrence, the first, and keeps the other flags in order |
| Translator.RemoveFirstOrder | cotton_toolkit/locales/translator.py:309-310 | the flag dropped is the first `fuzzy`, and what remains is the flags before it followed by those after it |
| Translator.CountUpdated | cotton_toolkit/locales/translator.py:305-311 | the count of updated entries is at most the catalogue's length |
| Translator.CountStep | cotton_toolkit/locales/translator.py:307-311 | each entry adds one to the count exactly when its `msgid` has a result |
| Translator.UpdateEntries | cotton_toolkit/locales/translator.py:305-311 | the loop updates every entry in place by `Updated` and returns the number of entries with a result |
| Translator.UpdatedEntry | cotton_toolkit/locales/translator.py:307-310 | an updated entry takes its result and loses one `fuzzy` flag; when the result is not empty and the entry is live with at most one `fuzzy`, it is then translated |
| Translator.NotUpdated | cotton_toolkit/locales/translator.py:307 | an entry without a result is unchanged |
| Translator.Updated | cotton_toolkit/locales/translator.py:305-311 | an updated entry keeps its `msgid`, plural forms and obsolete mark; with a result it takes that translation and loses exactly one flag if it had `fuzzy`; without one it is unchanged |
| Translator.UpdatedAll | cotton_toolkit/locales/translator.py:304-311 | the copy holds each entry of the original, updated, in the same order |
| Translator.LastIndexOf | cotton_toolkit/locales/translator.py:314 | the index of the last occurrence of a character, or -1 |
| Translator.SplitExtParts | cotton_toolkit/locales/translator.py:314 | `os.path.splitext` splits the path into two parts that make it up, the extension empty or one dot followed by neither a dot nor a slash |
| Translator.SplitExt | cotton_toolkit/locales/translator.py:314 | the two parts make up the path, and the extension is empty or starts with `.` |
| Translator.LanguageCode | cotton_toolkit/locales/translator.py:312 | the code is a non-empty, lower-case word without whitespace, and the call fails exactly for a blank language |
| Translator.CodeWord | cotton_toolkit/locales/translator.py:312 | the lower-cased first word is a non-empty, lower-case word without whitespace |
| Translator.StripBlank | cotton_toolkit/locales/translator.py:312 | a text with no first word is blank |
| Translator.StripNotBlank | cotton_toolkit/locales/translator.py:312 | a text with a first word is not blank |
| Translator.OutputBeside | cotton_toolkit/locales/translator.py:314-315 | the output is the catalogue's name with `.` and the code inserted before the extension, so never the catalogue itself |
| Translator.ProcessLanguage | cotton_toolkit/locales/translator.py:298-320 | no results skip the language, a blank language crashes, and otherwise the saved copy holds the updated entries, their count, the language code and the output name |
| GffQuery.UnderscoresRemoved | ui/tabs/gff_query_tab.py:165 | removing the underscores from a run of digits and underscores leaves only digits |
| GffQuery.RemoveAbsent | ui/tabs/gff_query_tab.py:165 | removing a character a text does not hold leaves it unchanged |
| GffQuery.ParseIntOfNat | ui/tabs/gff_query_tab.py:165 | `int()` reads the decimal text of every natural number back as that number |
| GffQuery.ParseInt | ui/tabs/gff_query_tab.py:165 | `int()` succeeds only on a non-blank text, and a negative value needs a leading `-`; ParseIntOfNat reads back every natural number |
| GffQuery.ParseRegion | ui/tabs/gff_query_tab.py:163-166 | a parsed region has non-negative start and end, since the `-` split has taken every minus sign |
| GffQuery.NoSign | ui/tabs/gff_query_tab.py:165 | a piece without `-` never reads as a negative number |
| GffQuery.NonBlank | ui/tabs/gff_query_tab.py:159-160 | every kept line is non-empty and already stripped |
| GffQuery.GeneIds | ui/tabs/gff_query_tab.py:159-160 | every gene ID is non-empty and already stripped |
| GffQuery.NeitherInput | ui/tabs/gff_query_tab.py:147-154 | with a configuration loaded, the missing-input error comes exactly when there is neither a real gene list nor a real region |
| GffQuery.BothInputs | ui/tabs/gff_query_tab.py:155-162 | with both, the conflict warning is shown and a started query uses the gene list and no region |
| GffQuery.StartedQuery | ui/tabs/gff_query_tab.py:138-176 | a started query has either genes or a region, never both; a usable assembly; the parsed gene list or region of the form |
| GffQuery.StartGffQuery | ui/tabs/gff_query_tab.py:138-176 | the no-configuration error comes exactly when none is loaded; the conflict warning exactly when, with a configuration, both genes and a region are given; a started query uses the form's assembly and has genes exactly when the form gives them |
| GffQuery.BadRegionRefused | ui/tabs/gff_query_tab.py:162-169 | a region alone that does not parse stops the query with the format error |
| GffQuery.DigitsWithout | ui/tabs/gff_query_tab.py:164-165 | a text of digits holds no separator |
| GffQuery.SplitPair | ui/tabs/gff_query_tab.py:164-165 | two separator-free pieces joined by one separator split back into those two |
| GffQuery.RegionPieces | ui/tabs/gff_query_tab.py:164-165 | `chrom:start-end` splits at `:` into the chromosome and the range, and the range at `-` into the two numbers |
| GffQuery.RegionRoundTrip | ui/tabs/gff_query_tab.py:163-166 | writing `chrom:start-end` for a colon-free chromosome and any two natural numbers, a start above the end included, parses back to the stripped chromosome and those numbers |
| GffQuery.GeneIdShape | ui/tabs/gff_query_tab.py:159-160 | no gene ID holds a comma or a line break |
| GffQuery.LinesWithout | ui/tabs/gff_query_tab.py:159 | `splitlines` never puts into a line a character the text does not hold |
| GffQuery.NonBlankWithout | ui/tabs/gff_query_tab.py:159-160 | keeping the stripped non-blank lines adds no comma and no line break |
| GffQuery.StripClean | ui/tabs/gff_query_tab.py:159 | stripping a line adds no comma and no line break |
| GffQuery.StripKeeps | ui/tabs/gff_query_tab.py:144-145 | every character of a stripped text comes from the text |
| GffQuery.StripWithoutAny | ui/tabs/gff_query_tab.py:144-145 | stripping adds no character |
| GeneUtils.FirstMarker | cotton_toolkit/utils/gene_utils.py:25 | `re.search` scans left to right: the result is the first match position from `from`, or -1 when there is none |
| GeneUtils.ParseGeneId | cotton_toolkit/utils/gene_utils.py:18-39 | a location exists exactly when some position matches `[_.\s]([AD])(\d{2})G` ignoring case; it is the groups of the leftmost match, with the subgenome letter upper-cased to `A` or `D` |
| GeneUtils.ParseGeneIdValue | cotton_toolkit/utils/gene_utils.py:18-19 | a value that is not a string gives no location; a string is parsed |
| GeneUtils.FallbackSubsumed | cotton_toolkit/utils/gene_utils.py:33-37 | a text the ZJU pattern `^GH_([AD])(\d{2})G` matches is already matched by the first pattern at index 2, so the fallback never decides |
| GeneUtils.ParseExampleGhir | cotton_toolkit/utils/gene_utils.py:21 | `Ghir_A01G000100` is subgenome A, chromosome 01 |
| GeneUtils.ParseExampleGh | cotton_toolkit/utils/gene_utils.py:21 | `Gh_D13G1234` is subgenome D, chromosome 13 |
| GeneUtils.ParseExampleGohir | cotton_toolkit/utils/gene_utils.py:21 | `Gohir.A05G012300` is subgenome A, chromosome 05 |
| GeneUtils.ParseExampleArabidopsis | cotton_toolkit/utils/gene_utils.py:25-39 | an Arabidopsis ID such as `AT1G01010` has no location |
| EnrichmentInput.RowOf | ui/tabs/enrichment_tab.py:249-263 | a line is blank exactly when it strips to nothing; its tokens are `re.split(r'[\s,;]+', line.strip())` |
| EnrichmentInput.Rows | ui/tabs/enrichment_tab.py:248-261 | there is one row per line |
| EnrichmentInput.RowAt | ui/tabs/enrichment_tab.py:248-261 | each row is the view of its own line |
| EnrichmentInput.NonEmpty | ui/tabs/enrichment_tab.py:264 | the IDs a line adds are exactly its non-empty tokens |
| EnrichmentInput.RefusalStays | ui/tabs/enrichment_tab.py:256-267 | once a line is refused, later lines change nothing: the first refusal is the one shown |
| EnrichmentInput.ReadLine | ui/tabs/enrichment_tab.py:248-264 | one pass of the line loop does what `Step` describes: skip a blank line, take the tokens, or refuse the line with its number |
| EnrichmentInput.ReadStep | ui/tabs/enrichment_tab.py:246-267 | one more line extends the parse of the lines before it, and a refusal is the result for the whole text |
| EnrichmentInput.StepAt | ui/tabs/enrichment_tab.py:246-267 | the same for a sequence of rows |
| EnrichmentInput.ReadLines | ui/tabs/enrichment_tab.py:243-267 | the line loop computes `ParseGenes` of all the lines |
| EnrichmentInput.Checks | ui/tabs/enrichment_tab.py:269-282 | the checks after reading refuse only for no genes, no assembly, no plot type or no output directory |
| EnrichmentInput.PlainAccepted | ui/tabs/enrichment_tab.py:260-264 | without Log2FC no line is refused |
| EnrichmentInput.PlainList | ui/tabs/enrichment_tab.py:260-264 | without Log2FC the genes read are exactly the non-empty tokens of the non-blank lines |
| EnrichmentInput.Log2fcRefused | ui/tabs/enrichment_tab.py:247-259 | with Log2FC the text is refused exactly when some non-blank line has fewer than two tokens or an unreadable second token |
| EnrichmentInput.Log2fcFirstBad | ui/tabs/enrichment_tab.py:248-259 | the refusal names the first bad line, counted from 1, with the reason of that line: too few columns with its text, or the bad value |
| EnrichmentInput.ListedIffValued | ui/tabs/enrichment_tab.py:252-257 | with Log2FC a gene is listed exactly when it has a value |
| EnrichmentInput.LastValueWins | ui/tabs/enrichment_tab.py:254 | a gene's value is the one on the last line that gives it, and a gene no line gives has none |
| EnrichmentInput.StartedTask | ui/tabs/enrichment_tab.py:212-301 | a started task has a sorted, duplicate-free, non-empty gene list holding exactly the genes read; the Log2FC map exactly when asked for, covering only listed genes; a usable assembly; the ticked plot types in order; a non-empty output directory |
| EnrichmentInput.StartEnrichment | ui/tabs/enrichment_tab.py:212-301 | a bad-input refusal only comes with Log2FC on; a started task has a non-empty gene list and the form's assembly, and values exactly when Log2FC is on |
| EnrichmentInput.Refusals | ui/tabs/enrichment_tab.py:271-282 | each refusal comes exactly when the checks before it pass and its own fails: no genes, then no assembly, then no plot type, then no output directory |
| EnrichmentInput.ConfigFirst | ui/tabs/enrichment_tab.py:213-215 | the missing configuration is reported exactly when there is none, before anything else |
| EnrichmentInput.PlaceholderIgnored | ui/tabs/enrichment_tab.py:218 | the placeholder comparison's result is never used: the handler does the same whatever the placeholder is |
| EnrichmentInput.ChecksIgnorePlaceholder | ui/tabs/enrichment_tab.py:218 | the checks do not depend on the placeholder (also lines 269-282) |
| EnrichmentInput.HeaderDropped | ui/tabs/enrichment_tab.py:217-241 | with a header, the first line of the stripped text is dropped, and an empty text has no lines |
| EnrichmentInput.MessageAsWritten | ui/tabs/enrichment_tab.py:256-259 | the message shown starts with the literal `第 {i + 1}`, then the reason and the quoted value or line; no line number appears in it |
| EnrichmentInput.LineNumberIgnored | ui/tabs/enrichment_tab.py:256-259 | as written, the message is the same whatever line number the refusal carries |
| EnrichmentInput.LineNumberLost | ui/tabs/enrichment_tab.py:256 | as written, the same bad value on lines 1 and 2 gives the same message; with the number filled in the messages differ |
| EnrichmentInput.Message | ui/tabs/enrichment_tab.py:256-259 | the message with the line number filled in starts with `第 ` |
| EnrichmentInput.MessageInjective | ui/tabs/enrichment_tab.py:256-259 | with the number filled in, different refusals give different messages: the text determines the line, the reason and the quoted text |
| EnrichmentInput.DigitsThenSpace | ui/tabs/enrichment_tab.py:256-259 | a number followed by a space-led text can be read back only one way |
| EnrichmentInput.TailInjective | ui/tabs/enrichment_tab.py:256-259 | the text after the number determines the reason and the quoted text |

## Findings

| source | as written | input that shows it | evidently intended | confidence | as-written member | corrected member |
|---|---|---|---|---|---|---|
| ui/tabs/enrichment_tab.py:256 | The error for a bad Log2FC line is `f"{_('第 {i + 1} 行Log2FC值无效:')} '{log2fc_str}'"`. The template is a plain literal inside the replacement field, so `{i + 1}` is never filled in. The message at line 259 is built the same way. | With Log2FC on and the lines `g1 x` and `g2 1.0`, the value `x` is refused with `第 {i + 1} 行Log2FC值无效: 'x'`. Lines `g1 1.0` and `g2 x` give the same text, so the user cannot tell which line is bad. | The message names the line: `第 1 行Log2FC值无效: 'x'` | high, not executed | EnrichmentInput.MessageAsWritten, EnrichmentInput.LineNumberLost | EnrichmentInput.Message, EnrichmentInput.MessageInjective |
| cotton_toolkit/pipelines.py:307 | In the direct lookup, `failed_genes = [gid for gid in source_gene_ids if gid not in found_genes]` tests the raw input IDs. `found_genes` holds IDs normalised by the genome's ID regex (lines 287-289). Line 353 does the same in the other direction. | An input `g.1` that the regex normalises to `g`, with a homology row for `g`, is mapped and also listed as failed. | An input fails only when its normalised form was not found | medium, not executed | LegacyPipeline.DirectSelectReportsVariant, LegacyPipeline.DirectSelectFailed | LegacyPipeline.DirectSelectIntended, LegacyPipeline.DirectSelectIntendedFailed |
| cotton_toolkit/core/homology_mapper.py:467 | The self-test binds the `(frame, count)` pair that `map_genes_via_bridge` returns (line 397) to `mapped_results_df` and tests `mapped_results_df.empty`. A tuple has no `.empty`. | The self-test itself: the mapping succeeds, and the check stops with an AttributeError before its assertions. | Unpack the pair, then check the frame: three rows reaching CottonB_g201 and CottonB_g204 | high, not executed | HomologySelfTest.CheckAsWritten, HomologySelfTest.SelfTestNeverConfirms | HomologySelfTest.CheckIntended, HomologySelfTest.SelfTestConfirms |
| cotton_toolkit/pipelines/homology.py:285 | After the PID and score filters, the stage reads `criteria.strict_subgenome_priority`. `HomologySelectionCriteria` (cotton_toolkit/config/models.py:206-212) declares no such field, and `_update_config_from_overrides` only sets attributes the object already has. cotton_toolkit/pipelines/analysis.py:207 reads the same attribute in the same way. | Any run whose BLAST workers return one hit, with or without a strict value in the overrides: the read raises AttributeError, `pipeline_task` turns it into `None`, and `run_locus_conversion` (lines 337-359) then always takes its no-homologs return. | The criteria declare `strict_subgenome_priority: bool = False`; the stage filters by threshold and, when the form asks for it, by subgenome | high, not executed | HomologyPipeline.FilterStageRaises, HomologyPipeline.LocusConversionNeverProceeds | HomologyPipeline.FilterStageIntended, HomologyPipeline.FilterHitsSound |

## Left out

- Files, spreadsheets, SQLite, YAML and logging are not modelled. The
  model starts from the rows, lines and values these would deliver, and
  ends at the text or rows they would receive. A logging call is modelled
  by the text it would log, where that text is specified.
- Threads, thread pools, queues and cancellation events are not modelled.
  The chunk plan is modelled, but the order in which chunks complete is
  not. The translator's worker threads are modelled by the results they
  collect, whatever their order.
- These are function parameters in the model:
  - regular-expression compilation and matching on patterns that genome
    sources supply;
  - `_apply_regex_to_id`, `_to_gene_id`, `_to_transcript_id` and
    `resolve_gene_ids`, which are called but not defined in the files
    modelled;
  - Python's `float()` and the translation function `_()`;
  - the system locale, the chat model's replies, and the sizes of files
    on disk.
- pandas is modelled by the operation each call performs on records.
  The following are not modelled:
  - dtype inference;
  - index labels, except where the program turns them into row numbers;
  - the order of rows produced by an inner `merge`. The bridge mapping's
    properties are stated as membership and distinctness, not as order.
- `sort_values` with one key is stable in the model, but pandas' default
  single-column quicksort is not. Tied rows may come out in another order
  in the program. The sorting properties (sorted, a permutation, top-N
  per query) hold either way.
- HomologyMapper.SelectBestHomologs does not model sorting by the ID
  columns. A sort key that names the query or match column is treated
  like an unknown metric. The default criteria sort by Score and Exp
  only.
- HomologyMapper.MapGenesViaBridge visits the inputs of
  `set(source_gene_ids)` in first-occurrence order. Python's set order is
  arbitrary. The fuzzy count does not depend on that order. The notes
  do: when two inputs reach the same ID, the note is the one written by
  the later input in first-occurrence order, and under Python's set
  order it can be the other one.
- HomologyMapper.SliceQueries splits each query ID on the slicer as a
  literal text. pandas `.str.split(slicer)` (cotton_toolkit/core/homology_mapper.py:321
  and 326) treats a slicer of two or more characters as a regular
  expression, so a slicer such as `.t` or `|x` cuts IDs differently in the
  program. Slicers of one character, like the usual `.`, agree.
- HomologyMapper.SliceHits has the same literal split for the match
  column of the first hop (cotton_toolkit/core/homology_mapper.py:325).
- GeneUtils.FirstMarker reads `\d` as an ASCII digit. Python's `re`
  matches any Unicode decimal digit there (cotton_toolkit/utils/gene_utils.py:25).
- GeneUtils.ParseGeneId inherits that ASCII reading of `\d`, for both
  patterns (cotton_toolkit/utils/gene_utils.py:25 and 33).
- HomologyPipeline.StripVersion reads `\d` in `\.\d+$` as an ASCII digit,
  where Python's `re` accepts any Unicode decimal digit
  (cotton_toolkit/pipelines/homology.py:396).
- HomologyPipeline.VersionSuffixIsLastDot is stated for that ASCII suffix
  as well.
- BsaAnalyzer.AnalyzeBsaIndex states the saved values, not the column
  layout. In the program an assessment column that was missing is added
  at the end of the sheet.
- BsaAnalyzer.FindOverlappingRegions enumerates pairs in the original row
  order. The program sorts each chromosome by start first. Both report
  the same unordered pairs. The order and orientation of the records can
  differ, and the annotation does not depend on either.
- The `pipeline_task` decorator in cotton_toolkit/pipelines/decorators.py
  is not part of this model. It turns every exception into a `None`
  result, so an `Err` of a modelled pipeline stands for that `None`.
- HomologySelfTest.SelfTest states the expectation on the paths of the
  unpacked result; the program's own check on the tuple is a finding.
- `strict_subgenome_priority` is read at cotton_toolkit/pipelines/homology.py:285
  but is not a declared criteria field, so the program raises there on
  every run with hits (see Findings). The later steps, the version-stripped
  lookup of StripVersion and the column order of ReorderColumns, are reached
  only once that line is fixed; they are modelled for the corrected program.
- HomologyPipeline.FilterHitsSound states the corrected filter stage, in
  which the strict attribute exists; the program as written raises before
  it, which FilterStageRaises states.
- HomologyPipeline.StrictFilterInactive is likewise stated for the corrected
  stage only.
- HomologyPipeline.PlanChunks accepts a negative worker count and plans
  chunks for it. The program's `ThreadPoolExecutor(max_workers=...)` at
  cotton_toolkit/pipelines/homology.py:246 raises ValueError there; the
  pool is not modelled.
- Translator.ResultsExactly assumes every request answers. When
  `translate_text` raises after its retries, the worker's
  `except Exception: continue` skips `task_done()`
  (cotton_toolkit/locales/translator.py:204-216), so `task_queue.join()` at
  line 234 waits forever and the language hangs instead of being skipped.
- ConfigModels.GetItem, ConfigModels.AsDict and ConfigModels.SetDefault see
  only data attributes. Python's `hasattr`/`getattr` also find methods, so
  `obj['get']` returns a bound method in the program; and `asdict` drops an
  attribute that `setdefault` added outside the declared fields, which
  AsDict keeps. The model states these operations for data attributes
  only.
- `load_and_map_homology` and the rest of the BLAST and gffutils
  pipelines are not part of this model. They call external programs and
  libraries.
- POSIX path semantics are modelled. Windows paths, with backslashes and
  drive letters, are not.
- `str.lower` changes only the ASCII letters `A`-`Z`. Unicode case
  mapping is not modelled, and neither are the non-ASCII digits that
  `int()` accepts. `str.isspace` and `str.splitlines` use Python's full
  sets of whitespace and line-break characters.
- Floating-point scores are modelled as real numbers. Rounding in
  `100 * matches / total` and in gap percentages is not modelled.
- The GUI is not modelled. Dialogs are represented by the refusal they
  show; widgets are represented by the texts they hold.
- EnrichmentInput.Message and EnrichmentInput.MessageAsWritten give the
  Chinese source text of the templates, before translation by `_()`.
