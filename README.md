# VAREID pair store, IA post-filter and import path split, in Dafny

This project models three pieces of the VAREID wildlife re-identification
pipeline and proves properties of each.

- **Pair-verification store** (`db_scripts.dfy`, module `VerificationDb`).
  The `image_verification` table holds pairs of annotation images waiting for
  a human verdict. The class `VerificationStore` holds the table as a
  `map<string, Row>` keyed by pair id, plus `instance_active_pairs`, the set
  of pairs this process has reserved. There is one method per public function
  of `db_scripts.py`. Each SQL statement or transaction becomes one atomic
  update of the map.
  - The class invariant `Valid()` has two parts. First, every row has the
    field shape of its status: an awaiting row has no owner, no timestamps and
    no decision; an in-progress row has an owner, a start time and a
    heartbeat; checked and sent rows also have a completion time. Second,
    every in-progress row owned by this instance is in the active set.
  - The second part is what lets `cleanup_instance_pairs` skip its UPDATE
    when the active set is empty.
- **Identifiable-annotation post-filter** (`ia_classifier.dfy`, module
  `IAClassifier`). This is everything in `IA_classifier.py` around the
  neural network:
  - the `xywh_to_xyxy` box conversion;
  - `filter_dataframe`;
  - the threshold_CA split;
  - the log-aspect-ratio window;
  - per-image NMS;
  - the census flag;
  - the final concatenation.

  There are two pipelines.
  - `PostProcessAsWritten` is lines 182-258 of `main` as the code stands. It
    fails with `Screening` when `filter_dataframe` raises KeyError, and with
    `NoScores` when no row passes the screen, because `test_new` then returns
    an empty array and `all_softmax_outputs[:, 0]` raises IndexError.
    Otherwise its screen is the intended filter applied to `EffectiveFrame`,
    the frame without its species column when the spaced key is absent. Its
    output holds every input row exactly once except `LostRows`: the rows
    above threshold_CA whose log_AR is NaN, which no mask selects.
  - `PostProcess` is the corrected pipeline. It uses the intended
    `FilterDataframe` and `SplitAspectRatio`, and it returns every input row
    exactly once.

  In both, each output row is proved to carry the marks of the stage that
  decided it (predicate `Explained`), so `annotations_census` is set exactly
  on the rows inside the window that NMS kept.
- **Output-path split** (`import_videos.dfy`, module `ImportVideos`). This is
  how `out_path` is cut into `dir_out` and `out_file` with `rfind`, Python
  slicing and `str.replace`.

Shared pieces:
- `common.dfy` holds `Option` and `Result`.
- `data_frames.dfy` holds row selection (`Filter`, `SplitBy`) and row mapping
  (`MapSeq`), with their partition and permutation lemmas.

Inputs that the source reads from the environment are parameters here:
- the clock (`now`, in whole seconds);
- the instance identifier (fixed by the constructor);
- the classifier's softmax outputs (`classifier`);
- the natural logarithm on positive reals (`ln`);
- torchvision's `nms` (`nms`, which gives the kept positions of a group).

VAREID's documentation describes a clustering engine; none of its code is in
these files, and it is not part of this model.

## Model

| member | source | states |
|---|---|---|
| VerificationDb.VerificationStore.constructor | VAREID/libraries/ui/db_scripts.py:15-45 | importing the module and calling init_db once: the store releases every in-progress row this instance owns and starts with no active pairs |
| VerificationDb.InsertBatch | VAREID/libraries/ui/db_scripts.py:52-56 | the executemany loop yields the batch insert of all pairs, and its count is the number of ids added |
| VerificationDb.InsertAllKeys | VAREID/libraries/ui/db_scripts.py:52-55 | a batch insert adds exactly the batch ids that were absent and leaves every existing row unchanged |
| VerificationDb.InsertAllNewRows | VAREID/libraries/ui/db_scripts.py:53-54 | every added row is a fresh 'awaiting' row with default decision and NULL owner and timestamps, stored under its own id |
| VerificationDb.InsertAllFirstWins | VAREID/libraries/ui/db_scripts.py:52-55 | when one new id occurs several times in a batch, the first occurrence is the row stored (OR IGNORE drops the later ones) |
| VerificationDb.InsertAllKeepsShape | VAREID/libraries/ui/db_scripts.py:52-55 | a batch insert keeps every row well formed and changes no ownership |
| VerificationDb.InsertCount | VAREID/libraries/ui/db_scripts.py:56 | rowcount grows by one for an absent id and by zero for an ignored one |
| VerificationDb.VerificationStore.AddImagePairs | VAREID/libraries/ui/db_scripts.py:52-61 | absent ids are added as awaiting rows (the first pair per id wins), existing rows are unchanged, and the result counts only new rows |
| VerificationDb.VerificationStore.AddImagePair | VAREID/libraries/ui/db_scripts.py:64-66 | inserting one pair returns 1 and adds it if its id is absent, otherwise returns 0 and changes nothing |
| VerificationDb.CheckedDecisions | VAREID/libraries/ui/db_scripts.py:81-98 | the result holds a requested id exactly when its row is 'checked', mapped to that row's decision |
| VerificationDb.MarkSentEffect | VAREID/libraries/ui/db_scripts.py:90-93 | only requested 'checked' rows change, and they change only to 'sent' |
| VerificationDb.HarvestOnce | VAREID/libraries/ui/db_scripts.py:81-93 | asking again for the same ids after a harvest returns {} |
| VerificationDb.MarkSentNoop | VAREID/libraries/ui/db_scripts.py:88-93 | with no checked row among the ids, skipping the UPDATE changes nothing |
| VerificationDb.SentDecisionsReturned | VAREID/libraries/ui/db_scripts.py:81-93 | when SELECT and UPDATE see the same table, every row the UPDATE moves to 'sent' had its decision returned |
| VerificationDb.HarvestInterleaved | VAREID/libraries/ui/db_scripts.py:81-93 | the two statements as written, with a commit by another connection between them: the result is what the SELECT saw, and the UPDATE (skipped when that is empty) runs on the table as it is by then |
| VerificationDb.DecisionLostBetweenStatements | VAREID/libraries/ui/db_scripts.py:81-93 | a requested pair that becomes 'checked' between the SELECT and the UPDATE is marked 'sent' while its decision is not returned |
| VerificationDb.VerificationStore.GetDecisions | VAREID/libraries/ui/db_scripts.py:69-98 | returns the decisions of the requested checked rows and marks exactly those 'sent'; an empty request returns {} and changes nothing |
| VerificationDb.VerificationStore.GetDecision | VAREID/libraries/ui/db_scripts.py:101-104 | returns the decision of the row if it was 'checked' (and marks it sent), else None |
| VerificationDb.LookupSymmetric | VAREID/libraries/ui/db_scripts.py:115-139 | both uuid lookups select the same rows whichever order the two uuids are given in |
| VerificationDb.VerificationStore.GetExistingPairDecision | VAREID/libraries/ui/db_scripts.py:115-125 | None exactly when no checked or sent row matches the uuid pair; otherwise the decision of one such row |
| VerificationDb.VerificationStore.CheckPairExists | VAREID/libraries/ui/db_scripts.py:135-147 | (True, status, decision) of some matching row if one exists, else (False, None, None) |
| VerificationDb.ReleaseClears | VAREID/libraries/ui/db_scripts.py:155-181 | after the release UPDATEs no row is owned in progress by the instance, and no row is stale; no row is added or deleted |
| VerificationDb.VerificationStore.ResetInstancePairs | VAREID/libraries/ui/db_scripts.py:155-167 | only this instance's in-progress rows go back to awaiting, with their start, owner and heartbeat cleared; the count is their number |
| VerificationDb.VerificationStore.ResetStalePairs | VAREID/libraries/ui/db_scripts.py:175-189 | exactly the in-progress rows whose heartbeat is NULL or before now minus the timeout are reset, whoever owns them; the count is their number |
| VerificationDb.LexLeTotal | VAREID/libraries/ui/db_scripts.py:205 | ORDER BY id compares any two ids |
| VerificationDb.LexLeAntisymmetric | VAREID/libraries/ui/db_scripts.py:205 | two ids that each sort before the other are equal |
| VerificationDb.LexLeTransitive | VAREID/libraries/ui/db_scripts.py:205 | the id order is transitive |
| VerificationDb.LeastExists | VAREID/libraries/ui/db_scripts.py:202-206 | a non-empty set of awaiting ids has a first id in ORDER BY id |
| VerificationDb.LeastUnique | VAREID/libraries/ui/db_scripts.py:205 | ORDER BY id LIMIT 1 selects one row: the first id is unique |
| VerificationDb.VerificationStore.GetNextPairAtomic | VAREID/libraries/ui/db_scripts.py:202-229 | reserves the awaiting row with the smallest id (in progress, owned, started and beaten at now), adds it to the active set and returns its columns; with none awaiting, returns None and changes nothing |
| VerificationDb.ReleaseUndoesReserve | VAREID/libraries/ui/db_scripts.py:212-216 | releasing a freshly reserved row gives back the awaiting row |
| VerificationDb.VerificationStore.UpdateHeartbeat | VAREID/libraries/ui/db_scripts.py:243-247 | only the heartbeat of an owned in-progress row changes; any other call changes nothing |
| VerificationDb.VerificationStore.UpdateStatus | VAREID/libraries/ui/db_scripts.py:258-274 | succeeds exactly for an owned in-progress row, which becomes checked with the decision and completed_at and leaves the active set; otherwise nothing changes and it returns false |
| VerificationDb.VerificationStore.ReleasePair | VAREID/libraries/ui/db_scripts.py:283-298 | succeeds exactly for an owned in-progress row, which returns to awaiting with start, owner and heartbeat cleared and leaves the active set; otherwise nothing changes |
| VerificationDb.VerificationStore.CleanupInstancePairs | VAREID/libraries/ui/db_scripts.py:305-322 | with pairs held, resets this instance's in-progress rows and empties the set; without, changes nothing; either way no owned in-progress row remains |
| VerificationDb.StatusCountsPartition | VAREID/libraries/ui/db_scripts.py:374-382 | the four per-status counts add up to COUNT(*) |
| VerificationDb.VerificationStore.GetInstanceStats | VAREID/libraries/ui/db_scripts.py:374-405 | total, per-status sums (NULL on an empty table), distinct non-NULL owners, the positive in-progress count for each owner, and this instance's identifier |
| DataFrames.FilterSplit | VAREID/algo/ia_classification/IA_classifier.py:94-98 | two complementary masks put every row in exactly one of the two frames |
| DataFrames.FilterSplit3 | VAREID/algo/ia_classification/IA_classifier.py:199-206 | three masks of which each row satisfies exactly one put every row in exactly one of three frames |
| DataFrames.SplitBy | VAREID/algo/ia_classification/IA_classifier.py:97-98 | df[mask] and df[~mask] partition the frame: together they are a permutation of it, and a row is in the first exactly when the mask holds |
| DataFrames.MapSeqPermutation | VAREID/algo/ia_classification/IA_classifier.py:246-255 | mapping the rows of two permutations of a frame gives two permutations |
| IAClassifier.XywhToXyxy | VAREID/algo/ia_classification/IA_classifier.py:24-30 | defined exactly for four values; keeps the origin and puts the far corner at width and height beyond it |
| IAClassifier.BoxRoundTrip | VAREID/algo/ia_classification/IA_classifier.py:24-30 | converting corners back to width and height gives the original box |
| IAClassifier.CornersOrdered | VAREID/algo/ia_classification/IA_classifier.py:24-30 | if w, h >= 0 then x1 <= x2 and y1 <= y2 |
| IAClassifier.FilterDataframe | VAREID/algo/ia_classification/IA_classifier.py:84-98 | the corrected screen: filtered_test and filtered_out partition the frame; a row is in filtered_test exactly when its viewpoint is accepted and, if there is a species column, its species is the configured one |
| IAClassifier.FilterDataframeAsWritten | VAREID/algo/ia_classification/IA_classifier.py:84-98 | raises KeyError exactly when the spaced key is present without the underscored column; with both present it is the intended filter; when it succeeds it partitions the frame |
| IAClassifier.AsWrittenIgnoresSpecies | VAREID/algo/ia_classification/IA_classifier.py:88-91 | without the "annot species" key, the species column is never consulted |
| IAClassifier.SpeciesKeyMismatch | VAREID/algo/ia_classification/IA_classifier.py:88-89 | a row of the wrong species passes the filter as written but not the intended one |
| IAClassifier.ScoreAll | VAREID/algo/ia_classification/IA_classifier.py:182-183 | every screened row gets the classifier's two softmax outputs, in order |
| IAClassifier.SplitByThreshold | VAREID/algo/ia_classification/IA_classifier.py:186-191 | above_threshold (score > threshold_CA) and below_threshold (score <= threshold_CA) partition the scored rows |
| IAClassifier.ThresholdStage | VAREID/algo/ia_classification/IA_classifier.py:182-191 | after the intended screen (the screen as written is that screen on EffectiveFrame), every row above or below threshold is an accepted input row carrying its classifier scores, on the right side of threshold_CA |
| IAClassifier.LogAspect | VAREID/algo/ia_classification/IA_classifier.py:196-198 | np.log(w / h) is NaN exactly for 0/0, a negative width over zero, or a negative ratio; +inf exactly for a positive width over zero; -inf exactly for zero width over a non-zero height; otherwise ln of the ratio |
| IAClassifier.MeasuredStage | VAREID/algo/ia_classification/IA_classifier.py:196-198 | every measured row is an above-threshold row of the intended screen with log_AR computed from its box |
| IAClassifier.SplitAspectRatioAsWritten | VAREID/algo/ia_classification/IA_classifier.py:199-206 | ar_filtered is the rows inside the window and ar_filtered_out the rows strictly outside it; a NaN row is in neither |
| IAClassifier.SplitAspectRatio | VAREID/algo/ia_classification/IA_classifier.py:199-206 | the intended aspect-ratio split partitions the rows: inside the window, or not |
| IAClassifier.AspectRatioFixAgrees | VAREID/algo/ia_classification/IA_classifier.py:199-206 | without NaN ratios the split as written equals the partition |
| IAClassifier.AspectRatioDropsNaN | VAREID/algo/ia_classification/IA_classifier.py:196-206 | a zero-sized box gets a NaN ratio and the split as written loses its row |
| IAClassifier.WindowTrichotomy | VAREID/algo/ia_classification/IA_classifier.py:199-206 | a log_AR is inside the window, below min_log_AR, above max_log_AR or NaN; inside and NaN each exclude the others |
| IAClassifier.OutsidePlusNaN | VAREID/algo/ia_classification/IA_classifier.py:199-206 | the split as written keeps the same ar_filtered as the intended one, and its ar_filtered_out plus the NaN-ratio rows is the intended ar_filtered_out |
| IAClassifier.RowsOfImages | VAREID/algo/ia_classification/IA_classifier.py:211-214 | a group holds only rows of the frame with one of the given images |
| IAClassifier.RowsOfImagesStep | VAREID/algo/ia_classification/IA_classifier.py:211-214 | adding a new image to the groups visited adds exactly that image's group |
| IAClassifier.RowsOfAllImages | VAREID/algo/ia_classification/IA_classifier.py:211-214 | the groups of all images of the frame cover the frame |
| IAClassifier.ImagePaths | VAREID/algo/ia_classification/IA_classifier.py:211 | groupby visits each image of the frame exactly once |
| IAClassifier.NmsSplitPartition | VAREID/algo/ia_classification/IA_classifier.py:214-219 | within a group, the kept rows plus the removed rows are the group; kept rows sit at positions nms keeps and removed rows at positions it drops |
| IAClassifier.NmsGroup | VAREID/algo/ia_classification/IA_classifier.py:214-219 | one image's pass splits its group into rows NMS keeps and rows NMS removes |
| IAClassifier.NmsImagesPartition | VAREID/algo/ia_classification/IA_classifier.py:211-219 | over distinct images, all_results and nms_filtered_out together are the rows of those images, every survivor kept and every removed row dropped by NMS in its image group |
| IAClassifier.NmsAllImages | VAREID/algo/ia_classification/IA_classifier.py:211-219 | after every image's group, all_results and nms_filtered_out together are the whole frame, every survivor kept and every removed row dropped by NMS in its image group |
| IAClassifier.ApplyNmsPerImage | VAREID/algo/ia_classification/IA_classifier.py:211-233 | the group loop returns survivors and removed rows that together are a permutation of ar_filtered, each survivor kept and each removed row dropped by NMS in its own image group |
| IAClassifier.FinalAnnotations | VAREID/algo/ia_classification/IA_classifier.py:239-256 | in the corrected pipeline the five concatenated groups hold every input annotation exactly once |
| IAClassifier.ExplainSurvivors | VAREID/algo/ia_classification/IA_classifier.py:239 | NMS survivors are flagged for the census, with both scores, under CA_score, inside the window |
| IAClassifier.ExplainSuppressed | VAREID/algo/ia_classification/IA_classifier.py:242 | rows removed by NMS are not flagged, and NMS removed them from their image group |
| IAClassifier.ExplainOutside | VAREID/algo/ia_classification/IA_classifier.py:241 | rows outside the aspect-ratio window are not flagged for the census and carry their ratio |
| IAClassifier.ExplainBelowPart | VAREID/algo/ia_classification/IA_classifier.py:240 | rows below threshold_CA are not flagged, carry both scores and have no log_AR |
| IAClassifier.ExplainScreened | VAREID/algo/ia_classification/IA_classifier.py:243 | screened-out rows are not flagged and carry no scores |
| IAClassifier.PostProcess | VAREID/algo/ia_classification/IA_classifier.py:182-258 | the corrected pipeline (intended screen, complementary aspect-ratio split): final_df has one row per input row. Each row carries its stage's marks: no scores iff screened out; CA_score is the positive-class output; log_AR iff above threshold_CA; census implies inside the window and kept by NMS in its image group; an unflagged row inside the window was removed by NMS |
| IAClassifier.EffectiveFrame | VAREID/algo/ia_classification/IA_classifier.py:88-91 | the frame filter_dataframe as written reads: the same rows, the frame itself when the spaced key is present, and no species column otherwise |
| IAClassifier.ScreenAsWritten | VAREID/algo/ia_classification/IA_classifier.py:84-98 | whenever filter_dataframe as written succeeds, its result is the intended screen of EffectiveFrame |
| IAClassifier.EmptyInputScreensNothing | VAREID/algo/ia_classification/IA_classifier.py:84-98 | an empty input frame screens to two empty frames, so test_new has nothing to score |
| IAClassifier.LostRows | VAREID/algo/ia_classification/IA_classifier.py:196-206 | a row is lost exactly when it is above threshold_CA and its log_AR is NaN |
| IAClassifier.NoLostRows | VAREID/algo/ia_classification/IA_classifier.py:196-206 | without NaN ratios no row is lost |
| IAClassifier.OneRowMeasured | VAREID/algo/ia_classification/IA_classifier.py:182-198 | one accepted row scored above threshold_CA is measured with its classifier scores and the ratio of its box |
| IAClassifier.ZeroBoxIsLost | VAREID/algo/ia_classification/IA_classifier.py:196-206 | an accepted row scored above threshold_CA with box [0, 0, 0, 0] is the one lost row, with a NaN log_AR |
| IAClassifier.FinalAnnotationsAsWritten | VAREID/algo/ia_classification/IA_classifier.py:199-256 | final_df as written plus the lost rows hold every input annotation exactly once |
| IAClassifier.ExplainOutsideAsWritten | VAREID/algo/ia_classification/IA_classifier.py:241 | every row of ar_filtered_out as written is outside the window, unflagged and carrying its ratio |
| IAClassifier.PostProcessAsWritten | VAREID/algo/ia_classification/IA_classifier.py:182-258 | main as written (test_new, lines 107-119, returns an empty array for no rows): KeyError from the screen is Screening; an empty screen makes [:, 0] raise IndexError (NoScores); otherwise final_df plus the lost NaN-ratio rows is every input row exactly once, and each output row carries its stage's marks on EffectiveFrame |
| ImportVideos.RFind | VAREID/algo/import/import_videos.py:23 | -1 exactly when there is no '/'; otherwise the index of a '/' with none after it |
| ImportVideos.SliceBound | VAREID/algo/import/import_videos.py:24-25 | a slice bound is clamped to the string, and a negative bound counts from the end |
| ImportVideos.RemoveAll | VAREID/algo/import/import_videos.py:25 | str.replace("/", "") leaves no '/' and keeps every other character, as often as it occurs |
| ImportVideos.RemoveAllConcat | VAREID/algo/import/import_videos.py:25 | the replace works piece by piece, so the kept characters stay in their order |
| ImportVideos.RemoveAllAbsent | VAREID/algo/import/import_videos.py:25 | a string free of '/' is unchanged by the replace |
| ImportVideos.SplitOutPath | VAREID/algo/import/import_videos.py:23-25 | out_file never contains '/' |
| ImportVideos.SplitAtLastSlash | VAREID/algo/import/import_videos.py:23-25 | with a '/', dir_out is the prefix before the last one, out_file the suffix after it, and dir_out + "/" + out_file == out_path |
| ImportVideos.SplitWithoutSlash | VAREID/algo/import/import_videos.py:23-25 | without a '/', dir_out is out_path minus its last character and out_file is that character |
| ImportVideos.BareFileNameSplit | VAREID/algo/import/import_videos.py:23-25 | "video.json" splits into "video.jso" and "n" |
| ImportVideos.SplitOutPathFixed | VAREID/algo/import/import_videos.py:23-25 | the intended split: out_file has no '/', and dir_out, the separator if any, and out_file put back together give out_path |
| ImportVideos.FixAgreesWithSlash | VAREID/algo/import/import_videos.py:23-25 | the intended split agrees with the code whenever out_path has a '/' |

## Left out

- SQLite connections, cursors, commit, rollback and exception paths are not modelled. Each statement or transaction is one atomic map update, and a failed guard is "no change".
- The `threading`-based heartbeat worker, `start_heartbeat_system`, `stop_heartbeat_system` and the `atexit` registration (db_scripts.py:325-366, 408-410) are left out. They are concurrency and process lifecycle.
- `uuid4()[:8]` and `os.getpid()` (db_scripts.py:10-12) are left out: the identifier is a constructor parameter. `datetime.now()` is the parameter `now`.
- Timestamps are integer seconds, compared numerically. The textual comparison SQLite makes between stored datetime strings and its parameter is not modelled.
- VerificationDb.VerificationStore.GetNextPairAtomic: started_at and heartbeat get the same `now`. The source calls `datetime.now()` twice, microseconds apart.
- VerificationDb.VerificationStore.GetNextPairAtomic: the `rowcount != 1` branch (db_scripts.py:223-226) is not modelled. Inside BEGIN IMMEDIATE no other writer can take the row, so this branch is unreachable for non-NULL ids.
- Pair ids (`PairInfo.id`) are non-NULL strings. SQLite accepts NULL in a TEXT PRIMARY KEY (db_scripts.py:24); the UPDATE's `id = NULL` then matches no row, so the `rowcount != 1` branch could be reached. NULL sorts first under ORDER BY id, so every later call would take that branch too. The model cannot represent that row.
- VerificationDb.VerificationStore.GetDecisions: the SELECT and the UPDATE (db_scripts.py:81-93) are one atomic step, as if one transaction spanned them. The source runs them without one. The interleaving, and the decision it can lose, are modelled separately by HarvestInterleaved and DecisionLostBetweenStatements.
- VerificationDb.VerificationStore.constructor: the persisted table is required to be well formed (each row shaped as its status demands). This holds for any table written by these operations.
- VerificationDb.VerificationStore.constructor: models the first init_db after the import. A second init_db in the same process keeps the old instance_active_pairs (only db_scripts.py:15 empties it), and that call is not modelled.
- VerificationDb.VerificationStore.GetExistingPairDecision and VerificationDb.VerificationStore.CheckPairExists: LIMIT 1 without ORDER BY may return any matching row, so the contracts promise "some matching row".
- VerificationDb.VerificationStore.GetInstanceStats: `instance_breakdown` (a list of (instance_id, count) rows) is a map from owner to count, and the row order is not modelled.
- The `add_image_pairs` docstring describes 7-tuples. The INSERT takes nine values (db_scripts.py:53-55), so the model follows the code.
- The ResNet-50 model, `load_model`, `test_new`, the DataLoader, PIL loading, cropping, flipping and the torchvision transforms are foreign ML and image code. Their output is the parameter `classifier`.
- IAClassifier.ScoreAll: the softmax columns are assigned by position in the source. The model takes them from a function of the annotation, so two identical annotation records get the same scores.
- torchvision `nms` and the sort by score inside `apply_nms` (IA_classifier.py:122-129) are the parameter `nms`, which returns the kept positions of a group.
- IAClassifier.ApplyNmsPerImage: groups are visited in order of first appearance, and kept rows stay in frame order. The source takes groups in sorted image-path order and kept rows in descending score order. Only the row order of final_df differs; its contents do not.
- `np.log` is the parameter `ln` on positive ratios. Float rounding of scores and ratios is not modelled, and a negative zero is not distinguished from zero.
- IAClassifier.PostProcess and IAClassifier.PostProcessAsWritten: every box is required to have four values, because `expand_bbox_columns` raises on any other length.
- IAClassifier.PostProcess: this is the corrected pipeline, not what main runs. What main runs is IAClassifier.PostProcessAsWritten, which fails on the inputs and loses the rows that the Findings below describe.
- `expand_bbox_columns` is not modelled as a separate step: the model reads width and height from the box itself.
- softmax_output_0 and the log_AR of rows without one are `None`, where pandas writes NaN.
- JSON and YAML loading and saving, `shutil.rmtree`, `os.makedirs` (IA_classifier.py:263-271), `load_config` and `import_video_folder` (import_videos.py:7-10, 27) are file I/O or code not visible here.
- The print statements are left out.

## Findings

| source | as written | input that shows it | evidently intended | confidence | as-written member | corrected member |
|---|---|---|---|---|---|---|
| VAREID/algo/ia_classification/IA_classifier.py:88-89 | the species test is switched on by the key "annot species" but reads the column "annot_species" | a frame with an annot_species column and no "annot species" key: a wrong-species row passes (a frame with only the spaced key raises KeyError) | test the species whenever the annot_species column exists | not executed; high | IAClassifier.SpeciesKeyMismatch | IAClassifier.FilterDataframe |
| VAREID/algo/ia_classification/IA_classifier.py:199-206 | ar_filtered and ar_filtered_out use two masks that are not complements | a row above threshold_CA with bbox w = h = 0: log_AR is NaN, the row is in neither group and is missing from final_df (ZeroBoxIsLost, PostProcessAsWritten) | ar_filtered_out as the complement of ar_filtered, so every row is kept | not executed; medium | IAClassifier.AspectRatioDropsNaN | IAClassifier.SplitAspectRatio |
| VAREID/algo/import/import_videos.py:23-25 | rfind's -1 for "no '/'" is used directly as a slice bound | out_path = "video.json" gives dir_out "video.jso" and out_file "n" | dir_out "" and out_file "video.json" | not executed; high | ImportVideos.BareFileNameSplit | ImportVideos.SplitOutPathFixed |
| VAREID/algo/ia_classification/IA_classifier.py:182 | the softmax columns are read with `[:, 0]` and `[:, 1]` from the array test_new returns, which has shape (0,) when no row passed the screen | an input with no rows, or no row of an accepted viewpoint (EmptyInputScreensNothing): [:, 0] raises IndexError and no final_df is written | an empty final_df, or one holding only the screened-out rows | not executed; medium | IAClassifier.PostProcessAsWritten | IAClassifier.PostProcess |
| VAREID/libraries/ui/db_scripts.py:81-93 | get_decisions runs its SELECT and its UPDATE with no transaction around them | pair p is in_progress at the SELECT, which returns another checked pair; another connection then commits p as checked; the UPDATE marks p sent, and p's decision is never returned | one transaction around both statements, so only the returned rows become 'sent' | not executed; medium | VerificationDb.DecisionLostBetweenStatements | VerificationDb.SentDecisionsReturned |
