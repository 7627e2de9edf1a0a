# NSD-Flat dataset generator, modelled in Dafny

This project models the deterministic core of `generate_dataset.py`, the script that builds the
NSD-Flat dataset out of the Natural Scenes Dataset (NSD). It covers:

- **Static configuration.** There are eight subjects, `subj01`..`subj08`, each with its own
  session count (30 to 40 sessions). Trial ids reserve 750 slots per session
  (`TRIALS_PER_SESSION = 30000 // 40`). The number of trials actually read for a session is the
  row count of its activity array.
- **Session split.** For every subject, the last three sessions form the test split and the
  rest form the train split. Any other split name raises an error.
- **Trial ids.** The flat trial id is `sesid * 750 + ii`.
- **Enumeration order.** Records are produced subject by subject, then session by session, then
  trial by trial. In debug mode the generator returns after the first session.
- **Session activity.** Each hemisphere's region-of-interest columns are selected, z-scored
  within the session and placed side by side, left hemisphere first.
- **Raster pipeline.** The resampler's transform comes first. Cells outside the raster mask are
  then filled with 0.0, values are quantized to 8 bits over [-2.5, 2.5], and the rows are
  flipped vertically.
- **Record assembly.** One record is built from the trial-info table, the image store and the
  COCO annotation table. This includes the `repetitions` sub-map of `_rep` fields.

Everything sits in one module, `NsdFlat` (`nsd_flat.dfy`):

- **The generator's loops.** `GenerateDataset` is a method that appends one
  `TrialKey(subject index, session, trial id)` per produced record. It is proved equal to the
  specification function `ExpectedStream`. The number of rows in each session's activity array
  is the input `rows`.
- **The hemisphere loop.** `LoadSessionActivity` is a method that runs the loop of
  `load_session_activity` over `["lh", "rh"]`. It is proved equal to `SessionActivity`.
- **Pure expressions.** `quantize`, `np.flipud`, the session ranges, the trial-id arithmetic and
  the record and `repetitions` comprehensions are functions with lemmas.
- **Error paths.** The exceptions the source can raise are modelled as `Result` errors:
  - the `ValueError` for an unknown split;
  - the `IndexError` of a boolean ROI mask whose length is not the array's width;
  - the `ValueError` of z-scoring a hemisphere with no trials or no selected vertex;
  - the `ValueError` of `np.concatenate` for hemispheres with different trial counts;
  - the `KeyError` or `IndexError` of a failed lookup of trial info, image, annotation or field.

  One error case is the model's own: `RasterShapeMismatch`, for a transformed grid whose shape
  differs from the raster mask (see "## Left out").

External computations are parameters:

- The resampler's fitted `transform` and its raster mask are fields of the `Resampler`
  datatype.
- Z-scoring is abstract: `zscore(column, i)` is the standardised value of trial `i`, given the
  whole column.
- The trial-info table, the image store and the annotation table are maps and sequences.

## Model

| member | source | states |
|---|---|---|
| NsdFlat.SubjectNames | generate_dataset.py:30 | the comprehension `[f"subj{ii:02d}" for ii in range(1, n + 1)]` has n names; SubjectNamesValue states their values |
| NsdFlat.SessionsFor | generate_dataset.py:85-90 | the split's session range: it succeeds iff the split is "train" or "test", and any other split is the UnrecognizedSplit error; SplitPartition states the ranges |
| NsdFlat.TrialId | generate_dataset.py:97 | the flat trial id `sesid * TRIALS_PER_SESSION + ii`; TrialIdDecode, TrialIdInjective and TrialIdInRange state what it guarantees |
| NsdFlat.SessionKeys | generate_dataset.py:96-97 | the keys of the first n rows of one session; SessionKeysAt and SessionKeysFacts state their positions, order and contents |
| NsdFlat.SubjectKeys | generate_dataset.py:93-97 | the keys of the first `count` sessions of one subject, session after session; SubjectKeysFacts states their order and contents |
| NsdFlat.SubjectsKeys | generate_dataset.py:71-97 | the keys of the first `count` subjects, subject after subject; SubjectsKeysFacts states their order and contents |
| NsdFlat.ExpectedStream | generate_dataset.py:71-140 | the keys the generator yields and the error it ends with; StreamOrderAndContents and StreamTrialIds state their meaning, and GenerateDataset is proved equal to it |
| NsdFlat.TrialsPerSession | generate_dataset.py:31-47 | TRIALS_PER_SESSION = 30000 // 40 is 750, and 750 trials per session times 40 sessions is exactly NUM_TRIALS |
| NsdFlat.SubjectNamesValue | generate_dataset.py:29-30 | the names `subj{ii:02d}` for ii in 1..8 are exactly "subj01" to "subj08", in order |
| NsdFlat.SubjectTable | generate_dataset.py:30-46 | every enumerated subject name is a key of NUM_SESSIONS (the lookup at line 86 never fails), with between 30 and 40 sessions |
| NsdFlat.SessionCount | generate_dataset.py:36-46 | the session count of each subject is between 30 and MAX_SESSIONS |
| NsdFlat.SplitPartition | generate_dataset.py:85-90 | for n >= 3 sessions: train followed by test is exactly range(n); train is [0, n-3) and test is [n-3, n), as membership iffs; they are disjoint; test has 3 sessions and train n-3; any other split name is the UnrecognizedSplit error |
| NsdFlat.TrialIdDecode | generate_dataset.py:97 | for ii < 750, trial id div 750 gives back the session and mod 750 gives back the row |
| NsdFlat.TrialIdInjective | generate_dataset.py:97 | two (session, row) pairs with rows below 750 and the same trial id are the same pair |
| NsdFlat.TrialIdInRange | generate_dataset.py:97 | a session below MAX_SESSIONS and a row below 750 give a trial id in [0, NUM_TRIALS) |
| NsdFlat.GenerateDataset | generate_dataset.py:71-140 | the nested loops (subjects, the split's sessions, the session's rows, the debug return) yield exactly the key stream ExpectedStream and end with its error, if any |
| NsdFlat.SessionKeysAt | generate_dataset.py:96-97 | row ii of a session is produced at position ii, with trial id sesid * 750 + ii |
| NsdFlat.SessionKeysFacts | generate_dataset.py:96-97 | one session's keys are strictly ascending and are exactly that subject's and session's row ids below the row count |
| NsdFlat.SubjectKeysFacts | generate_dataset.py:93-97 | over increasing sessions, one subject's keys are strictly ascending and are exactly the rows of the listed sessions |
| NsdFlat.SubjectsKeysFacts | generate_dataset.py:71-97 | the keys of the first `count` subjects are strictly ascending and are exactly the rows of those subjects' split sessions |
| NsdFlat.StreamOrderAndContents | generate_dataset.py:71-140 | the yielded keys are strictly ascending in (subject, session, trial), so none repeats; an unknown split yields nothing and raises; otherwise no error, and the keys are exactly the rows of every split session of every subject; in debug mode they are exactly the rows of the first session of subject 0, one key per row |
| NsdFlat.FirstSessionOfSplit | generate_dataset.py:85-88 | the session the debug run stops after is session 0 for train and session 37 for test |
| NsdFlat.StreamTrialIds | generate_dataset.py:93-97 | when no session has more than 750 rows, every yielded trial id is in [0, NUM_TRIALS), decodes to its own session (div 750), and its row (mod 750) is below the session's row count |
| NsdFlat.Clip | generate_dataset.py:196 | `np.clip` lands in [lo, hi], leaves values inside unchanged, and saturates at both ends |
| NsdFlat.Quantize | generate_dataset.py:192-199 | the 8-bit value is in [0, 255]; x <= vmin gives 0 and x >= vmax gives 255 |
| NsdFlat.QuantizeMonotone | generate_dataset.py:196-198 | a <= b implies quantize(a) <= quantize(b) |
| NsdFlat.QuantizeBin | generate_dataset.py:196-198 | inside [vmin, vmax), value q means x - vmin lies between q and q + 1 bin widths of (vmax - vmin) / 255 |
| NsdFlat.QuantizeFill | generate_dataset.py:111-112 | the masked fill value 0.0, quantized over [-2.5, 2.5], is 127, not 0 |
| NsdFlat.FlipUd | generate_dataset.py:115 | flipping keeps the number of rows |
| NsdFlat.FlipUdAt | generate_dataset.py:115 | row r of the flipped grid is row H-1-r of the input |
| NsdFlat.FlipUdInvolutive | generate_dataset.py:115 | flipping twice gives back the grid; flipping keeps every row's width (row r has the width of input row H-1-r) |
| NsdFlat.ApplyMask | generate_dataset.py:111 | `apply_mask(act, fill_value=0.0)` keeps the grid's shape, and each cell is the activity inside the raster mask and the fill value outside it |
| NsdFlat.QuantizeGrid | generate_dataset.py:112 | `quantize` on a grid keeps its shape and quantizes every cell |
| NsdFlat.Rasterize | generate_dataset.py:110-115 | transform, mask with fill 0.0, quantize over [-VMAX, VMAX], flip; RasterizePixels states the result pixel by pixel |
| NsdFlat.RasterizePixels | generate_dataset.py:110-115 | rasterizing succeeds iff the transformed grid has the raster mask's shape; then the map has the mask's height, input cell (r, c) is output cell (H-1-r, c), and it holds the quantized activity inside the mask and 127 outside it; every pixel is in [0, 255] |
| NsdFlat.Select | generate_dataset.py:181 | a masked row has as many entries as the mask has true entries |
| NsdFlat.CountAppend | generate_dataset.py:79 | the true-count of concatenated masks is the sum of their true-counts |
| NsdFlat.SelectAt | generate_dataset.py:181 | a kept entry i is at position count(mask[..i]) of the selection, so the selection keeps the true-positions in order |
| NsdFlat.SelectAppend | generate_dataset.py:181-188 | selecting from a concatenated row with the concatenated mask equals selecting part by part and concatenating |
| NsdFlat.CombineMasks | generate_dataset.py:78-79 | the combined mask has length len(lh) + len(rh) and a true-count that is the sum of both; its first len(lh) entries are lh and the rest are rh |
| NsdFlat.SelectColumns | generate_dataset.py:181 | `activity[:, mask]` keeps one row per trial and Count(mask) columns, each row being the row's selected entries; SelectAt and SelectAppend state their order |
| NsdFlat.Scale | generate_dataset.py:184 | z-scoring keeps the shape, and cell (i, j) is the z-score of trial i within column j |
| NsdFlat.HConcat | generate_dataset.py:188 | `np.concatenate([a, b], axis=1)` keeps one row per trial, each row being a's row followed by b's |
| NsdFlat.SessionActivity | generate_dataset.py:157-189 | `load_session_activity` as a value, with its error order: each hemisphere's mask width, then its z-scoring input, left before right, then the trial counts; SessionActivityCombined states its meaning |
| NsdFlat.ScaleHConcat | generate_dataset.py:184-188 | z-scoring column by column commutes with placing the two hemispheres side by side |
| NsdFlat.LoadSessionActivity | generate_dataset.py:157-189 | the loop over the hemispheres, then the concatenation, returns exactly SessionActivity, including its error cases |
| NsdFlat.SessionActivityCombined | generate_dataset.py:163-189 | loading succeeds iff both raw arrays have their mask's width and the same, non-zero number of trials, and both masks select at least one vertex; a left hemisphere of the right width with no trials or no selected vertex is the EmptyScaleInput(Lh) error; the result then has one row per trial and count(lh) + count(rh) columns; it equals the side-by-side raw arrays selected with the combined mask and z-scored, so it holds the selected lh columns in order, then the rh ones |
| NsdFlat.ContainsOccurrence | generate_dataset.py:134 | Python's substring test `p in s` holds iff p occurs in s at some offset |
| NsdFlat.Contains | generate_dataset.py:134 | Python's `p in s` for strings; ContainsOccurrence states its meaning |
| NsdFlat.Repetitions | generate_dataset.py:133-135 | the `repetitions` comprehension over the trial info; RepetitionsSubmap states what it keeps |
| NsdFlat.RepetitionsSubmap | generate_dataset.py:133-135 | `repetitions` is a sub-map of the trial info: its keys are exactly the trial-info keys in which "_rep" occurs, each with its original value |
| NsdFlat.Pick | generate_dataset.py:128-132 | the field comprehension succeeds iff every listed key is present; it then holds exactly the listed keys with the source map's values; otherwise it raises the missing-key error for a listed key that is absent |
| NsdFlat.ImageSlot | generate_dataset.py:102 | indexing the image store with a stimulus id succeeds iff the id is in [-n, n); the slot it reads is then the id's remainder modulo n, so a negative id counts from the end |
| NsdFlat.AssembleRecord | generate_dataset.py:96-137 | one record, with its lookups in the order of the source; AssembledRecord states when it succeeds and what it holds |
| NsdFlat.AssembledRecord | generate_dataset.py:96-137 | a record is produced iff every lookup succeeds: trial info, an integer stimulus id, the image (an id in [-n, n) for n images, negative ids counting from the end), rasterizing, the annotation and the listed fields; it then carries its subject, session and trial id, the subject name, the stimulus id and the image it indexes, the rasterized activity, exactly the three trial fields and four annotation fields with their values, and the `_rep` fields; a missing trial-info row is the MissingTrialInfo error |

## Left out

- File loading is not modelled. This covers the HDF5 image brick, the CSV of trial information,
  the annotation JSON lines, the `.npy` masks, the MGH beta files and the path building
  (generate_dataset.py:59-69, 74-78, 165-178). The data they provide enters as maps, sequences
  and the `raw` matrices. The squeeze and transpose of the beta array are part of that loading.
- The resampler (`get_resampler`, `Resampler.fit`, `transform`, `apply_mask`,
  `load_fsaverage_flat`, `extract_patch`; generate_dataset.py:143-153) is left out:
  `resample.py` and `surface.py` are not part of this model. `transform` is an opaque function.
  `apply_mask` is modelled as "cells outside the raster mask become the fill value". What is
  kept is the order: mask, then quantize, then flip. The constants PIXEL_SIZE and MAP_RECT
  (generate_dataset.py:50-52) are only handed to `get_resampler` at line 82, so they are left
  out with it.
- Rasterize: the `RasterShapeMismatch` error is the model's own guard, not an exception raised
  in `generate_dataset.py`. It assumes that `apply_mask` in `resample.py` rejects a grid whose
  shape differs from the raster mask; what `resample.py` really does in that case is not
  modelled.
- Z-scoring (`sklearn.preprocessing.scale`) and the `float32` cast are an abstract per-column
  function, `zscore`, because they are floating-point statistics. Of what `scale` checks, only
  its refusal of zero samples or zero features is modelled (the EmptyScaleInput error).
- SessionActivity: with zero trials a raw matrix has no rows, so the model cannot see its width.
  In that case it reports the z-scoring error even where numpy would first raise the mask
  `IndexError` of line 181. Either way the session fails.
- `quantize` is modelled over exact reals. Float rounding near a bin edge and the exact
  behaviour of the `uint8` cast are not covered: after clipping every value is in [0, 255], so
  the cast is modelled as the floor.
- Quantize: requires vmin < vmax. The source divides by vmax - vmin, and the only call site
  uses -2.5 and 2.5.
- PIL image construction, the optional bicubic resize to `img_size`, `get_transforms`, logging,
  argparse, and the `datasets` cast and save with worker processes are not modelled. These are
  library and process plumbing. The image type of a record is a type parameter. IMG_SIZE
  (line 32) is used only by the command-line entry point (line 257). SEED (line 28) is used
  nowhere in the file.
- GenerateDataset produces the stream of record keys. The record for each key is the separate
  function AssembleRecord, and the two are not fused into one stream.
- A lookup that fails in the middle of the stream is not modelled at the stream level. In the
  source such a failure raises after the earlier records were already yielded. The model gives
  that error per record, in AssembleRecord, and the stream's only error is the unknown split.
- The generator is lazy, yielding records one at a time. That laziness is not modelled: the
  model builds the whole sequence.
- StreamOrderAndContents: in debug mode the contents are stated for the session table in the
  source, where every subject has at least 27 train sessions and 3 test sessions. The debug return then
  always comes after the first session of subject 0.
- StreamTrialIds: requires the row count of every session to be at most 750, as in NSD.
  The source does not check this. With more rows, trial ids of adjacent sessions would overlap.
