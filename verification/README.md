# BDRC OCR pipeline, modelled in Dafny

This project models the core of img2opf, a set of Python scripts. They take
the scanned volumes of Buddhist Digital Resource Center (BDRC) works through
Google Vision OCR and publish the results as OpenPecha repositories. The model
covers these parts:

- The batch pipeline of `usage/bdrc/bdrc_ocr.py`:
  - the key and naming rules (hash bucket, image and service prefixes, local
    work ids, staged and OCR-result file names);
  - the per-volume steps: staging the images from the archive bucket, OCR on
    each staged image, archiving both folders to the OCR output bucket, and
    cleaning up;
  - `process_work`, with resuming from a checkpoint, the checkpoint file
    itself, and the main loop over the input files.
- The helper scripts built on the same steps:
  - `prepare_training_data.py`: windowed staging, the volume filter and the
    folder renaming;
  - `download_images.py` and `download_iamgegroups.py`: range-filtered
    staging;
  - `download_ocr_output.py` and `s3_to_opf.py`: fetching OCR results back;
  - `image_to_text.py`: assembling a volume text and its page JSON files;
  - `img2opf/ocr.py`: the stand-alone OCR script;
  - `download_all_volumes.py`: page downloads from a saved link page.

How the model represents state and services:

- **Local file system.** A `Storage.LocalFs` object. Its one field is a map
  from paths (sequences of components) to bytes. A directory exists when some
  file lies below it. `iterdir` gives a set of names, because Python leaves
  its order unspecified.
- **OCR output bucket.** A `Storage.ObjectStore` object, a map from keys to
  bytes.
- **Services.** The fields of `VolumeSteps.Env`, passed as parameters:
  - the MD5 hex digest;
  - the volume query and the image listing;
  - the archive bucket and the keys whose download fails;
  - Pillow's conversion;
  - the Vision call;
  - gzip;
  - the serialized `info.json`;
  - the keys whose upload fails;
  - the OpenPecha publication.
- **Loops.** Each loop that changes the files or the bucket is a `method`
  with a `while` loop. Its `ensures` ties the final state to a recursive
  specification function. The lemmas beside that function prove what the
  step promises: staging only adds files, staging is idempotent, resuming
  restarts at the checkpointed volume, and every listed id is accounted for.

Modules and files:

| module | file | models |
|---|---|---|
| `Strs`, `StrOrder`, `Decimal` | strings.dfy, order.dfy, decimal.dfy | Python `split`/`join`/`strip`, string `<` and `sorted`, `str`/`int` and `{:03}` |
| `Storage` | storage.dfy | files, `write_bytes`, `rmtree`, `shutil.move`, `put_object` |
| `BdrcKeys` | keys.dfy | the naming rules of usage/bdrc/bdrc_ocr.py |
| `VolumeSteps` | volume.dfy | the per-volume steps of usage/bdrc/bdrc_ocr.py |
| `CheckPoints` | checkpoint.dfy | the checkpoint of usage/bdrc/bdrc_ocr.py |
| `Works` | work.dfy | `process_work`, `get_work_ids` and the main block of usage/bdrc/bdrc_ocr.py |
| `TrainingData` | training.dfy | usage/bdrc/prepare_training_data.py |
| `DownloadImages` | download_images.dfy | usage/bdrc/download_images.py |
| `DownloadImagegroups` | download_imagegroups.dfy | usage/bdrc/download_iamgegroups.py |
| `DownloadOcrOutput` | ocr_output.dfy | usage/bdrc/download_ocr_output.py |
| `S3ToOpf` | s3_to_opf.dfy | usage/bdrc/s3_to_opf.py |
| `ImageToText` | image_to_text.dfy | usage/bdrc/image_to_text.py |
| `ImgOcr` | img_ocr.dfy | img2opf/ocr.py |
| `AllVolumes` | all_volumes.dfy | download_all_volumes.py |

## Model

| member | source | states |
|---|---|---|
| Strs.Strip | usage/bdrc/bdrc_ocr.py:413 | `str.strip()`: the result is a contiguous slice of the text, only whitespace is cut on either side, and the result neither starts nor ends with whitespace |
| Strs.JoinSplit | usage/bdrc/bdrc_ocr.py:411 | joining the parts of `split(c)` with `c` gives back the text |
| Strs.SplitJoin | usage/bdrc/image_to_text.py:27 | splitting `c`-free parts joined by `c` gives back exactly those parts |
| Strs.SplitPair | usage/bdrc/bdrc_ocr.py:423 | `(a + c + b).split(c)` has exactly the two parts `a`, `b` if and only if neither contains `c` |
| Strs.AfterLastNoSep | usage/bdrc/bdrc_ocr.py:332 | `split(c)[-1]` holds no `c` and is a suffix of the text |
| Strs.StripPadded | usage/bdrc/bdrc_ocr.py:413 | `strip()` removes exactly the whitespace around a text whose ends are not whitespace |
| Strs.BeforeFirstIsPrefix | usage/bdrc/bdrc_ocr.py:184 | `split(c)[0]` is a prefix holding no `c`, followed by `c` when shorter than the text |
| StrOrder.LexLessTotal | usage/bdrc/bdrc_ocr.py:347 | Python's string `<` orders any two different strings one way or the other; irreflexivity, asymmetry and transitivity are proved beside it |
| StrOrder.Sorted | usage/bdrc/prepare_training_data.py:109 | `sorted` of a set of names: every name exactly once, in strictly ascending order |
| Decimal.ParseNatToStr | download_all_volumes.py:31 | `int(str(n)) == n` for the digit reader |
| Decimal.ParseInt | download_all_volumes.py:31 | `int(s)` strips surrounding whitespace, then succeeds exactly on an optional sign followed by ASCII digits with single `_` between digits; the value has the sign read |
| Decimal.ParseIntSigned | download_all_volumes.py:31 | `int('-' + str(n))` is `-n` and `int('+' + str(n))` is `n` |
| Decimal.ParseIntPadded | download_all_volumes.py:31 | whitespace around the text does not change what `int` reads |
| Decimal.ParseIntUnderscore | download_all_volumes.py:31 | an `_` between two runs of digits is ignored |
| Decimal.ParseIntNatToStr | download_all_volumes.py:31 | `int(str(n))` is `n` for every natural `n` |
| Decimal.Pad3RoundTrip | usage/bdrc/image_to_text.py:84 | `f'{n:03}'` is at least three digits and reads back as `n` |
| Decimal.Pad3Injective | usage/bdrc/prepare_training_data.py:110 | different numbers never share a zero-padded name |
| Storage.RemoveUnder | usage/bdrc/bdrc_ocr.py:320 | `rmtree(dir)`: exactly the files below `dir` go, and the others keep their contents |
| Storage.ChildNamesMember | usage/bdrc/bdrc_ocr.py:299 | `iterdir` of a folder of files lists `name` exactly when the file `dir/name` exists |
| Storage.EntryNamesMember | usage/bdrc/prepare_training_data.py:109 | `iterdir` lists `name` exactly when a file or a folder is at `dir/name` |
| Storage.Relocated | usage/bdrc/prepare_training_data.py:111 | after a move, each file below the source is re-rooted below the destination with the same contents, unrelated files are kept, and nothing else exists |
| Storage.MoveResult | usage/bdrc/prepare_training_data.py:111 | `shutil.move` between siblings: a missing source raises, a move onto itself changes nothing, and a move onto a free name relocates the source |
| Storage.LocalFs.WriteBytes | usage/bdrc/bdrc_ocr.py:258 | `write_bytes` creates or replaces exactly one file |
| Storage.LocalFs.Move | usage/bdrc/prepare_training_data.py:111 | the move succeeds exactly when `MoveResult` does, and a failed move changes nothing |
| Storage.LocalFs.RemoveTree | usage/bdrc/bdrc_ocr.py:320 | the files are exactly those `RemoveUnder` leaves |
| Storage.ObjectStore.PutObject | usage/bdrc/bdrc_ocr.py:302 | `put_object` stores or replaces exactly one object |
| BdrcKeys.HashBucket | usage/bdrc/bdrc_ocr.py:140-141 | the hash bucket is a prefix of the work id's hex digest, two characters long whenever the digest has two |
| BdrcKeys.GetS3PrefixPath | usage/bdrc/bdrc_ocr.py:133-156 | an empty image-group id is the only failure; without a service the result is the image prefix; with one, the keys are exactly `batch` and the data types, each data type maps to its folder, and `batch` maps to the batch folder unless a data type named `batch` overwrites it |
| BdrcKeys.ImagesPrefixInjective | usage/bdrc/bdrc_ocr.py:143-156 | for `/`-free ids, two equal image prefixes come from the same work and the same image-group suffix |
| BdrcKeys.ImagesPrefixParts | usage/bdrc/bdrc_ocr.py:149-156 | an image prefix splits on `/` into `Works`, the bucket, the work, `images`, and `<work>-<suffix>` |
| BdrcKeys.GroupSuffixInjective | usage/bdrc/bdrc_ocr.py:143-147 | among ids starting with `I`, equal suffixes mean equal ids |
| BdrcKeys.GroupSuffixCollides | usage/bdrc/bdrc_ocr.py:143-147 | for every four-digit `d`, `I<d>` and `<d>` share the suffix `<d>`, so the numbered form does not tell every id apart |
| BdrcKeys.WorkLocalIdProperties | usage/bdrc/bdrc_ocr.py:330-334 | the local id has no `:`; the qualified id ends with `:` and the local id; a local id parses to itself and `bdr:` + itself; parsing the qualified id again gives the same pair |
| BdrcKeys.GetValue | usage/bdrc/bdrc_ocr.py:87-91 | a literal gives its value; any other node that yields a value is a URI in the `bdr:` namespace, shortened to `bdr:` and the rest of the URI |
| BdrcKeys.VolumeUriRoundTrip | usage/bdrc/bdrc_ocr.py:125-129 | a volume URI read by `get_value` and `get_work_local_id` gives its bare id and its `bdr:` form |
| BdrcKeys.StagedResultName | usage/bdrc/bdrc_ocr.py:183-184 | staging an image under its `.png` name does not change the name of its OCR result; a `.tif` is staged as a `.png` |
| BdrcKeys.OcrResultNameProperties | usage/bdrc/download_ocr_output.py:20-21 | the result name is its own result name, and two images share a result name exactly when they agree up to the first `.` |
| BdrcKeys.LastDot | usage/bdrc/bdrc_ocr.py:250 | the index of the last `.`, or -1 when there is none |
| BdrcKeys.StemSuffix | usage/bdrc/bdrc_ocr.py:250 | pathlib's stem followed by its suffix is the name; a non-empty suffix is a `.` followed by dot-free text |
| VolumeSteps.GetS3Bits | usage/bdrc/bdrc_ocr.py:159-172 | the object is found exactly when it exists and its download does not fail; a failure other than 404 raises; a 404 returns nothing |
| VolumeSteps.OutputDirOfImagesDir | usage/bdrc/bdrc_ocr.py:207-209 | for the pipeline's own folders, `image_exists_locally` looks for OCR results where `apply_ocr_on_folder` writes them |
| VolumeSteps.SaveFile | usage/bdrc/bdrc_ocr.py:175-195 | an image already staged is left alone; otherwise Pillow's output is written under the staged name; an image Pillow cannot open is skipped; a failing `save` raises (ok is false) and writes nothing |
| VolumeSteps.ImageRequests | usage/bdrc/bdrc_ocr.py:220-224 | one request per listed image, in order, keyed `<prefix>/<file name>` |
| VolumeSteps.StageExtends | usage/bdrc/bdrc_ocr.py:215-226 | staging never changes or removes a file, and each file it adds is the staged name of a requested image, holding Pillow's output for that image's archive object |
| VolumeSteps.StageSettles | usage/bdrc/bdrc_ocr.py:215-226 | after staging that did not raise, every requested image is present locally or cannot be staged (a 404 or an image Pillow cannot open) |
| VolumeSteps.StageSettledIsNoOp | usage/bdrc/bdrc_ocr.py:221-226 | staging settled images writes nothing, raises nothing, and fetches only images not present locally |
| VolumeSteps.StageIdempotent | usage/bdrc/bdrc_ocr.py:215-226 | after staging that did not raise, staging again writes nothing, raises nothing, and fetches only images that are still missing |
| VolumeSteps.StageSkipsPresent | usage/bdrc/bdrc_ocr.py:221-225 | an image present locally is never fetched |
| VolumeSteps.SaveImagesForVol | usage/bdrc/bdrc_ocr.py:215-226 | an empty image-group id raises before any fetch; otherwise the files, the fetches and the outcome are those of the staging specification over the listed images, where a failing download or a failing `save` raises and ends the loop |
| VolumeSteps.StemNamingMissesResult | usage/bdrc/bdrc_ocr.py:250 | with stem naming, the result written for `a.b.jpg` does not make `image_exists_locally` true for it |
| VolumeSteps.StagedResultRecognised | usage/bdrc/bdrc_ocr.py:198-212 | with first-dot naming, a volume's OCR result makes `image_exists_locally` true for its source image |
| VolumeSteps.OcrSkipStep | usage/bdrc/bdrc_ocr.py:250-251 | an image whose result exists is covered with no OCR call |
| VolumeSteps.OcrFailStep | usage/bdrc/bdrc_ocr.py:252-256 | an image whose OCR call raises is covered by that call, and nothing is written |
| VolumeSteps.OcrWriteStep | usage/bdrc/bdrc_ocr.py:257-258 | a successful OCR call writes the gzipped response under the image's result name |
| VolumeSteps.ApplyOcrOnFolder | usage/bdrc/bdrc_ocr.py:240-258 | no existing file changes; every new file is the gzipped response of a staged image whose result was missing; every staged image is covered; OCR is called only on images with no result |
| VolumeSteps.ArchiveFolder | usage/bdrc/bdrc_ocr.py:298-302 | existing objects are never overwritten; each new object is a file of the folder under `<prefix>/<name>` with its bytes; a loop that did not raise archived every file; with no failing upload it does not raise |
| VolumeSteps.ArchiveOnS3 | usage/bdrc/bdrc_ocr.py:284-310 | a failed `info.json` upload changes nothing; otherwise `info.json` is written; no other existing object changes; new objects come from the images or the output folder under their own prefix; success archives both folders; with no failing upload it succeeds |
| VolumeSteps.CleanUp | usage/bdrc/bdrc_ocr.py:313-327 | with an image group the volume's staging folder goes; else with a work its output folder goes; else every folder of `data_path` goes, and a plain file there makes it raise |
| CheckPoints.SavedWorksProperties | usage/bdrc/bdrc_ocr.py:427-428 | saving a work keeps the earlier list as a prefix, lists the work, adds nothing else, keeps the list free of duplicates, and is idempotent |
| CheckPoints.ParseCheckPoint | usage/bdrc/bdrc_ocr.py:416-423 | as written: a file without the `imagegroup` key fails to load |
| CheckPoints.ParsePointer | usage/bdrc/bdrc_ocr.py:422-423 | an empty pointer means no resume point; a pointer read as (work, volume) is exactly `<work>-<volume>` |
| CheckPoints.ParseCheckPointFixed | usage/bdrc/bdrc_ocr.py:416-423 | a missing `imagegroup` key reads as "no resume point" |
| CheckPoints.PointerRoundTrip | usage/bdrc/bdrc_ocr.py:394 | the pointer `<work>-<volume>` reads back as the same pair if and only if neither contains `-` |
| CheckPoints.FixedLoadAccepts | usage/bdrc/bdrc_ocr.py:416-431 | a checkpoint file with no pointer, an empty pointer, or a pointer `<work>-<volume>` whose parts hold no `-` loads without error under the corrected reading |
| CheckPoints.FixedLoadFails | usage/bdrc/bdrc_ocr.py:422-423 | a file with a pointer fails to load exactly when the pointer is non-empty and does not hold exactly one `-` |
| CheckPoints.CheckPoint.constructor | usage/bdrc/bdrc_ocr.py:62-67 | a run starts with no completed work, no pointer, and no resume point |
| CheckPoints.CheckPoint.Save | usage/bdrc/bdrc_ocr.py:426-431 | a set work is appended unless already listed, a set pointer replaces the old one, and the whole checkpoint is written |
| CheckPoints.CheckPoint.Load | usage/bdrc/bdrc_ocr.py:416-423 | the work list and the pointer come from the file; loading succeeds exactly when the corrected parse does; a pointer sets the last work and volume, and no pointer leaves them unchanged |
| CheckPoints.CompletedWorkCheckPoint | usage/bdrc/bdrc_ocr.py:402 | the file written by a run's first completed work lists that work, fails the as-written load, and loads under the corrected one |
| Works.Resumed | usage/bdrc/bdrc_ocr.py:346-347 | the volumes processed are at most those queried |
| Works.ResumedMembers | usage/bdrc/bdrc_ocr.py:347 | a volume is processed exactly when it is not skipped on resume |
| Works.ResumedOtherWork | usage/bdrc/bdrc_ocr.py:347 | every volume of a work other than the checkpointed one is processed |
| Works.ResumeFromCheckPoint | usage/bdrc/bdrc_ocr.py:346-347 | with volumes in ascending order, resuming at volume `k` processes exactly volumes `k` onwards, the failed one included |
| Works.ResumedAllSkipped | usage/bdrc/bdrc_ocr.py:347 | when every volume sorts before the checkpointed one, nothing is processed |
| Works.ResumedStep | usage/bdrc/bdrc_ocr.py:346-347 | one more queried volume extends the processed list by that volume, unless it is skipped |
| Works.PrefixOfResumed | usage/bdrc/bdrc_ocr.py:346-347 | the volumes tried before a stop are a prefix of those to process |
| Works.CleanedAfterVolume | usage/bdrc/bdrc_ocr.py:386-391 | a volume that ends with its staging folder removed keeps every earlier volume's staging folder empty |
| Works.StageNewFiles | usage/bdrc/bdrc_ocr.py:215-226 | staging only adds files directly inside the staging folder |
| Works.OcrVolume | usage/bdrc/bdrc_ocr.py:360-366 | the OCR step only adds files, all directly in the volume's output folder; every staged image has its result in the output folder unless its OCR call fails |
| Works.ArchiveVolume | usage/bdrc/bdrc_ocr.py:368-384 | the archive step changes no existing object except the work's `info.json`; on success every staged image and every OCR result is stored under its key in the work's batch folder |
| Works.ProcessVolume | usage/bdrc/bdrc_ocr.py:351-391 | a volume adds files only to its own staging and output folders; it changes no object but `info.json`; success means the image group is set, staging did not raise, every staged image is archived, and its OCR result is archived unless its OCR call fails; success leaves its staging folder empty |
| Works.PublishWork | usage/bdrc/bdrc_ocr.py:397-405 | success records the work as completed and removes its output folder; a GitHub error checkpoints the last volume and changes no file; any other error leaves the checkpoint as it was |
| Works.ProcessVolumes | usage/bdrc/bdrc_ocr.py:346-395 | the volumes tried are a prefix of those to process, all of them when none fails, and end at the failed one otherwise; with none tried nothing changes; every processed volume's staging folder is empty; no object changes but `info.json` |
| Works.ProcessWork | usage/bdrc/bdrc_ocr.py:340-407 | the volumes tried follow resuming; a failed volume is checkpointed; a work with nothing to process changes nothing; a published work is recorded and cleaned; a GitHub error checkpoints the last queried volume; the bucket only gains objects, except `info.json` |
| Works.WorkIds | usage/bdrc/bdrc_ocr.py:410-413 | at most one id per line, none with surrounding whitespace |
| Works.WorkIdsAppend | usage/bdrc/bdrc_ocr.py:410-413 | the ids of two runs of lines are the ids of each run, in order |
| Works.WorkIdsSnoc | usage/bdrc/bdrc_ocr.py:410-413 | one more line adds nothing when it is empty, and its stripped text otherwise |
| Works.BlankLineGivesEmptyId | usage/bdrc/bdrc_ocr.py:412-413 | a non-empty line of whitespace only yields the empty id |
| Works.StripClean | usage/bdrc/bdrc_ocr.py:413 | a line with no surrounding whitespace is its own stripped form |
| Works.WorkIdsClean | usage/bdrc/bdrc_ocr.py:410-413 | clean non-empty lines are read as themselves |
| Works.GetWorkIdsRoundTrip | usage/bdrc/bdrc_ocr.py:410-413 | clean ids written one per line read back as the same ids |
| Works.RunWork | usage/bdrc/bdrc_ocr.py:449-467 | an id already completed is skipped; the completed list only grows; a GitHub error restarts the run and any other error ends it; a processed work that does not stop the run is accounted for |
| Works.RunInputFile | usage/bdrc/bdrc_ocr.py:449-473 | no id completed at the start is processed again; when the run goes on, every id of the file is accounted for |
| Works.RunBatch | usage/bdrc/bdrc_ocr.py:442-475 | loading fails exactly on a checkpoint the corrected parse rejects; no id completed in the loaded checkpoint is processed; a completed run accounts for every listed id |
| TrainingData.Window | usage/bdrc/prepare_training_data.py:36-40 | the images at indices `start` to `start + n - 1`, in order, clipped to the list |
| TrainingData.WindowIndices | usage/bdrc/prepare_training_data.py:37-40 | an index is staged exactly when it is at least `start` and below `start + n` |
| TrainingData.WindowAll | usage/bdrc/prepare_training_data.py:28-29 | with the default arguments the window is the whole list |
| TrainingData.StageWindow | usage/bdrc/prepare_training_data.py:36-47 | the loop stages the window exactly as the pipeline stages a list |
| TrainingData.SaveImagesForVolWindow | usage/bdrc/prepare_training_data.py:23-47 | an empty image-group id raises; otherwise the window of the volume's listed images is staged |
| TrainingData.DefaultWindowIsPipelineStaging | usage/bdrc/prepare_training_data.py:28-47 | with the default window the staging equals the pipeline's `save_images_for_vol` |
| TrainingData.IncomingRequests | usage/bdrc/prepare_training_data.py:68-72 | each image path is fetched by its own text and staged under its name |
| TrainingData.SaveImagesForVolIncoming | usage/bdrc/prepare_training_data.py:50-72 | the window of the given paths is staged, with no prefix and no image-group check |
| TrainingData.QueryId | usage/bdrc/prepare_training_data.py:76-80 | incoming volumes are queried by the local id and the others by the qualified id |
| TrainingData.HandledFrom | usage/bdrc/prepare_training_data.py:81-105 | the selected indices are in range |
| TrainingData.HandledAt | usage/bdrc/prepare_training_data.py:83-105 | a group above `till` ends the selection; a skipped group is passed over; any other group is selected, and after index 1 the selection ends |
| TrainingData.HandledSound | usage/bdrc/prepare_training_data.py:81-105 | the selected indices increase, none is skipped, and index 1, once selected, is the last |
| TrainingData.HandledUpToTill | usage/bdrc/prepare_training_data.py:83-84 | every group up to a selected index is at most `till` |
| TrainingData.HandledComplete | usage/bdrc/prepare_training_data.py:81-105 | a group that is not skipped, with every group up to it at most `till`, is selected if it is no later than index 1, or if index 1 is skipped |
| TrainingData.SkippedSecondBypassesBreak | usage/bdrc/prepare_training_data.py:85-105 | skipping the volume at index 1 bypasses the break, so a third volume is staged |
| TrainingData.VolumeDir | usage/bdrc/prepare_training_data.py:88-100 | a volume's folder ends with the local work id and the image group |
| TrainingData.StageVolume | usage/bdrc/prepare_training_data.py:88-103 | an incoming volume stages its whole list into the incoming folder; any other volume stages images 11 to 35 into `publication` |
| TrainingData.HandledRunSelects | usage/bdrc/prepare_training_data.py:81-105 | the loop stages a prefix of the selection, all of it when nothing raises, and a non-empty prefix otherwise |
| TrainingData.HandledRunStages | usage/bdrc/prepare_training_data.py:81-105 | the files and the outcome are those of staging the selection in order |
| TrainingData.StageHandled | usage/bdrc/prepare_training_data.py:81-105 | the loop's files, indices and outcome are those of the loop's specification |
| TrainingData.ProcessWork | usage/bdrc/prepare_training_data.py:75-105 | the query id follows the volume kind; the staged indices are a prefix of the selection, all of it on success; the files are those of staging the selection |
| TrainingData.VolumeStagedExtends | usage/bdrc/prepare_training_data.py:88-103 | staging a volume never changes a file and adds files only inside its folder |
| TrainingData.StageAllExtends | usage/bdrc/prepare_training_data.py:81-105 | staging the selected volumes never changes a file and adds files only inside their folders |
| TrainingData.VolumeNameInjective | usage/bdrc/prepare_training_data.py:110 | different positions never share a `v{i:03}` name |
| TrainingData.Rename | usage/bdrc/prepare_training_data.py:108-111 | the entries are visited once each in sorted order, and the files are those of moving the `i`-th entry to `v{i+1:03}` until a move raises |
| TrainingData.RenameFresh | usage/bdrc/prepare_training_data.py:108-111 | when no `vNNN` name is already an entry, every move succeeds; each file below the `i`-th entry ends up below `v{i+1:03}` with the same contents; other files stay; nothing else appears |
| TrainingData.RenameFreshFrom | usage/bdrc/prepare_training_data.py:109-111 | the same, for the loop from any index on |
| TrainingData.MoveFreshStep | usage/bdrc/prepare_training_data.py:111 | each move of that loop targets a free name, so it relocates the entry and keeps the remaining moves onto free names |
| TrainingData.TrainingMain | usage/bdrc/prepare_training_data.py:140-144 | the script queries `W2KG210295` and, on success, stages every incoming volume selected up to `Z` |
| DownloadImages.SelectedFrom | usage/bdrc/download_images.py:26-33 | the selected indices are in range |
| DownloadImages.SelectedSound | usage/bdrc/download_images.py:26-33 | the selected indices increase and each is accepted, with every group up to it at most `end` |
| DownloadImages.SelectedComplete | usage/bdrc/download_images.py:26-33 | an accepted group, with every group up to it at most `end`, is selected |
| DownloadImages.SelectedAt | usage/bdrc/download_images.py:27-33 | a group above `end` ends the selection; a group below `start` or in the skip text is passed over; any other group is selected |
| DownloadImages.EmptyGroupRejected | usage/bdrc/download_images.py:32-33 | an empty image-group id is always skipped, since it occurs in every text |
| DownloadImages.SkipMatchesSubstrings | usage/bdrc/download_images.py:32 | the skip text is searched, not split, so `I12` is skipped by `I1234,I5678` |
| DownloadImages.DefaultsSelectNonEmpty | usage/bdrc/download_images.py:49-55 | with the defaults, a volume is selected exactly when its image-group id is non-empty |
| DownloadImages.ProcessRunSelects | usage/bdrc/download_images.py:24-40 | the loop stages a prefix of the selection, all of it when nothing raises, and a non-empty prefix otherwise |
| DownloadImages.ProcessRunStages | usage/bdrc/download_images.py:24-40 | the files and the outcome are those of staging the selection in order |
| DownloadImages.Process | usage/bdrc/download_images.py:24-40 | the attempted indices are a prefix of the selection, all of it on success; the files are those of staging the selection |
| DownloadImages.StageAllExtends | usage/bdrc/download_images.py:35-40 | staging never changes a file and adds files only inside the staged volumes' folders |
| DownloadImagegroups.StageVolume | usage/bdrc/download_iamgegroups.py:35-40 | a volume's listed images are staged into `missing-imagegroups` |
| DownloadImagegroups.ProcessRunSelects | usage/bdrc/download_iamgegroups.py:24-40 | the loop stages a prefix of the selection, all of it when nothing raises |
| DownloadImagegroups.ProcessRunStages | usage/bdrc/download_iamgegroups.py:24-40 | the files and the outcome are those of staging the selection in order |
| DownloadImagegroups.Process | usage/bdrc/download_iamgegroups.py:24-40 | volumes are queried by the local id; the attempted indices are a prefix of the selection, all of it on success; the files are those of staging the selection |
| DownloadImagegroups.StageAllExtends | usage/bdrc/download_iamgegroups.py:35-40 | staging never changes a file and adds files only inside the staged volumes' folders |
| DownloadOcrOutput.GetS3KeyParts | usage/bdrc/download_ocr_output.py:24-25 | a key starts with its folder and ends, after its last `/`, with the file name |
| DownloadOcrOutput.FetchOutput | usage/bdrc/download_ocr_output.py:44 | the object is found exactly when it exists and its download does not fail; any other failure raises |
| DownloadOcrOutput.FetchResultsExtends | usage/bdrc/download_ocr_output.py:38-46 | downloading never changes a local file, and each added file is a listed image's result with the object's exact bytes |
| DownloadOcrOutput.FetchResultsComplete | usage/bdrc/download_ocr_output.py:38-46 | after a download that did not raise, every listed image's result is present unless the bucket has no such object |
| DownloadOcrOutput.SaveFile | usage/bdrc/download_ocr_output.py:28-31 | the bytes are written unchanged to `dir/fn` |
| DownloadOcrOutput.DownloadOcrResultForVol | usage/bdrc/download_ocr_output.py:34-46 | the files and the outcome are those of the download specification over the listed images |
| DownloadOcrOutput.Process | usage/bdrc/download_ocr_output.py:49-68 | every volume is downloaded in query order, and the first error stops the loop |
| DownloadOcrOutput.ProcessExtends | usage/bdrc/download_ocr_output.py:49-68 | over a whole work, no local file is changed or removed |
| S3ToOpf.SaveJsonOutput | usage/bdrc/s3_to_opf.py:10-13 | the bytes are written unchanged to `dir/fn` |
| S3ToOpf.DownloadOcrOutputForVol | usage/bdrc/s3_to_opf.py:16-32 | an empty image-group id raises and changes nothing; otherwise the results are downloaded from the `output` prefix |
| S3ToOpf.ProcessWork | usage/bdrc/s3_to_opf.py:34-50 | downloads follow the download specification; conversion runs exactly when nothing raised and the work has a volume, on `archive/output/<work>` |
| ImgOcr.GoogleOcr | img2opf/ocr.py:11-26 | bytes go straight to Vision; a path is read first and fails when the file is missing |
| ImgOcr.GoogleOcrPathIsBytes | img2opf/ocr.py:16-20 | passing a path is the same as passing that file's bytes |
| ImgOcr.ImageNames | img2opf/ocr.py:55 | the selected names are exactly the listed names with an image suffix |
| ImgOcr.ImageNameBySuffix | img2opf/ocr.py:55 | selection goes by the case-sensitive extension after the last dot; a name that is only an extension is never selected |
| ImgOcr.SliceFrom | img2opf/ocr.py:60 | Python `s[k:]` for any integer `k`, with negative `k` counting from the end |
| ImgOcr.StartPageZeroTakesLast | img2opf/ocr.py:60 | start page 0 keeps only the last image |
| ImgOcr.CombineCollects | img2opf/ocr.py:59-69 | in combine mode the loop writes nothing, and when nothing raised it collects each annotated image's first text, in order |
| ImgOcr.TextNameInjective | img2opf/ocr.py:66 | two images share a text file only when they share a stem |
| ImgOcr.PerImageFiles | img2opf/ocr.py:60-67 | in per-image mode, a run that does not raise adds exactly the text files of annotated images and changes no other file |
| ImgOcr.PerImageLastWins | img2opf/ocr.py:64-67 | each text file holds the text of the last annotated image with that stem |
| ImgOcr.OcrDirectory | img2opf/ocr.py:51-73 | the selection is the image-suffixed names, sorted in combine mode; the loop runs from index `n - 1`; in combine mode a non-empty text list is joined by two blank lines into `<dir name>.txt` |
| ImageToText.WorkUris | usage/bdrc/image_to_text.py:26-29 | each id read is non-empty and paired with its resource URI |
| ImageToText.WorkUrisNonEmpty | usage/bdrc/image_to_text.py:27-28 | non-empty lines are read as themselves, in order |
| ImageToText.GetWorkIdsRoundTrip | usage/bdrc/image_to_text.py:26-29 | ids written one per line read back unchanged, with no stripping |
| ImageToText.EmptyLinesIgnored | usage/bdrc/image_to_text.py:27-28 | trailing empty lines add no work |
| ImageToText.PageNameInjective | usage/bdrc/image_to_text.py:84 | different responses never share a page file name |
| ImageToText.AssembleVolume | usage/bdrc/image_to_text.py:73-88 | the loop raises exactly when a response is malformed; on success the text is the page texts with page breaks; the files are the page JSONs plus `base.txt` |
| ImageToText.VolumeTextAppend | usage/bdrc/image_to_text.py:77-81 | the text of consecutive runs of responses is the concatenation of their texts |
| ImageToText.BlankAddsNothing | usage/bdrc/image_to_text.py:79 | a blank response adds nothing to the volume text |
| ImageToText.VolumeTextShape | usage/bdrc/image_to_text.py:73-81 | the text is empty exactly when no response is annotated, and otherwise ends with a page break |
| ImageToText.PagesWritten | usage/bdrc/image_to_text.py:77-85 | when nothing raises there is exactly one JSON per annotated response, named by its index among all responses; no other file changes |
| AllVolumes.AnchorTuple | download_all_volumes.py:14-18 | a link yields a tuple exactly when it has at least two `%` |
| AllVolumes.AnchorTupleRoundTrip | download_all_volumes.py:14-19 | a link whose segments 1, 2 and last end in `C<code>`, `C<volume>` and `C<count>` yields exactly those three |
| AllVolumes.PageLength | download_all_volumes.py:8-21 | one tuple per anchor, in document order; it fails exactly when an anchor has no `href` or too few segments |
| AllVolumes.WorkNameOf | download_all_volumes.py:25 | the work name is the last path component, cut at its first `.` |
| AllVolumes.PageFileInjective | download_all_volumes.py:33 | different pages never share a file name |
| AllVolumes.SaveVolumePages | download_all_volumes.py:31-34 | the files and the outcome are those of the page loop from 1 to the count, where each page file is opened (emptied) before its request |
| AllVolumes.PagesFailed | download_all_volumes.py:31-34 | a loop that raised stops at a page whose request failed, leaving that page's file empty and every earlier page holding its body |
| AllVolumes.DownloadAllVolumes | download_all_volumes.py:24-34 | the links are those of `page_length`, and a bad anchor changes nothing; otherwise each volume's pages are saved in order, and a failed request leaves its page file empty |
| AllVolumes.PagesWritten | download_all_volumes.py:31-34 | a loop that does not raise writes each page with the body fetched for its request, replaces a same-named file, and changes nothing else |
| AllVolumes.PagesWrittenKeys | download_all_volumes.py:31-34 | the files after the loop are the earlier ones plus the pages |
| AllVolumes.PagesWrittenOthers | download_all_volumes.py:31-34 | files that are not pages of the loop keep their contents |
| AllVolumes.PagesWrittenBodies | download_all_volumes.py:31-34 | each page holds the body fetched for it |

## Left out

- Network services are parameters, not code:
  - S3 through boto3 and botocore;
  - the image listing and the volume query (`get_s3_image_list`, `get_volume_infos`);
  - Google Vision;
  - `urlopen`;
  - the OpenPecha `CatalogManager`.
  Each is a field of `VolumeSteps.Env` or a function argument. The model states what is done with the answers.
- `get_s3_image_list` returns `{}` when the listing fails, and iterating over it yields nothing. The model's image list is empty in that case.
- `get_volume_infos` names an undefined variable at usage/bdrc/bdrc_ocr.py:120 when the query fails, so that path raises `NameError`. The model's volume query always answers.
- `is_archived` treats any client error of `head_object` as "not archived". The model checks only whether the key is present.
- MD5, gzip, base64, JSON (de)serialisation, `eval` and `MessageToJson` are opaque functions. The `info.json` payload, with its wall-clock timestamp, is opaque bytes.
- Pillow's decoding, autocontrast and encoding in `save_file` are the opaque `convert`, which gives the encoded image, "cannot open" (skipped) or "save failed" (raises). A partly written file left by a failing `save` is not modelled: the model writes nothing in that case. `resize` (usage/bdrc/prepare_training_data.py:114-137) is not modelled: it is OpenCV floating-point image scaling.
- A path is the sequence of its components (`Storage.Path`). pathlib drops empty components and collapses a leading `//`, and the model does not. A blank work id, or an empty incoming image group, gives a path with an `""` component, where Python writes one level higher. `TrainingData.PathString` of an absolute path starts with `//`, where `str(Path(...))` starts with one `/`. The files match one to one, except where two such paths collide in Python.
- `mkdir` calls are not modelled. A directory exists when a file lies below it, so an empty directory is not represented.
- These are left out:
  - logging, printing and tqdm;
  - the Slack notifier and `show_error`;
  - `catalog.batch`, `update_catalog` and `delete_repo` in the main block;
  - the `GeneratorExit` branch.
- `os.execv` and `sys.exit` (usage/bdrc/bdrc_ocr.py:453-467) are the run outcomes `Restarted` and `Exited`.
- The parallel `ProcessPoolExecutor` map in usage/bdrc/image_to_text.py:66-70 is not modelled: the responses are an already-ordered sequence. Fetching the IIIF image and calling Vision (`run_ocr`) are also outside the model.
- BeautifulSoup parsing in download_all_volumes.py is not modelled: the page's anchors are the input, as optional `href` strings.
- `get_value` on a URI outside the `bdr:` namespace yields a prefix generated by rdflib. The model returns `None` for it.
- usage/bdrc-ocr.py holds only stubs; img2opf/pecha.py is an unfinished class. Neither is part of this model.
- Several call sites in the helper scripts fail with `TypeError` as written. The model gives them their evident intent:
  - usage/bdrc/download_iamgegroups.py:35-40 passes `imagelist=` to the pipeline's `save_images_for_vol`, which has no such parameter. `DownloadImagegroups.StageVolume` stages the volume's listed images.
  - usage/bdrc/download_ocr_output.py:44 and usage/bdrc/s3_to_opf.py:31 pass two arguments to the one-argument `get_s3_bits`. `DownloadOcrOutput.FetchOutput` reads the OCR output bucket they name.
  - usage/bdrc/prepare_training_data.py:81 passes two arguments to `get_volume_infos`. The volume query is the `query` parameter of `TrainingData.ProcessWork`.
- VolumeSteps.CleanUp: when `data_path` holds a plain file, Python may already have removed some folders before `rmtree` raises. The model says only that the same files remain. With neither a work nor an image group, `iterdir` on a `data_path` that was never created raises `FileNotFoundError`; the model cannot tell a missing folder from an empty one, so it returns success there.
- VolumeSteps.ApplyOcrOnFolder names results by the text before the first dot, the corrected rule (see Findings). The as-written stem rule is `VolumeSteps.OcrResultNameAsWritten`.
- CheckPoints.CheckPoint.Load reads a missing `imagegroup` key as "no pointer", the corrected behaviour (see Findings). The as-written load is `CheckPoints.ParseCheckPoint`.
- Works.OcrVolume and Works.ArchiveVolume state what the volume loop needs: where files are added, which objects may change, and that each staged image and result reaches the bucket. They do not state the objects' bytes; `VolumeSteps.ApplyOcrOnFolder` and `VolumeSteps.ArchiveOnS3` carry the full contracts.
- Works.RunBatch, Works.RunInputFile and Works.RunWork do not model the catalog's five-work batching. They also do not model which part of the work the restarted process redoes.
- TrainingData.TrainingMain states the selection only when staging succeeds. On failure, `TrainingData.ProcessWork` gives the prefix.
- `rename` is modelled only for the folder the script names. `TrainingData.RenameFresh` covers the case where no `vNNN` name exists yet. A collision follows `shutil.move`'s rules through `Storage.MoveResult`, but no lemma is stated about it.
- BdrcKeys.GetS3PrefixPath: the numbered-group test (`BdrcKeys.IsNumberedGroup`, used by `BdrcKeys.GroupSuffix`) accepts ASCII digits only. Python's `rest.isdigit()` (usage/bdrc/bdrc_ocr.py:144) is also true for other Unicode digits, such as Tibetan `༠`-`༩` or `²`. For such an image group, Python drops the `I` from the key and the model keeps it.
- Decimal.ParseInt: reads ASCII digits only. Python's `int` also accepts other Unicode decimal digits (Arabic-Indic, Tibetan and so on), which are not modelled.
- Python's `str < str` is compared by code point. `StrOrder.LexLess` compares `char` values, which is the same order.

## Findings

| source | as written | input that shows it | evidently intended | confidence | as-written member | corrected member |
|---|---|---|---|---|---|---|
| usage/bdrc/bdrc_ocr.py:416-431 | `load_check_point` reads `check_point['imagegroup']` unconditionally, but `save_check_point(work=...)` writes that key only when some image group was saved earlier in the same run | a run whose first save is for a completed work writes `{"work": ["W1"]}`; the next run's load raises `KeyError` | a missing `imagegroup` key means "no resume point" | not executed | CheckPoints.CompletedWorkCheckPoint | CheckPoints.ParseCheckPointFixed |
| usage/bdrc/bdrc_ocr.py:250 | `apply_ocr_on_folder` names the result by pathlib's stem, which drops only the last suffix, while `image_exists_locally` (line 209) and the downloaders cut at the first dot | the image `a.b.jpg` gets the result `a.b.json.gz`, but `image_exists_locally` looks for `a.json.gz`, so the image is fetched again after its OCR | one naming rule, the text before the first dot | not executed | VolumeSteps.StemNamingMissesResult | VolumeSteps.StagedResultRecognised |
