/**
 * usage/bdrc/s3_to_opf.py: fetching a work's OCR results back from the OCR
 * output bucket and, when the work has at least one volume, handing the local
 * output folder to the OpenPecha converter.
 *
 * The downloads follow the same rules as usage/bdrc/download_ocr_output.py
 * (`DownloadOcrOutput.FetchResults`); only the service paths are computed with
 * the single data type `output`.
 */
module S3ToOpf {
  import opened Wrappers
  import opened Storage
  import opened BdrcKeys
  import opened VolumeSteps
  import opened DownloadOcrOutput

  /** save_json_output: the fetched bytes are written verbatim to `dir/fn`. */
  method SaveJsonOutput(fs: LocalFs, bits: Bytes, fn: string, dir: Path)
    modifies fs
    ensures fs.files == old(fs.files)[dir + [fn] := bits]
  {
    fs.WriteBytes(dir + [fn], bits);
  }

  /** The `output` folder of a volume in the OCR output bucket. */
  function OutputPrefix(env: Env, work: string, imagegroup: string): string
  {
    DataTypePrefix(BatchDir(HashBucket(env.md5hex, work), work, SERVICE, BATCH_PREFIX), OUTPUT, work, imagegroup)
  }

  /**
   * download_ocr_output_for_vol: the service paths are computed for the single
   * data type `output` (an empty image-group id raises), then each listed
   * image's `<stem>.json.gz` missing from `<ocrBase>/<work>/<imagegroup>` is
   * fetched from `<output prefix>/<stem>.json.gz` and written when found.
   */
  method DownloadOcrOutputForVol(env: Env, fs: LocalFs, store: ObjectStore, broken: set<string>,
                                 volumePrefixUrl: string, work: string, imagegroup: string, ocrBase: Path)
    returns (ok: bool)
    modifies fs
    ensures imagegroup == "" ==> !ok && fs.files == old(fs.files)
    ensures imagegroup != "" ==>
      (fs.files, !ok) == FetchResults(store.objects, broken, old(fs.files), ocrBase + [work, imagegroup],
                                      OutputPrefix(env, work, imagegroup), env.imageList(volumePrefixUrl))
  {
    var paths := GetS3PrefixPath(env.md5hex, work, imagegroup, Some(SERVICE), BATCH_PREFIX, [OUTPUT]);
    if paths.Failure? {
      return false;
    }
    assert OUTPUT in [OUTPUT];
    var prefix := paths.value.paths[OUTPUT];
    var names := env.imageList(volumePrefixUrl);
    var dir := ocrBase + [work, imagegroup];
    ghost var all := FetchResults(store.objects, broken, fs.files, dir, prefix, names);
    var k := 0;
    while k < |names|
      invariant 0 <= k <= |names|
      invariant all == FetchResults(store.objects, broken, fs.files, dir, prefix, names[k..])
    {
      assert names[k..][1..] == names[k + 1..];
      var fn := OcrResultName(names[k]);
      if dir + [fn] in fs.files {
        k := k + 1;
        continue;
      }
      var filebits := FetchOutput(store.objects, broken, GetS3Key(prefix, fn));
      if filebits.Raised? {
        return false;
      }
      if filebits.Found? {
        SaveJsonOutput(fs, filebits.bits, fn, dir);
      }
      k := k + 1;
    }
    ok := true;
  }

  /**
   * process_work: every volume of the work is downloaded in query order into
   * `archive/output/<work>/<imagegroup>`, with the same effect as
   * download_ocr_output.py's process; the first error stops the work. The
   * OpenPecha conversion of `archive/output/<work>` runs, after all volumes,
   * exactly when the work has at least one volume.
   */
  method ProcessWork(env: Env, fs: LocalFs, store: ObjectStore, broken: set<string>, work: string)
    returns (ok: bool, converted: Option<Path>)
    modifies fs
    ensures var (local, qualified) := GetWorkLocalId(work);
      && (fs.files, !ok) == ProcessFrom(env, store.objects, broken, old(fs.files), local, env.volumeInfos(qualified))
      && (converted.Some? <==> ok && env.volumeInfos(qualified) != [])
      && (converted.Some? ==> converted.value == OCR_BASE_DIR + [local])
  {
    var (local, qualified) := GetWorkLocalId(work);
    var vols := env.volumeInfos(qualified);
    ghost var all := ProcessFrom(env, store.objects, broken, fs.files, local, vols);
    var isWorkEmpty := true;
    var k := 0;
    while k < |vols|
      invariant 0 <= k <= |vols|
      invariant isWorkEmpty <==> k == 0
      invariant all == ProcessFrom(env, store.objects, broken, fs.files, local, vols[k..])
    {
      assert vols[k..][0] == vols[k] && vols[k..][1..] == vols[k + 1..];
      isWorkEmpty := false;
      var done := DownloadOcrOutputForVol(env, fs, store, broken, vols[k].volumePrefixUrl, local, vols[k].imagegroup,
                                          OCR_BASE_DIR);
      if !done {
        return false, None;
      }
      k := k + 1;
    }
    ok := true;
    converted := if !isWorkEmpty then Some(OCR_BASE_DIR + [local]) else None;
  }
}
