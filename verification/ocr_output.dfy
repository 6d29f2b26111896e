/**
 * usage/bdrc/download_ocr_output.py: fetching the OCR results of a work's
 * volumes back from the OCR output bucket into the local output folder, one
 * `<stem>.json.gz` per listed image, skipping results already present.
 *
 * The bucket is read, never written: its objects are `store.objects`, and the
 * keys whose download fails with an error other than 404 are `broken`.
 */
module DownloadOcrOutput {
  import opened Wrappers
  import opened Storage
  import opened BdrcKeys
  import opened VolumeSteps
  import Strs

  /** get_s3_key: the object key of a file in a bucket "folder". */
  function GetS3Key(prefix: string, fn: string): string
  {
    prefix + "/" + fn
  }

  /** A key splits back into its folder and, when the name has no `/`, its file name. */
  lemma GetS3KeyParts(prefix: string, fn: string)
    requires '/' !in fn
    ensures Strs.AfterLast(GetS3Key(prefix, fn), '/') == fn
    ensures GetS3Key(prefix, fn)[..|prefix|] == prefix
  {
    assert GetS3Key(prefix, fn) == prefix + ['/'] + fn;
    Strs.AfterLastOf(prefix, '/', fn);
  }

  /** `get_s3_bits` on the output bucket: the object, a 404, or another error. */
  function FetchOutput(objects: map<string, Bytes>, broken: set<string>, key: string): (r: Fetch)
    ensures r.Found? <==> key !in broken && key in objects
    ensures r.Found? ==> r.bits == objects[key]
    ensures r.Raised? <==> key in broken
  {
    if key in broken then Raised
    else if key in objects then Found(objects[key])
    else NotFound
  }

  /**
   * The download loop, image by image: an image whose result file is already in
   * `dir` is skipped; otherwise the result is fetched from `<prefix>/<result name>`,
   * a 404 is skipped, any other error ends the loop, and fetched bytes are
   * written verbatim. The result is the files and whether a fetch raised.
   */
  function FetchResults(objects: map<string, Bytes>, broken: set<string>, files: Files, dir: Path,
                        prefix: string, names: seq<string>): (Files, bool)
    decreases |names|
  {
    if names == [] then (files, false)
    else
      var fn := OcrResultName(names[0]);
      if dir + [fn] in files then FetchResults(objects, broken, files, dir, prefix, names[1..])
      else match FetchOutput(objects, broken, GetS3Key(prefix, fn))
        case Raised => (files, true)
        case NotFound => FetchResults(objects, broken, files, dir, prefix, names[1..])
        case Found(bits) => FetchResults(objects, broken, files[dir + [fn] := bits], dir, prefix, names[1..])
  }

  /** File `p` with contents `b` is the result of one of `names`, downloaded verbatim. */
  predicate DownloadedFrom(objects: map<string, Bytes>, dir: Path, prefix: string, names: seq<string>, p: Path, b: Bytes)
  {
    exists i :: 0 <= i < |names| && p == dir + [OcrResultName(names[i])]
      && GetS3Key(prefix, OcrResultName(names[i])) in objects
      && b == objects[GetS3Key(prefix, OcrResultName(names[i]))]
  }

  /**
   * Downloading never changes or removes a local file, and every file it adds
   * is a listed image's result holding exactly the bucket object's bytes.
   */
  lemma {:induction false} FetchResultsExtends(objects: map<string, Bytes>, broken: set<string>, files: Files,
                                               dir: Path, prefix: string, names: seq<string>)
    ensures var r := FetchResults(objects, broken, files, dir, prefix, names).0;
      && Extends(files, r)
      && forall p :: p in r && p !in files ==> DownloadedFrom(objects, dir, prefix, names, p, r[p])
    decreases |names|
  {
    if names != [] {
      var fn := OcrResultName(names[0]);
      var key := GetS3Key(prefix, fn);
      var r := FetchResults(objects, broken, files, dir, prefix, names).0;
      if dir + [fn] !in files && FetchOutput(objects, broken, key).Raised? {
      } else {
        var next := if dir + [fn] !in files && FetchOutput(objects, broken, key).Found? then files[dir + [fn] := objects[key]] else files;
        assert r == FetchResults(objects, broken, next, dir, prefix, names[1..]).0;
        FetchResultsExtends(objects, broken, next, dir, prefix, names[1..]);
        forall p | p in r && p !in files ensures DownloadedFrom(objects, dir, prefix, names, p, r[p]) {
          if p in next {
            assert p == dir + [OcrResultName(names[0])];
          } else {
            var i :| 0 <= i < |names[1..]| && p == dir + [OcrResultName(names[1..][i])]
              && GetS3Key(prefix, OcrResultName(names[1..][i])) in objects
              && r[p] == objects[GetS3Key(prefix, OcrResultName(names[1..][i]))];
            assert names[1..][i] == names[i + 1];
          }
        }
      }
    }
  }

  /**
   * After a download that did not raise, every listed image's result is
   * present locally unless the bucket has no object for it.
   */
  lemma {:induction false} FetchResultsComplete(objects: map<string, Bytes>, broken: set<string>, files: Files,
                                                dir: Path, prefix: string, names: seq<string>)
    requires !FetchResults(objects, broken, files, dir, prefix, names).1
    ensures forall i :: 0 <= i < |names| ==>
      dir + [OcrResultName(names[i])] in FetchResults(objects, broken, files, dir, prefix, names).0
      || GetS3Key(prefix, OcrResultName(names[i])) !in objects
    decreases |names|
  {
    if names != [] {
      var fn := OcrResultName(names[0]);
      var key := GetS3Key(prefix, fn);
      var next := if dir + [fn] !in files && FetchOutput(objects, broken, key).Found? then files[dir + [fn] := objects[key]] else files;
      var r := FetchResults(objects, broken, files, dir, prefix, names).0;
      assert r == FetchResults(objects, broken, next, dir, prefix, names[1..]).0;
      FetchResultsComplete(objects, broken, next, dir, prefix, names[1..]);
      FetchResultsExtends(objects, broken, next, dir, prefix, names[1..]);
      forall i | 0 <= i < |names|
        ensures dir + [OcrResultName(names[i])] in r || GetS3Key(prefix, OcrResultName(names[i])) !in objects
      {
        if i > 0 {
          assert names[i] == names[1..][i - 1];
        }
      }
    }
  }

  /**
   * save_file: the fetched bytes are written verbatim to `dir/fn`, replacing any
   * file there.
   */
  method SaveFile(fs: LocalFs, bits: Bytes, fn: string, dir: Path)
    modifies fs
    ensures fs.files == old(fs.files)[dir + [fn] := bits]
  {
    fs.WriteBytes(dir + [fn], bits);
  }

  /**
   * download_ocr_result_for_vol: the results of the volume's listed images are
   * downloaded from the `output` folder of the volume's service paths into
   * `<outputBase>/<work>/<imagegroup>`, exactly as `FetchResults` describes.
   */
  method DownloadOcrResultForVol(env: Env, fs: LocalFs, store: ObjectStore, broken: set<string>,
                                 volumePrefixUrl: string, work: string, imagegroup: string,
                                 outputBase: Path, ocrPaths: map<string, string>)
    returns (ok: bool)
    requires OUTPUT in ocrPaths
    modifies fs
    ensures (fs.files, !ok) == FetchResults(store.objects, broken, old(fs.files), outputBase + [work, imagegroup],
                                            ocrPaths[OUTPUT], env.imageList(volumePrefixUrl))
  {
    var prefix := ocrPaths[OUTPUT];
    var names := env.imageList(volumePrefixUrl);
    var dir := outputBase + [work, imagegroup];
    ghost var all := FetchResults(store.objects, broken, fs.files, dir, prefix, names);
    var k := 0;
    while k < |names|
      invariant 0 <= k <= |names|
      invariant all == FetchResults(store.objects, broken, fs.files, dir, prefix, names[k..])
    {
      assert names[k..][1..] == names[k + 1..];
      var fn := OcrResultName(names[k]);
      if dir + [fn] in fs.files {
        k := k + 1;
        continue;
      }
      var filebits := FetchOutput(store.objects, broken, GetS3Key(prefix, fn));
      if filebits.Raised? {
        return false;
      }
      if filebits.Found? {
        SaveFile(fs, filebits.bits, fn, dir);
      }
      k := k + 1;
    }
    ok := true;
  }

  /** The volume loop of process, volume by volume: a volume with an empty image-group id raises. */
  function ProcessFrom(env: Env, objects: map<string, Bytes>, broken: set<string>, files: Files, local: string,
                       vols: seq<VolumeInfo>): (Files, bool)
    decreases |vols|
  {
    if vols == [] then (files, false)
    else if vols[0].imagegroup == "" then (files, true)
    else
      var prefix := DataTypePrefix(BatchDir(HashBucket(env.md5hex, local), local, SERVICE, BATCH_PREFIX),
                                   OUTPUT, local, vols[0].imagegroup);
      var (next, raised) := FetchResults(objects, broken, files, OCR_BASE_DIR + [local, vols[0].imagegroup], prefix,
                                         env.imageList(vols[0].volumePrefixUrl));
      if raised then (next, true) else ProcessFrom(env, objects, broken, next, local, vols[1..])
  }

  /**
   * process: for every volume of the work, in query order, the service paths
   * are computed with the data types `images` and `output`, and the volume's
   * results are downloaded from the `output` prefix into
   * `archive/output/<work>/<imagegroup>`; the first error stops the loop.
   */
  method Process(env: Env, fs: LocalFs, store: ObjectStore, broken: set<string>, work: string)
    returns (ok: bool)
    modifies fs
    ensures var (local, qualified) := GetWorkLocalId(work);
      (fs.files, !ok) == ProcessFrom(env, store.objects, broken, old(fs.files), local, env.volumeInfos(qualified))
  {
    var (local, qualified) := GetWorkLocalId(work);
    var vols := env.volumeInfos(qualified);
    ghost var all := ProcessFrom(env, store.objects, broken, fs.files, local, vols);
    var k := 0;
    while k < |vols|
      invariant 0 <= k <= |vols|
      invariant all == ProcessFrom(env, store.objects, broken, fs.files, local, vols[k..])
    {
      assert vols[k..][0] == vols[k] && vols[k..][1..] == vols[k + 1..];
      var paths := GetS3PrefixPath(env.md5hex, local, vols[k].imagegroup, Some(SERVICE), BATCH_PREFIX, [IMAGES, OUTPUT]);
      if paths.Failure? {
        return false;
      }
      assert OUTPUT in [IMAGES, OUTPUT];
      var done := DownloadOcrResultForVol(env, fs, store, broken, vols[k].volumePrefixUrl, local, vols[k].imagegroup,
                                          OCR_BASE_DIR, paths.value.paths);
      if !done {
        return false;
      }
      k := k + 1;
    }
    ok := true;
  }

  /** Downloading never changes or removes a local file, over all of a work's volumes. */
  lemma {:induction false} ProcessExtends(env: Env, objects: map<string, Bytes>, broken: set<string>, files: Files,
                                          local: string, vols: seq<VolumeInfo>)
    ensures Extends(files, ProcessFrom(env, objects, broken, files, local, vols).0)
    decreases |vols|
  {
    if vols != [] && vols[0].imagegroup != "" {
      var prefix := DataTypePrefix(BatchDir(HashBucket(env.md5hex, local), local, SERVICE, BATCH_PREFIX),
                                   OUTPUT, local, vols[0].imagegroup);
      var dir := OCR_BASE_DIR + [local, vols[0].imagegroup];
      var names := env.imageList(vols[0].volumePrefixUrl);
      FetchResultsExtends(objects, broken, files, dir, prefix, names);
      var next := FetchResults(objects, broken, files, dir, prefix, names).0;
      ProcessExtends(env, objects, broken, next, local, vols[1..]);
    }
  }
}
