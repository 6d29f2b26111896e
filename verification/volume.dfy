/**
 * The per-volume steps of usage/bdrc/bdrc_ocr.py: staging a volume's images
 * from the archive bucket into `archive/images/<work>/<imagegroup>`, running OCR
 * on every staged image into `archive/output/<work>/<imagegroup>`, archiving
 * both folders to the OCR output bucket, and cleaning the local folders up.
 *
 * The services the steps call are the fields of `Env`; the local file system
 * and the output bucket are the `LocalFs` and `ObjectStore` objects they change.
 */
module VolumeSteps {
  import opened Wrappers
  import opened Storage
  import opened BdrcKeys
  import Strs

  /** One row of the volumes-for-work query. */
  datatype VolumeInfo = VolumeInfo(volNum: string, volumePrefixUrl: string, imagegroup: string)

  /** The image groups of a list of volumes, in order. */
  function ImageGroups(vols: seq<VolumeInfo>): (r: seq<string>)
  {
    seq(|vols|, i requires 0 <= i < |vols| => vols[i].imagegroup)
  }

  /**
   * What Pillow does with a fetched image: open and autocontrast it and encode it
   * for the target name; or fail while opening or adjusting (logged and skipped);
   * or fail while encoding or writing, which `img.save` raises.
   */
  datatype Converted = Encoded(image: Bytes) | Unreadable | Unsavable

  /** What publishing a work's OCR output as an OpenPecha repository can end in. */
  datatype PublishResult = PublishOk | GithubError | OtherError

  /**
   * The services the pipeline calls. Each is a function of its arguments, so the
   * model says what is done with the answers, not how they are produced.
   */
  datatype Env = Env(
    md5hex: string -> string,                    // hex digest of `hashlib.md5`
    volumeInfos: string -> seq<VolumeInfo>,      // volumes of a `bdr:` work, in the order the query returns them
    imageList: string -> seq<string>,            // file names of a volume's images (empty when the listing fails)
    archive: map<string, Bytes>,                 // objects of the archive bucket
    broken: set<string>,                         // archive keys whose download fails with an error other than 404
    convert: (string, Bytes) -> Converted,       // Pillow on a fetched image, for the target name
    ocr: Bytes -> Option<string>,                // the Vision response for an image, None if the call raises
    gzip: string -> Bytes,                       // gzip_str
    info: Bytes,                                 // the serialized info.json
    putFails: set<string>,                       // output-bucket keys whose upload raises
    publish: string -> PublishResult             // ocr_to_opf on a work's output folder
  )

  /** `DATA_PATH`, `IMAGES_BASE_DIR` and `OCR_BASE_DIR`. */
  const DATA_PATH: Path := ["archive"]
  const IMAGES_BASE_DIR: Path := DATA_PATH + [IMAGES]
  const OCR_BASE_DIR: Path := DATA_PATH + [OUTPUT]

  /** Outcome of `get_s3_bits`: the object, a 404 (logged and skipped), or any other error (raised). */
  datatype Fetch = Found(bits: Bytes) | NotFound | Raised

  function GetS3Bits(env: Env, key: string): (r: Fetch)
    ensures r.Found? <==> key !in env.broken && key in env.archive
    ensures r.Found? ==> r.bits == env.archive[key]
    ensures r.Raised? <==> key in env.broken
  {
    if key in env.broken then Raised
    else if key in env.archive then Found(env.archive[key])
    else NotFound
  }

  // ---------------------------------------------------------------------------
  // staging images

  /**
   * The folder an image folder's OCR results are looked for in: its second path
   * component replaced by `output`.
   */
  function OutputDirOf(dir: Path): Path
    requires |dir| >= 2
  {
    dir[1 := OUTPUT]
  }

  /** For the pipeline's own folders the OCR results are looked for exactly where OCR writes them. */
  lemma OutputDirOfImagesDir(work: string, imagegroup: string)
    ensures OutputDirOf(IMAGES_BASE_DIR + [work, imagegroup]) == OCR_BASE_DIR + [work, imagegroup]
  {
  }

  /**
   * image_exists_locally: the staged file is there, or the image's OCR result is.
   */
  predicate ImageExistsLocally(files: Files, filename: string, dir: Path)
    requires |dir| >= 2
  {
    dir + [StagedName(filename)] in files || OutputDirOf(dir) + [OcrResultName(filename)] in files
  }

  /** The files `save_file` leaves behind (`save_file` itself only adds the staged file, or nothing). */
  function SavedFile(env: Env, files: Files, bits: Bytes, filename: string, dir: Path): Files
  {
    var target := dir + [StagedName(filename)];
    if target in files then files
    else match env.convert(StagedName(filename), bits)
      case Encoded(image) => files[target := image]
      case _ => files
  }

  /** Whether `save_file` raises: the image is not staged yet and Pillow cannot encode or write it. */
  predicate SaveRaises(env: Env, files: Files, bits: Bytes, filename: string, dir: Path)
  {
    dir + [StagedName(filename)] !in files && env.convert(StagedName(filename), bits).Unsavable?
  }

  /**
   * save_file: an image already staged is left alone; otherwise Pillow's
   * re-encoding is written under the staged name, nothing is written when Pillow
   * cannot open the bytes, and a failing `img.save` raises (`ok` is false).
   */
  method SaveFile(env: Env, fs: LocalFs, bits: Bytes, filename: string, dir: Path) returns (ok: bool)
    modifies fs
    ensures dir + [StagedName(filename)] in old(fs.files) ==> ok && fs.files == old(fs.files)
    ensures dir + [StagedName(filename)] !in old(fs.files) ==>
      match env.convert(StagedName(filename), bits)
      case Encoded(image) => ok && fs.files == old(fs.files)[dir + [StagedName(filename)] := image]
      case Unreadable => ok && fs.files == old(fs.files)
      case Unsavable => !ok && fs.files == old(fs.files)
    ensures fs.files == SavedFile(env, old(fs.files), bits, filename, dir)
    ensures ok <==> !SaveRaises(env, old(fs.files), bits, filename, dir)
  {
    var target := dir + [StagedName(filename)];
    if target in fs.files {
      return true;
    }
    var image := env.convert(StagedName(filename), bits);
    match image
    case Encoded(b) =>
      fs.WriteBytes(target, b);
      ok := true;
    case Unreadable =>
      ok := true;
    case Unsavable =>
      ok := false;
  }

  /** One image to stage: the archive key to fetch and the source file name. */
  datatype Request = Request(key: string, filename: string)

  /** The requests of save_images_for_vol: each listed file under the volume's image prefix. */
  function ImageRequests(prefix: string, names: seq<string>): (r: seq<Request>)
    ensures |r| == |names|
    ensures forall i :: 0 <= i < |names| ==> r[i] == Request(prefix + "/" + names[i], names[i])
  {
    seq(|names|, i requires 0 <= i < |names| => Request(prefix + "/" + names[i], names[i]))
  }

  /** The files after staging, the keys fetched in order, and whether a fetch raised (which stops the loop). */
  datatype StageOutcome = StageOutcome(files: Files, fetched: seq<string>, raised: bool)

  function Then(key: string, o: StageOutcome): StageOutcome
  {
    StageOutcome(o.files, [key] + o.fetched, o.raised)
  }

  function Prepend(keys: seq<string>, o: StageOutcome): StageOutcome
  {
    StageOutcome(o.files, keys + o.fetched, o.raised)
  }

  lemma PrependThen(keys: seq<string>, key: string, o: StageOutcome)
    ensures Prepend(keys, Then(key, o)) == Prepend(keys + [key], o)
  {
    assert keys + ([key] + o.fetched) == (keys + [key]) + o.fetched;
  }

  /**
   * Whether staging one image that is not present locally raises: its download
   * fails with an error other than a 404, or save_file raises on what was fetched.
   */
  predicate StepRaises(env: Env, files: Files, dir: Path, req: Request)
    requires |dir| >= 2
  {
    && !ImageExistsLocally(files, req.filename, dir)
    && match GetS3Bits(env, req.key)
       case Raised => true
       case NotFound => false
       case Found(bits) => SaveRaises(env, files, bits, req.filename, dir)
  }

  /** The files after staging one image, when that does not raise. */
  function StepFiles(env: Env, files: Files, dir: Path, req: Request): Files
    requires |dir| >= 2
  {
    if ImageExistsLocally(files, req.filename, dir) then files
    else match GetS3Bits(env, req.key)
      case Found(bits) => SavedFile(env, files, bits, req.filename, dir)
      case _ => files
  }

  /**
   * The staging loop, request by request: an image present locally is skipped;
   * otherwise it is fetched, a 404 is skipped, any other error ends the loop, and
   * a fetched image goes through save_file, whose raising also ends the loop.
   */
  function StageImages(env: Env, files: Files, dir: Path, reqs: seq<Request>): StageOutcome
    requires |dir| >= 2
    decreases |reqs|
  {
    if reqs == [] then StageOutcome(files, [], false)
    else
      var req := reqs[0];
      if ImageExistsLocally(files, req.filename, dir) then StageImages(env, files, dir, reqs[1..])
      else if StepRaises(env, files, dir, req) then StageOutcome(files, [req.key], true)
      else Then(req.key, StageImages(env, StepFiles(env, files, dir, req), dir, reqs[1..]))
  }

  /**
   * Staging never changes or removes a file, and every file it adds is the staged
   * name of a requested image, holding Pillow's re-encoding of that image's archive object.
   */
  lemma {:induction false} StageExtends(env: Env, files: Files, dir: Path, reqs: seq<Request>)
    requires |dir| >= 2
    ensures Extends(files, StageImages(env, files, dir, reqs).files)
    ensures var r := StageImages(env, files, dir, reqs).files;
      forall p :: p in r && p !in files ==>
        exists i :: 0 <= i < |reqs| && IsStagedFrom(env, reqs[i], dir, p, r[p])
    decreases |reqs|
  {
    if reqs != [] {
      var req := reqs[0];
      var r := StageImages(env, files, dir, reqs).files;
      var next := StepFiles(env, files, dir, req);
      if StepRaises(env, files, dir, req) {
        assert r == files;
      } else {
        assert r == StageImages(env, next, dir, reqs[1..]).files;
        StageExtends(env, next, dir, reqs[1..]);
        forall p | p in r && p !in files
          ensures exists i :: 0 <= i < |reqs| && IsStagedFrom(env, reqs[i], dir, p, r[p])
        {
          if p in next {
            assert IsStagedFrom(env, reqs[0], dir, p, r[p]);
          } else {
            var i :| 0 <= i < |reqs[1..]| && IsStagedFrom(env, reqs[1..][i], dir, p, r[p]);
            assert reqs[1..][i] == reqs[i + 1];
          }
        }
      }
    }
  }

  /** File `p` with contents `b` is request `req`'s image, staged into `dir`. */
  predicate IsStagedFrom(env: Env, req: Request, dir: Path, p: Path, b: Bytes)
  {
    && p == dir + [StagedName(req.filename)]
    && req.key in env.archive
    && env.convert(StagedName(req.filename), env.archive[req.key]) == Encoded(b)
  }

  /**
   * An image is settled in `files` when it is present locally, or when fetching it
   * would find nothing to stage (a 404, or bytes Pillow cannot open) without raising.
   */
  predicate Settled(env: Env, files: Files, dir: Path, req: Request)
    requires |dir| >= 2
  {
    ImageExistsLocally(files, req.filename, dir)
    || (req.key !in env.broken
        && (req.key !in env.archive || env.convert(StagedName(req.filename), env.archive[req.key]).Unreadable?))
  }

  lemma SettledGrows(env: Env, f: Files, g: Files, dir: Path, req: Request)
    requires |dir| >= 2
    requires Extends(f, g) && Settled(env, f, dir, req)
    ensures Settled(env, g, dir, req)
  {
  }

  /** After a staging run that did not raise, every requested image is settled. */
  lemma {:induction false} StageSettles(env: Env, files: Files, dir: Path, reqs: seq<Request>)
    requires |dir| >= 2
    requires !StageImages(env, files, dir, reqs).raised
    ensures forall i :: 0 <= i < |reqs| ==> Settled(env, StageImages(env, files, dir, reqs).files, dir, reqs[i])
    decreases |reqs|
  {
    if reqs != [] {
      var req := reqs[0];
      var r := StageImages(env, files, dir, reqs).files;
      var next := StepFiles(env, files, dir, req);
      assert r == StageImages(env, next, dir, reqs[1..]).files;
      assert Settled(env, next, dir, req);
      StageExtends(env, next, dir, reqs[1..]);
      StageSettles(env, next, dir, reqs[1..]);
      forall i | 0 <= i < |reqs| ensures Settled(env, r, dir, reqs[i]) {
        if i == 0 {
          SettledGrows(env, next, r, dir, req);
        } else {
          assert reqs[i] == reqs[1..][i - 1];
        }
      }
    }
  }

  /**
   * Staging requests that are all settled writes nothing and raises nothing; the
   * only fetches are of the images that are not present locally.
   */
  lemma {:induction false} StageSettledIsNoOp(env: Env, files: Files, dir: Path, reqs: seq<Request>)
    requires |dir| >= 2
    requires forall i :: 0 <= i < |reqs| ==> Settled(env, files, dir, reqs[i])
    ensures StageImages(env, files, dir, reqs).files == files
    ensures !StageImages(env, files, dir, reqs).raised
    ensures forall k :: k in StageImages(env, files, dir, reqs).fetched ==>
      exists i :: 0 <= i < |reqs| && reqs[i].key == k && !ImageExistsLocally(files, reqs[i].filename, dir)
    decreases |reqs|
  {
    if reqs != [] {
      var req := reqs[0];
      assert Settled(env, files, dir, req);
      assert forall i :: 0 <= i < |reqs[1..]| ==> Settled(env, files, dir, reqs[1..][i]) by {
        forall i | 0 <= i < |reqs[1..]| ensures Settled(env, files, dir, reqs[1..][i]) {
          assert reqs[1..][i] == reqs[i + 1];
        }
      }
      StageSettledIsNoOp(env, files, dir, reqs[1..]);
      var o := StageImages(env, files, dir, reqs);
      forall k | k in o.fetched
        ensures exists i :: 0 <= i < |reqs| && reqs[i].key == k && !ImageExistsLocally(files, reqs[i].filename, dir)
      {
        var tail := StageImages(env, files, dir, reqs[1..]);
        if k in tail.fetched {
          var i :| 0 <= i < |reqs[1..]| && reqs[1..][i].key == k && !ImageExistsLocally(files, reqs[1..][i].filename, dir);
          assert reqs[1..][i] == reqs[i + 1];
        } else {
          assert k == req.key && !ImageExistsLocally(files, req.filename, dir);
        }
      }
    }
  }

  /**
   * Staging is idempotent: after a run that did not raise, staging the same
   * requests again writes nothing, raises nothing, and fetches only images that
   * the first run could not stage.
   */
  lemma StageIdempotent(env: Env, files: Files, dir: Path, reqs: seq<Request>)
    requires |dir| >= 2
    requires !StageImages(env, files, dir, reqs).raised
    ensures var once := StageImages(env, files, dir, reqs).files;
      && StageImages(env, once, dir, reqs).files == once
      && !StageImages(env, once, dir, reqs).raised
      && forall k :: k in StageImages(env, once, dir, reqs).fetched ==>
           exists i :: 0 <= i < |reqs| && reqs[i].key == k && !ImageExistsLocally(once, reqs[i].filename, dir)
  {
    StageSettles(env, files, dir, reqs);
    StageSettledIsNoOp(env, StageImages(env, files, dir, reqs).files, dir, reqs);
  }

  /** An image already present locally is never fetched. */
  lemma {:induction false} StageSkipsPresent(env: Env, files: Files, dir: Path, reqs: seq<Request>)
    requires |dir| >= 2
    ensures forall k :: k in StageImages(env, files, dir, reqs).fetched ==>
      exists i :: 0 <= i < |reqs| && reqs[i].key == k && !ImageExistsLocally(files, reqs[i].filename, dir)
    decreases |reqs|
  {
    if reqs != [] {
      var req := reqs[0];
      var next := StepFiles(env, files, dir, req);
      var o := StageImages(env, files, dir, reqs);
      if !StepRaises(env, files, dir, req) {
        StageSkipsPresent(env, next, dir, reqs[1..]);
        StageExtends(env, files, dir, [req]);
        forall k | k in o.fetched
          ensures exists i :: 0 <= i < |reqs| && reqs[i].key == k && !ImageExistsLocally(files, reqs[i].filename, dir)
        {
          var tail := StageImages(env, next, dir, reqs[1..]);
          if k in tail.fetched {
            var i :| 0 <= i < |reqs[1..]| && reqs[1..][i].key == k && !ImageExistsLocally(next, reqs[1..][i].filename, dir);
            assert reqs[1..][i] == reqs[i + 1];
            assert Extends(files, next);
          } else {
            assert k == req.key && !ImageExistsLocally(files, req.filename, dir);
          }
        }
      }
    }
  }

  /**
   * save_images_for_vol: the volume's image list is staged into
   * `<imagesBase>/<work>/<imagegroup>` exactly as `StageImages` describes. An
   * empty image-group id raises before anything is listed or fetched.
   */
  method SaveImagesForVol(env: Env, fs: LocalFs, volumePrefixUrl: string, work: string, imagegroup: string,
                          imagesBase: Path)
    returns (ok: bool, fetched: seq<string>)
    modifies fs
    ensures imagegroup == "" ==> !ok && fetched == [] && fs.files == old(fs.files)
    ensures imagegroup != "" ==>
      var o := StageImages(env, old(fs.files), imagesBase + [work, imagegroup],
                           ImageRequests(ImagesPrefix(HashBucket(env.md5hex, work), work, imagegroup),
                                         env.imageList(volumePrefixUrl)));
      fs.files == o.files && fetched == o.fetched && ok == !o.raised
  {
    var s3prefix := GetS3PrefixPath(env.md5hex, work, imagegroup, None, "", []);
    if s3prefix.Failure? {
      return false, [];
    }
    var prefix := s3prefix.value.path;
    var names := env.imageList(volumePrefixUrl);
    var dir := imagesBase + [work, imagegroup];
    ghost var reqs := ImageRequests(prefix, names);
    ghost var all := StageImages(env, fs.files, dir, reqs);
    fetched := [];
    var k := 0;
    while k < |names|
      invariant 0 <= k <= |names|
      invariant all == Prepend(fetched, StageImages(env, fs.files, dir, reqs[k..]))
    {
      var filename := names[k];
      ghost var rest := reqs[k..];
      assert rest[0] == Request(prefix + "/" + filename, filename) && rest[1..] == reqs[k + 1..];
      if ImageExistsLocally(fs.files, filename, dir) {
        k := k + 1;
        continue;
      }
      var s3path := prefix + "/" + filename;
      var filebits := GetS3Bits(env, s3path);
      if filebits.Raised? {
        assert StageImages(env, fs.files, dir, rest) == StageOutcome(fs.files, [s3path], true);
        fetched := fetched + [s3path];
        return false, fetched;
      }
      ghost var before := fs.files;
      ghost var next := StepFiles(env, before, dir, rest[0]);
      if filebits.Found? {
        var saved := SaveFile(env, fs, filebits.bits, filename, dir);
        if !saved {
          assert StageImages(env, before, dir, rest) == StageOutcome(before, [s3path], true);
          fetched := fetched + [s3path];
          return false, fetched;
        }
      }
      assert StageImages(env, before, dir, rest) == Then(s3path, StageImages(env, next, dir, reqs[k + 1..]));
      PrependThen(fetched, s3path, StageImages(env, next, dir, reqs[k + 1..]));
      fetched := fetched + [s3path];
      k := k + 1;
    }
    ok := true;
  }

  // ---------------------------------------------------------------------------
  // OCR

  /**
   * The OCR result name apply_ocr_on_folder writes: pathlib's stem of the image
   * name, which drops only the last suffix.
   */
  function OcrResultNameAsWritten(imageName: string): string
  {
    PathStem(imageName) + ".json.gz"
  }

  /**
   * With stem naming, the OCR result of a staged `a.b.jpg` is `a.b.json.gz`, while
   * image_exists_locally looks for `a.json.gz`: the result is not recognised and
   * the image is fetched again.
   */
  lemma StemNamingMissesResult()
    ensures var dir := IMAGES_BASE_DIR + ["W1", "I0001"];
      var files := map[OCR_BASE_DIR + ["W1", "I0001", OcrResultNameAsWritten(StagedName("a.b.jpg"))] := []];
      !ImageExistsLocally(files, "a.b.jpg", dir)
  {
    var name := "a.b.jpg";
    assert StagedName(name) == name by {
      assert !Strs.EndsWith(name, ".tif");
    }
    assert |PathStem(name)| == 3 by {
      assert name[..6] == "a.b.jp" && "a.b.jp"[..5] == "a.b.j" && "a.b.j"[..4] == "a.b.";
      assert LastDot(name) == 3;
    }
    assert |Strs.BeforeFirst(name, '.')| == 1 by {
      assert name == "a" + ['.'] + "b.jpg";
      Strs.BeforeFirstOf("a", '.', "b.jpg");
    }
    var dir := IMAGES_BASE_DIR + ["W1", "I0001"];
    var written := OCR_BASE_DIR + ["W1", "I0001", OcrResultNameAsWritten(StagedName(name))];
    assert dir + [name] != written by {
      assert (dir + [name])[1] != written[1];
    }
    assert OutputDirOf(dir) + [OcrResultName(name)] != written by {
      OutputDirOfImagesDir("W1", "I0001");
      assert |(OCR_BASE_DIR + ["W1", "I0001"] + [OcrResultName(name)])[4]| != |written[4]|;
    }
  }

  /**
   * With the first-dot naming used everywhere else, the OCR result of a staged
   * image is exactly what image_exists_locally looks for under the source name.
   */
  lemma StagedResultRecognised(files: Files, work: string, imagegroup: string, filename: string)
    requires OCR_BASE_DIR + [work, imagegroup, OcrResultName(StagedName(filename))] in files
    ensures ImageExistsLocally(files, filename, IMAGES_BASE_DIR + [work, imagegroup])
  {
    StagedResultName(filename);
    OutputDirOfImagesDir(work, imagegroup);
    assert OCR_BASE_DIR + [work, imagegroup, OcrResultName(filename)]
        == OCR_BASE_DIR + [work, imagegroup] + [OcrResultName(filename)];
  }

  /**
   * OCR wrote result `r` for image `n`: the result did not exist before, the OCR
   * call on the image succeeded, and the file holds its gzipped response.
   */
  predicate WroteResult(env: Env, before: Files, after: Files, imagesDir: Path, outDir: Path, r: string, n: string)
  {
    && imagesDir + [n] in before
    && r == OcrResultName(n)
    && outDir + [r] !in before
    && env.ocr(before[imagesDir + [n]]).Some?
    && outDir + [r] in after
    && after[outDir + [r]] == env.gzip(env.ocr(before[imagesDir + [n]]).value)
  }

  /** Image `n` has its OCR result, or OCR was called on it and failed. */
  predicate Covered(env: Env, before: Files, after: Files, imagesDir: Path, outDir: Path, called: set<string>, n: string)
  {
    && imagesDir + [n] in before
    && (outDir + [OcrResultName(n)] in after || (n in called && env.ocr(before[imagesDir + [n]]).None?))
  }

  /**
   * The state after OCR over the images `done`: no existing file changed, every
   * new file is a result recorded in `written` (result name to image name), every
   * image of `done` is covered, and OCR was called only on images of `done` whose
   * result did not exist beforehand.
   */
  predicate OcrDone(env: Env, before: Files, after: Files, imagesDir: Path, outDir: Path,
                    done: set<string>, called: set<string>, written: map<string, string>)
  {
    && Extends(before, after)
    && (forall p :: p in after && p !in before ==> IsChild(p, outDir) && p[|outDir|] in written)
    && (forall r :: r in written ==> written[r] in done && WroteResult(env, before, after, imagesDir, outDir, r, written[r]))
    && (forall n :: n in done ==> Covered(env, before, after, imagesDir, outDir, called, n))
    && called <= done
    && (forall n :: n in called ==> outDir + [OcrResultName(n)] !in before)
  }

  /** An image whose result already exists is covered without an OCR call. */
  lemma OcrSkipStep(env: Env, before: Files, mid: Files, imagesDir: Path, outDir: Path,
                    done: set<string>, called: set<string>, written: map<string, string>, n: string)
    requires OcrDone(env, before, mid, imagesDir, outDir, done, called, written)
    requires imagesDir + [n] in before && outDir + [OcrResultName(n)] in mid
    ensures OcrDone(env, before, mid, imagesDir, outDir, done + {n}, called, written)
  {
  }

  /** An image whose OCR call fails is covered by the failed call, and nothing is written. */
  lemma OcrFailStep(env: Env, before: Files, mid: Files, imagesDir: Path, outDir: Path,
                    done: set<string>, called: set<string>, written: map<string, string>, n: string)
    requires OcrDone(env, before, mid, imagesDir, outDir, done, called, written)
    requires imagesDir + [n] in before && n !in done && outDir + [OcrResultName(n)] !in mid
    requires env.ocr(before[imagesDir + [n]]).None?
    ensures OcrDone(env, before, mid, imagesDir, outDir, done + {n}, called + {n}, written)
  {
    forall m | m in done + {n} ensures Covered(env, before, mid, imagesDir, outDir, called + {n}, m) {
      if m != n {
        assert Covered(env, before, mid, imagesDir, outDir, called, m);
      }
    }
  }

  /** Writing the gzipped response of a successful OCR call covers the image and records the result. */
  lemma OcrWriteStep(env: Env, before: Files, mid: Files, imagesDir: Path, outDir: Path,
                     done: set<string>, called: set<string>, written: map<string, string>, n: string)
    requires OcrDone(env, before, mid, imagesDir, outDir, done, called, written)
    requires imagesDir + [n] in before && n !in done && outDir + [OcrResultName(n)] !in mid
    requires env.ocr(before[imagesDir + [n]]).Some?
    ensures var after := mid[outDir + [OcrResultName(n)] := env.gzip(env.ocr(before[imagesDir + [n]]).value)];
      OcrDone(env, before, after, imagesDir, outDir, done + {n}, called + {n}, written[OcrResultName(n) := n])
  {
    var r := OcrResultName(n);
    var after := mid[outDir + [r] := env.gzip(env.ocr(before[imagesDir + [n]]).value)];
    var written' := written[r := n];
    assert (outDir + [r])[|outDir|] == r && IsChild(outDir + [r], outDir);
    forall q | q in written' ensures written'[q] in done + {n} && WroteResult(env, before, after, imagesDir, outDir, q, written'[q]) {
      if q != r {
        assert WroteResult(env, before, mid, imagesDir, outDir, q, written[q]);
      }
    }
    forall m | m in done + {n} ensures Covered(env, before, after, imagesDir, outDir, called + {n}, m) {
      if m != n {
        assert Covered(env, before, mid, imagesDir, outDir, called, m);
      }
    }
  }

  /**
   * apply_ocr_on_folder, with results named by the text before the first dot:
   * OCR runs over every staged image of the volume whose result is not there yet.
   */
  method ApplyOcrOnFolder(env: Env, fs: LocalFs, imagesBase: Path, work: string, imagegroup: string,
                          ocrBase: Path)
    returns (called: set<string>, ghost written: map<string, string>)
    modifies fs
    ensures OcrDone(env, old(fs.files), fs.files, imagesBase + [work, imagegroup], ocrBase + [work, imagegroup],
                    ChildNames(old(fs.files), imagesBase + [work, imagegroup]), called, written)
  {
    var imagesDir := imagesBase + [work, imagegroup];
    var outDir := ocrBase + [work, imagegroup];
    ghost var before := fs.files;
    var images := ChildNames(fs.files, imagesDir);
    forall n | n in images ensures imagesDir + [n] in before {
      ChildNamesMember(before, imagesDir, n);
    }
    var todo := images;
    called := {};
    written := map[];
    while todo != {}
      invariant todo <= images
      invariant OcrDone(env, before, fs.files, imagesDir, outDir, images - todo, called, written)
      decreases |todo|
    {
      var imgName :| imgName in todo;
      assert images - (todo - {imgName}) == (images - todo) + {imgName};
      todo := todo - {imgName};
      var resultFn := outDir + [OcrResultName(imgName)];
      if resultFn in fs.files {
        OcrSkipStep(env, before, fs.files, imagesDir, outDir, images - todo - {imgName}, called, written, imgName);
        continue;
      }
      var result := env.ocr(fs.files[imagesDir + [imgName]]);
      if result.None? {
        OcrFailStep(env, before, fs.files, imagesDir, outDir, images - todo - {imgName}, called, written, imgName);
        called := called + {imgName};
        continue;
      }
      OcrWriteStep(env, before, fs.files, imagesDir, outDir, images - todo - {imgName}, called, written, imgName);
      called := called + {imgName};
      fs.WriteBytes(resultFn, env.gzip(result.value));
      written := written[OcrResultName(imgName) := imgName];
    }
  }

  // ---------------------------------------------------------------------------
  // archiving

  /** Where a volume's info.json goes: `<batch folder>/info.json`. */
  function InfoKey(paths: map<string, string>): string
    requires BATCH_PREFIX in paths
  {
    paths[BATCH_PREFIX] + "/" + INFO_FN
  }

  /**
   * The upload loop of archive_on_s3 over one local folder: each file not yet
   * archived under `<keyPrefix>/<name>` is uploaded; an upload that raises ends
   * the loop. Objects already in the bucket are never overwritten.
   */
  method ArchiveFolder(env: Env, fs: LocalFs, store: ObjectStore, dir: Path, keyPrefix: string)
    returns (ok: bool, ghost origin: map<string, Path>)
    modifies store
    ensures forall k :: k in old(store.objects) ==> k in store.objects && store.objects[k] == old(store.objects)[k]
    ensures origin.Keys == store.objects.Keys - old(store.objects).Keys
    ensures forall k :: k in store.objects && k !in old(store.objects) ==>
      && k in origin && IsChild(origin[k], dir) && origin[k] in fs.files
      && k == keyPrefix + "/" + origin[k][|dir|] && store.objects[k] == fs.files[origin[k]]
    ensures ok ==> forall n :: n in ChildNames(fs.files, dir) ==> keyPrefix + "/" + n in store.objects
    ensures (forall n :: n in ChildNames(fs.files, dir) ==> keyPrefix + "/" + n !in env.putFails) ==> ok
  {
    var names := ChildNames(fs.files, dir);
    forall n | n in names ensures dir + [n] in fs.files {
      ChildNamesMember(fs.files, dir, n);
    }
    var todo := names;
    origin := map[];
    while todo != {}
      invariant todo <= names
      invariant forall k :: k in old(store.objects) ==> k in store.objects && store.objects[k] == old(store.objects)[k]
      invariant forall k :: k in store.objects && k !in old(store.objects) ==>
        && k in origin && IsChild(origin[k], dir) && origin[k] in fs.files
        && k == keyPrefix + "/" + origin[k][|dir|] && store.objects[k] == fs.files[origin[k]]
      invariant forall n :: n in names - todo ==> keyPrefix + "/" + n in store.objects
      invariant origin.Keys == store.objects.Keys - old(store.objects).Keys
      decreases |todo|
    {
      var name :| name in todo;
      todo := todo - {name};
      var key := keyPrefix + "/" + name;
      if key in store.objects {
        continue;
      }
      if key in env.putFails {
        return false, origin;
      }
      assert IsChild(dir + [name], dir) && (dir + [name])[|dir|] == name;
      store.PutObject(key, fs.files[dir + [name]]);
      origin := origin[key := dir + [name]];
    }
    ok := true;
  }

  /**
   * archive_on_s3: info.json is written first (replacing any earlier one), then the
   * volume's staged images under the `images` prefix and its OCR results under the
   * `output` prefix, skipping objects already archived; the first upload that
   * raises ends the step. Apart from info.json no existing object changes.
   */
  method ArchiveOnS3(env: Env, fs: LocalFs, store: ObjectStore, imagesBase: Path, ocrBase: Path,
                     work: string, imagegroup: string, paths: map<string, string>)
    returns (ok: bool, ghost origin: map<string, Path>)
    requires BATCH_PREFIX in paths && IMAGES in paths && OUTPUT in paths
    modifies store
    ensures InfoKey(paths) in env.putFails ==> !ok && store.objects == old(store.objects)
    ensures InfoKey(paths) !in env.putFails ==>
      InfoKey(paths) in store.objects && store.objects[InfoKey(paths)] == env.info
    ensures forall k :: k in old(store.objects) && k != InfoKey(paths) ==>
      k in store.objects && store.objects[k] == old(store.objects)[k]
    ensures var imagesDir := imagesBase + [work, imagegroup];
      var outDir := ocrBase + [work, imagegroup];
      forall k :: k in store.objects && k !in old(store.objects) && k != InfoKey(paths) ==>
        && k in origin && origin[k] in fs.files && store.objects[k] == fs.files[origin[k]]
        && ((IsChild(origin[k], imagesDir) && k == paths[IMAGES] + "/" + origin[k][|imagesDir|])
            || (IsChild(origin[k], outDir) && k == paths[OUTPUT] + "/" + origin[k][|outDir|]))
    ensures ok ==>
      && (forall n :: n in ChildNames(fs.files, imagesBase + [work, imagegroup]) ==> paths[IMAGES] + "/" + n in store.objects)
      && (forall n :: n in ChildNames(fs.files, ocrBase + [work, imagegroup]) ==> paths[OUTPUT] + "/" + n in store.objects)
    ensures (&& InfoKey(paths) !in env.putFails
             && (forall n :: n in ChildNames(fs.files, imagesBase + [work, imagegroup]) ==> paths[IMAGES] + "/" + n !in env.putFails)
             && (forall n :: n in ChildNames(fs.files, ocrBase + [work, imagegroup]) ==> paths[OUTPUT] + "/" + n !in env.putFails))
            ==> ok
  {
    var infoKey := InfoKey(paths);
    if infoKey in env.putFails {
      return false, map[];
    }
    store.PutObject(infoKey, env.info);
    ghost var afterInfo := store.objects;
    var imagesDir := imagesBase + [work, imagegroup];
    ghost var imagesOrigin;
    ok, imagesOrigin := ArchiveFolder(env, fs, store, imagesDir, paths[IMAGES]);
    origin := imagesOrigin;
    if !ok {
      return;
    }
    ghost var afterImages := store.objects;
    var outDir := ocrBase + [work, imagegroup];
    ghost var outOrigin;
    ok, outOrigin := ArchiveFolder(env, fs, store, outDir, paths[OUTPUT]);
    origin := imagesOrigin + outOrigin;
    forall k | k in store.objects && k !in old(store.objects) && k != infoKey
      ensures k in origin && origin[k] in fs.files && store.objects[k] == fs.files[origin[k]]
      ensures (IsChild(origin[k], imagesDir) && k == paths[IMAGES] + "/" + origin[k][|imagesDir|])
           || (IsChild(origin[k], outDir) && k == paths[OUTPUT] + "/" + origin[k][|outDir|])
    {
      if k !in afterImages {
        assert origin[k] == outOrigin[k];
      } else {
        assert k !in outOrigin;
        assert store.objects[k] == afterImages[k];
      }
    }
  }

  // ---------------------------------------------------------------------------
  // clean-up

  /**
   * clean_up. With an image group: the volume's staged images go. Otherwise with
   * a work: the work's OCR output folder goes. Otherwise: every folder inside
   * `dataPath` goes; a plain file directly inside it makes `rmtree` raise, and
   * then some of the folders may be left.
   */
  method CleanUp(fs: LocalFs, dataPath: Path, work: Option<string>, imagegroup: Option<string>)
    returns (ok: bool)
    requires IsSet(imagegroup) ==> work.Some?
    modifies fs
    ensures IsSet(imagegroup) ==>
      ok && fs.files == RemoveUnder(old(fs.files), dataPath + [IMAGES, work.value, imagegroup.value])
    ensures !IsSet(imagegroup) && IsSet(work) ==>
      ok && fs.files == RemoveUnder(old(fs.files), dataPath + [OUTPUT, work.value])
    ensures !IsSet(imagegroup) && !IsSet(work) ==>
      && (ok <==> ChildNames(old(fs.files), dataPath) == {})
      && (ok ==> fs.files == RemoveUnder(old(fs.files), dataPath))
      && (!ok ==> forall p :: p in fs.files <==> p in old(fs.files))
  {
    if IsSet(imagegroup) {
      fs.RemoveTree(dataPath + [IMAGES, work.value, imagegroup.value]);
      return true;
    } else if IsSet(work) {
      fs.RemoveTree(dataPath + [OUTPUT, work.value]);
      return true;
    }
    if ChildNames(fs.files, dataPath) != {} {
      return false;
    }
    fs.RemoveTree(dataPath);
    ok := true;
  }
}
