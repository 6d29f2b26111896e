/**
 * The work level of usage/bdrc/bdrc_ocr.py: which volumes of a work are
 * (re)processed after a checkpoint, what process_work does with each of them and
 * with the work's publication, how work ids are read from an input file, and the
 * main loop over all input files.
 */
module Works {
  import opened Wrappers
  import opened Storage
  import opened BdrcKeys
  import opened VolumeSteps
  import opened CheckPoints
  import Strs
  import StrOrder

  // ---------------------------------------------------------------------------
  // resuming

  /** A volume is skipped when its work is the checkpointed one and its image group sorts before the checkpointed volume. */
  predicate SkippedOnResume(v: VolumeInfo, local: string, lastWork: Option<string>, lastVol: Option<string>)
  {
    lastWork == Some(local) && lastVol.Some? && StrOrder.LexLess(v.imagegroup, lastVol.value)
  }

  /** The volumes process_work works on, in query order. */
  function Resumed(vols: seq<VolumeInfo>, local: string, lastWork: Option<string>, lastVol: Option<string>): (r: seq<VolumeInfo>)
    ensures |r| <= |vols|
  {
    if vols == [] then []
    else
      var last := vols[|vols| - 1];
      Resumed(vols[..|vols| - 1], local, lastWork, lastVol)
        + (if SkippedOnResume(last, local, lastWork, lastVol) then [] else [last])
  }

  /** The volumes processed are exactly those not skipped. */
  lemma {:induction false} ResumedMembers(vols: seq<VolumeInfo>, local: string, lastWork: Option<string>, lastVol: Option<string>)
    ensures forall v :: v in Resumed(vols, local, lastWork, lastVol) <==> v in vols && !SkippedOnResume(v, local, lastWork, lastVol)
    decreases |vols|
  {
    if vols != [] {
      ResumedMembers(vols[..|vols| - 1], local, lastWork, lastVol);
      assert vols == vols[..|vols| - 1] + [vols[|vols| - 1]];
    }
  }

  /** The volumes are listed in strictly ascending image-group order. */
  predicate AscendingGroups(vols: seq<VolumeInfo>)
  {
    forall i, j :: 0 <= i < j < |vols| ==> StrOrder.LexLess(vols[i].imagegroup, vols[j].imagegroup)
  }

  /** A work other than the checkpointed one is processed in full. */
  lemma {:induction false} ResumedOtherWork(vols: seq<VolumeInfo>, local: string, lastWork: Option<string>, lastVol: Option<string>)
    requires lastWork != Some(local)
    ensures Resumed(vols, local, lastWork, lastVol) == vols
    decreases |vols|
  {
    if vols != [] {
      ResumedOtherWork(vols[..|vols| - 1], local, lastWork, lastVol);
      assert vols[..|vols| - 1] + [vols[|vols| - 1]] == vols;
    }
  }

  /**
   * With volumes in ascending image-group order, resuming the checkpointed work at
   * volume `k` processes exactly volumes `k..`: the volume that stopped the last
   * run is processed again, and every later one too.
   */
  lemma {:induction false} ResumeFromCheckPoint(vols: seq<VolumeInfo>, local: string, k: nat)
    requires k < |vols| && AscendingGroups(vols)
    ensures Resumed(vols, local, Some(local), Some(vols[k].imagegroup)) == vols[k..]
    decreases |vols|
  {
    var lastVol := Some(vols[k].imagegroup);
    var n := |vols|;
    var init := vols[..n - 1];
    var last := vols[n - 1];
    if k == n - 1 {
      StrOrder.LexLessIrreflexive(last.imagegroup);
      ResumedAllSkipped(init, local, vols[k].imagegroup);
      assert vols[k..] == [last];
    } else {
      assert AscendingGroups(init);
      assert init[k] == vols[k];
      ResumeFromCheckPoint(init, local, k);
      StrOrder.LexLessAsymmetric(vols[k].imagegroup, last.imagegroup);
      assert !SkippedOnResume(last, local, Some(local), lastVol);
      assert vols[k..] == init[k..] + [last];
    }
  }

  /** Every volume sorting before the checkpointed one is skipped. */
  lemma {:induction false} ResumedAllSkipped(vols: seq<VolumeInfo>, local: string, lastVol: string)
    requires forall i :: 0 <= i < |vols| ==> StrOrder.LexLess(vols[i].imagegroup, lastVol)
    ensures Resumed(vols, local, Some(local), Some(lastVol)) == []
    decreases |vols|
  {
    if vols != [] {
      ResumedAllSkipped(vols[..|vols| - 1], local, lastVol);
    }
  }

  // ---------------------------------------------------------------------------
  // processing a work

  /** How process_work ends. */
  datatype WorkOutcome =
    | Published                        // the work was published and recorded as completed
    | EmptyWork                        // no volume left to process; nothing done
    | VolumeFailed(imagegroup: string) // a volume step raised; RuntimeError after checkpointing the volume
    | PublishFailed                    // GithubException while publishing; re-raised after checkpointing
    | PublishCrashed                   // any other error while publishing or cleaning up; no checkpoint

  /** The info.json key of a work: the same for all of its volumes. */
  function WorkInfoKey(md5hex: string -> string, local: string): string
  {
    BatchDir(HashBucket(md5hex, local), local, SERVICE, BATCH_PREFIX) + "/" + INFO_FN
  }

  /** No file lies in the staging folder of one of the image groups `groups`. */
  predicate GroupsCleaned(files: Files, local: string, groups: seq<string>)
  {
    forall p, j :: p in files && 0 <= j < |groups| ==> !IsUnder(p, IMAGES_BASE_DIR + [local, groups[j]])
  }

  /** No file lies in the staging folder of one of the image groups `groups` or in the work's OCR output folder. */
  predicate WorkCleaned(files: Files, local: string, groups: seq<string>)
  {
    GroupsCleaned(files, local, groups) && forall p :: p in files ==> !IsUnder(p, OCR_BASE_DIR + [local])
  }

  /** Every object of `before` other than `except` is in `after` with the same bytes. */
  predicate KeepsObjects(before: map<string, Bytes>, after: map<string, Bytes>, except: string)
  {
    forall k :: k in before && k != except ==> k in after && after[k] == before[k]
  }

  lemma KeepsObjectsTrans(a: map<string, Bytes>, b: map<string, Bytes>, c: map<string, Bytes>, except: string)
    requires KeepsObjects(a, b, except) && KeepsObjects(b, c, except)
    ensures KeepsObjects(a, c, except)
  {
  }

  /** Every file in `after` but not in `before` lies directly in the staging or the output folder of `imagegroup`. */
  predicate AddsOnlyToVolume(before: Files, after: Files, local: string, imagegroup: string)
  {
    forall p :: p in after && p !in before ==>
      IsChild(p, IMAGES_BASE_DIR + [local, imagegroup]) || IsChild(p, OCR_BASE_DIR + [local, imagegroup])
  }

  /** A file directly inside one folder does not lie below another folder of the same depth. */
  lemma ChildNotUnder(d: Path, x: string, e: Path)
    requires |d| == |e| && d != e
    ensures !IsUnder(d + [x], e)
  {
    assert (d + [x])[..|d|] == d;
  }

  /**
   * Processing a volume that adds files only to its own staging and output
   * folders, and ends with its staging folder removed, keeps the staging folders
   * of the earlier volumes empty.
   */
  lemma CleanedAfterVolume(before: Files, after: Files, local: string, groups: seq<string>, imagegroup: string)
    requires GroupsCleaned(before, local, groups)
    requires AddsOnlyToVolume(before, after, local, imagegroup)
    requires forall p :: p in after ==> !IsUnder(p, IMAGES_BASE_DIR + [local, imagegroup])
    ensures GroupsCleaned(after, local, groups + [imagegroup])
  {
    var groups' := groups + [imagegroup];
    forall p, j | p in after && 0 <= j < |groups'|
      ensures !IsUnder(p, IMAGES_BASE_DIR + [local, groups'[j]])
    {
      if j < |groups| && p !in before {
        assert !IsChild(p, IMAGES_BASE_DIR + [local, imagegroup]);
        assert p[1] == OUTPUT;
      }
    }
  }

  /** The key under which archive_on_s3 puts file `name` of a volume's `dataType` folder. */
  function ArchiveKey(md5hex: string -> string, local: string, imagegroup: string, dataType: string, name: string): string
  {
    DataTypePrefix(BatchDir(HashBucket(md5hex, local), local, SERVICE, BATCH_PREFIX), dataType, local, imagegroup)
      + "/" + name
  }

  /** The requests save_images_for_vol makes for a volume of work `local`. */
  function VolumeRequests(env: Env, local: string, v: VolumeInfo): seq<Request>
  {
    ImageRequests(ImagesPrefix(HashBucket(env.md5hex, local), local, v.imagegroup), env.imageList(v.volumePrefixUrl))
  }

  /**
   * Every image in the volume's staging folder of `staged` is archived under the
   * `images` prefix, and its OCR result under the `output` prefix unless the OCR
   * call on it failed.
   */
  predicate VolumeArchived(env: Env, staged: Files, objects: map<string, Bytes>, local: string, imagegroup: string)
  {
    var imagesDir := IMAGES_BASE_DIR + [local, imagegroup];
    forall n :: n in ChildNames(staged, imagesDir) ==>
      && ArchiveKey(env.md5hex, local, imagegroup, IMAGES, n) in objects
      && (ArchiveKey(env.md5hex, local, imagegroup, OUTPUT, OcrResultName(n)) in objects
          || (imagesDir + [n] in staged && env.ocr(staged[imagesDir + [n]]).None?))
  }

  /**
   * A volume of work `local` went through: staging from `before` raised nothing,
   * and every staged image, with its OCR result, is archived in `objects`.
   */
  predicate VolumeDone(env: Env, before: Files, objects: map<string, Bytes>, local: string, v: VolumeInfo)
  {
    var staged := StageImages(env, before, IMAGES_BASE_DIR + [local, v.imagegroup], VolumeRequests(env, local, v));
    v.imagegroup != "" && !staged.raised && VolumeArchived(env, staged.files, objects, local, v.imagegroup)
  }

  /**
   * The OCR step of a volume, as far as the volume loop needs it: it only adds
   * files, in the volume's output folder, and every staged image gets its result
   * there unless the OCR call on it fails.
   */
  method OcrVolume(env: Env, fs: LocalFs, local: string, imagegroup: string)
    modifies fs
    ensures Extends(old(fs.files), fs.files)
    ensures forall p :: p in fs.files && p !in old(fs.files) ==> IsChild(p, OCR_BASE_DIR + [local, imagegroup])
    ensures var imagesDir := IMAGES_BASE_DIR + [local, imagegroup];
      forall n :: n in ChildNames(old(fs.files), imagesDir) ==>
        && imagesDir + [n] in old(fs.files)
        && (OcrResultName(n) in ChildNames(fs.files, OCR_BASE_DIR + [local, imagegroup])
            || env.ocr(old(fs.files)[imagesDir + [n]]).None?)
  {
    ghost var before := fs.files;
    var imagesDir := IMAGES_BASE_DIR + [local, imagegroup];
    var outDir := OCR_BASE_DIR + [local, imagegroup];
    var called, written := ApplyOcrOnFolder(env, fs, IMAGES_BASE_DIR, local, imagegroup, OCR_BASE_DIR);
    forall n | n in ChildNames(before, imagesDir)
      ensures imagesDir + [n] in before
      ensures OcrResultName(n) in ChildNames(fs.files, outDir) || env.ocr(before[imagesDir + [n]]).None?
    {
      assert Covered(env, before, fs.files, imagesDir, outDir, called, n);
      ChildNamesMember(fs.files, outDir, OcrResultName(n));
    }
  }

  /**
   * The archive step of a volume, as far as the volume loop needs it: the keys
   * are those of get_s3_prefix_path, and only the work's info.json may be overwritten.
   */
  method ArchiveVolume(env: Env, fs: LocalFs, store: ObjectStore, local: string, imagegroup: string)
    returns (ok: bool)
    modifies store
    ensures KeepsObjects(old(store.objects), store.objects, WorkInfoKey(env.md5hex, local))
    ensures ok ==> forall n :: n in ChildNames(fs.files, IMAGES_BASE_DIR + [local, imagegroup]) ==>
      ArchiveKey(env.md5hex, local, imagegroup, IMAGES, n) in store.objects
    ensures ok ==> forall n :: n in ChildNames(fs.files, OCR_BASE_DIR + [local, imagegroup]) ==>
      ArchiveKey(env.md5hex, local, imagegroup, OUTPUT, n) in store.objects
  {
    var paths := GetS3PrefixPath(env.md5hex, local, imagegroup, Some(SERVICE), BATCH_PREFIX, [IMAGES, OUTPUT]);
    if paths.Failure? {
      return false;
    }
    assert IMAGES in [IMAGES, OUTPUT] && OUTPUT in [IMAGES, OUTPUT] && BATCH_PREFIX !in [IMAGES, OUTPUT];
    ghost var origin;
    ok, origin := ArchiveOnS3(env, fs, store, IMAGES_BASE_DIR, OCR_BASE_DIR, local, imagegroup, paths.value.paths);
    assert InfoKey(paths.value.paths) == WorkInfoKey(env.md5hex, local);
  }

  /**
   * One volume's work: stage, OCR, archive, clean up. `ok` is false when any step
   * raised. On success every image staged for the volume, and its OCR result
   * unless the OCR call failed, is in the output bucket.
   */
  method ProcessVolume(env: Env, fs: LocalFs, store: ObjectStore, local: string, v: VolumeInfo)
    returns (ok: bool)
    modifies fs, store
    ensures KeepsObjects(old(store.objects), store.objects, WorkInfoKey(env.md5hex, local))
    ensures AddsOnlyToVolume(old(fs.files), fs.files, local, v.imagegroup)
    ensures ok ==> forall p :: p in fs.files ==> !IsUnder(p, IMAGES_BASE_DIR + [local, v.imagegroup])
    ensures ok ==> VolumeDone(env, old(fs.files), store.objects, local, v)
  {
    var dir := IMAGES_BASE_DIR + [local, v.imagegroup];
    ghost var before := fs.files;
    var fetched;
    ok, fetched := SaveImagesForVol(env, fs, v.volumePrefixUrl, local, v.imagegroup, IMAGES_BASE_DIR);
    if v.imagegroup != "" {
      StageNewFiles(env, before, dir, ImageRequests(ImagesPrefix(HashBucket(env.md5hex, local), local, v.imagegroup),
                                                    env.imageList(v.volumePrefixUrl)));
    }
    if !ok {
      return;
    }
    ghost var staged := fs.files;
    OcrVolume(env, fs, local, v.imagegroup);
    ok := ArchiveVolume(env, fs, store, local, v.imagegroup);
    if !ok {
      return;
    }
    VolumeArchivedAfterSteps(env, staged, fs.files, store.objects, local, v.imagegroup);
    ok := CleanUp(fs, DATA_PATH, Some(local), Some(v.imagegroup));
    assert DATA_PATH + [IMAGES, local, v.imagegroup] == dir;
  }

  /**
   * Staging, OCR that only adds results, and an archive step that succeeded on the
   * files after OCR leave the volume archived.
   */
  lemma VolumeArchivedAfterSteps(env: Env, staged: Files, afterOcr: Files, objects: map<string, Bytes>,
                                 local: string, imagegroup: string)
    requires Extends(staged, afterOcr)
    requires var imagesDir := IMAGES_BASE_DIR + [local, imagegroup];
      forall n :: n in ChildNames(staged, imagesDir) ==>
        && imagesDir + [n] in staged
        && (OcrResultName(n) in ChildNames(afterOcr, OCR_BASE_DIR + [local, imagegroup])
            || env.ocr(staged[imagesDir + [n]]).None?)
    requires forall n :: n in ChildNames(afterOcr, IMAGES_BASE_DIR + [local, imagegroup]) ==>
      ArchiveKey(env.md5hex, local, imagegroup, IMAGES, n) in objects
    requires forall n :: n in ChildNames(afterOcr, OCR_BASE_DIR + [local, imagegroup]) ==>
      ArchiveKey(env.md5hex, local, imagegroup, OUTPUT, n) in objects
    ensures VolumeArchived(env, staged, objects, local, imagegroup)
  {
    var imagesDir := IMAGES_BASE_DIR + [local, imagegroup];
    forall n | n in ChildNames(staged, imagesDir)
      ensures ArchiveKey(env.md5hex, local, imagegroup, IMAGES, n) in objects
    {
      ChildNamesMember(afterOcr, imagesDir, n);
    }
  }

  /** New files of a staging run are files directly in the staging folder. */
  lemma StageNewFiles(env: Env, files: Files, dir: Path, reqs: seq<Request>)
    requires |dir| >= 2
    ensures Extends(files, StageImages(env, files, dir, reqs).files)
    ensures forall p :: p in StageImages(env, files, dir, reqs).files && p !in files ==> IsChild(p, dir)
  {
    StageExtends(env, files, dir, reqs);
    var r := StageImages(env, files, dir, reqs).files;
    forall p | p in r && p !in files ensures IsChild(p, dir) {
      var i :| 0 <= i < |reqs| && IsStagedFrom(env, reqs[i], dir, p, r[p]);
    }
  }

  /**
   * The end of process_work for a work with at least one volume processed:
   * publishing; on success the work's OCR output folder and the publication
   * folder are removed and the work is recorded as completed; a GitHub error
   * checkpoints `lastGroup`; any other error leaves the checkpoint alone.
   */
  method PublishWork(env: Env, fs: LocalFs, cp: CheckPoint, local: string, lastGroup: string)
    returns (outcome: WorkOutcome)
    modifies fs, cp`works, cp`imagegroup, cp`file
    ensures outcome == Published || outcome == PublishFailed || outcome == PublishCrashed
    ensures outcome == Published ==> env.publish(local) == PublishOk
    ensures env.publish(local) == PublishOk && local != "" && ChildNames(old(fs.files), ["output"]) == {} ==>
      outcome == Published
    ensures outcome == PublishFailed <==> env.publish(local) == GithubError
    ensures outcome == Published ==>
      && cp.works == SavedWorks(old(cp.works), Some(local)) && cp.imagegroup == old(cp.imagegroup)
      && forall p :: p in fs.files ==> p in old(fs.files) && !IsUnder(p, OCR_BASE_DIR + [local])
    ensures outcome == PublishFailed ==>
      cp.works == old(cp.works) && cp.imagegroup == Some(Pointer(local, lastGroup)) && fs.files == old(fs.files)
    ensures outcome == PublishCrashed ==>
      && cp.works == old(cp.works) && cp.imagegroup == old(cp.imagegroup) && cp.file == old(cp.file)
      && forall p :: p in fs.files ==> p in old(fs.files)
    ensures outcome != PublishCrashed ==> cp.file == Some(CheckPointFile(cp.works, cp.imagegroup))
  {
    match env.publish(local) {
      case PublishOk =>
        var cleaned := CleanUp(fs, DATA_PATH, Some(local), None);
        if !cleaned {
          return PublishCrashed;
        }
        assert forall p :: p in fs.files ==> p in old(fs.files) && !IsUnder(p, OCR_BASE_DIR + [local]) by {
          assert DATA_PATH + [OUTPUT, local] == OCR_BASE_DIR + [local];
          forall p | p in fs.files ensures !IsUnder(p, OCR_BASE_DIR + [local]) {
            if local == "" {
              UnderNested(p, DATA_PATH, OCR_BASE_DIR + [local]);
            }
          }
        }
        if local != "" {
          assert ChildNames(fs.files, ["output"]) == ChildNames(old(fs.files), ["output"]) by {
            forall x ensures x in ChildNames(fs.files, ["output"]) <==> x in ChildNames(old(fs.files), ["output"]) {
              ChildNamesMember(fs.files, ["output"], x);
              ChildNamesMember(old(fs.files), ["output"], x);
              assert !IsUnder(["output"] + [x], OCR_BASE_DIR + [local]);
            }
          }
        }
        ghost var mid := fs.files;
        var outputCleaned := CleanUp(fs, ["output"], None, None);
        if !outputCleaned {
          return PublishCrashed;
        }
        assert forall p :: p in fs.files ==> p in mid;
        cp.Save(Some(local), None);
        outcome := Published;
      case GithubError =>
        cp.Save(None, Some(Pointer(local, lastGroup)));
        outcome := PublishFailed;
      case OtherError =>
        outcome := PublishCrashed;
    }
  }

  /**
   * One volume of the loop in process_work, processed after the image groups
   * `groups` whose staging folders are empty: it changes no object but
   * info.json, and success leaves its own staging folder empty as well.
   */
  method ProcessCleanVolume(env: Env, fs: LocalFs, store: ObjectStore, local: string, v: VolumeInfo, groups: seq<string>)
    returns (ok: bool)
    modifies fs, store
    requires GroupsCleaned(fs.files, local, groups)
    ensures KeepsObjects(old(store.objects), store.objects, WorkInfoKey(env.md5hex, local))
    ensures ok ==> GroupsCleaned(fs.files, local, groups + [v.imagegroup])
  {
    ghost var before := fs.files;
    ok := ProcessVolume(env, fs, store, local, v);
    if ok {
      CleanedAfterVolume(before, fs.files, local, groups, v.imagegroup);
    }
  }

  /**
   * The volume loop of process_work: the volumes not skipped on resume are
   * processed in order until one fails. `attempted` lists the image groups tried;
   * `failed` is the one that failed, if any.
   */
  method ProcessVolumes(env: Env, fs: LocalFs, store: ObjectStore, local: string, vols: seq<VolumeInfo>,
                        lastWork: Option<string>, lastVol: Option<string>)
    returns (failed: Option<string>, attempted: seq<string>)
    modifies fs, store
    ensures attempted <= ImageGroups(Resumed(vols, local, lastWork, lastVol))
    ensures failed.None? ==> attempted == ImageGroups(Resumed(vols, local, lastWork, lastVol))
    ensures failed.Some? ==> attempted != [] && attempted[|attempted| - 1] == failed.value
    ensures attempted == [] ==> fs.files == old(fs.files) && store.objects == old(store.objects)
    ensures failed.None? ==> GroupsCleaned(fs.files, local, attempted)
    ensures KeepsObjects(old(store.objects), store.objects, WorkInfoKey(env.md5hex, local))
  {
    attempted := [];
    var i := 0;
    while i < |vols|
      invariant 0 <= i <= |vols|
      invariant attempted == ImageGroups(Resumed(vols[..i], local, lastWork, lastVol))
      invariant attempted == [] ==> fs.files == old(fs.files) && store.objects == old(store.objects)
      invariant KeepsObjects(old(store.objects), store.objects, WorkInfoKey(env.md5hex, local))
      invariant GroupsCleaned(fs.files, local, attempted)
    {
      var v := vols[i];
      if SkippedOnResume(v, local, lastWork, lastVol) {
        assert attempted == ImageGroups(Resumed(vols[..i + 1], local, lastWork, lastVol)) by {
          ResumedStep(vols, i, local, lastWork, lastVol);
        }
        i := i + 1;
        continue;
      }
      ghost var objectsBefore := store.objects;
      var ok := ProcessCleanVolume(env, fs, store, local, v, attempted);
      attempted := attempted + [v.imagegroup];
      assert attempted == ImageGroups(Resumed(vols[..i + 1], local, lastWork, lastVol)) by {
        ResumedStep(vols, i, local, lastWork, lastVol);
      }
      assert KeepsObjects(old(store.objects), store.objects, WorkInfoKey(env.md5hex, local)) by {
        KeepsObjectsTrans(old(store.objects), objectsBefore, store.objects, WorkInfoKey(env.md5hex, local));
      }
      if !ok {
        assert attempted <= ImageGroups(Resumed(vols, local, lastWork, lastVol)) by {
          PrefixOfResumed(vols, i + 1, local, lastWork, lastVol);
        }
        return Some(v.imagegroup), attempted;
      }
      i := i + 1;
    }
    assert vols[..|vols|] == vols;
    failed := None;
  }

  /**
   * process_work. The volumes left after resuming are processed in order until
   * one fails (ProcessVolumes). A failed volume is checkpointed and ends the
   * work. A work with no volume left does nothing. After the last volume the
   * work is published (PublishWork); a GitHub error checkpoints the work's last
   * volume in query order. The output bucket only gains objects, except the
   * work's info.json.
   */
  method ProcessWork(env: Env, fs: LocalFs, store: ObjectStore, cp: CheckPoint, work: string)
    returns (outcome: WorkOutcome, attempted: seq<string>)
    modifies fs, store, cp`works, cp`imagegroup, cp`file
    ensures var (local, qualified) := GetWorkLocalId(work);
      var todo := ImageGroups(Resumed(env.volumeInfos(qualified), local, cp.lastWork, cp.lastVol));
      && attempted <= todo
      && (outcome == EmptyWork <==> todo == [])
      && (outcome.VolumeFailed? ==>
            && attempted != [] && attempted[|attempted| - 1] == outcome.imagegroup
            && cp.works == old(cp.works)
            && cp.imagegroup == Some(Pointer(local, outcome.imagegroup)))
      && (!outcome.VolumeFailed? ==> attempted == todo)
      && (outcome == EmptyWork ==>
            && fs.files == old(fs.files) && store.objects == old(store.objects)
            && cp.works == old(cp.works) && cp.imagegroup == old(cp.imagegroup) && cp.file == old(cp.file))
      && (outcome == Published ==>
            && cp.works == SavedWorks(old(cp.works), Some(local)) && cp.imagegroup == old(cp.imagegroup)
            && WorkCleaned(fs.files, local, attempted))
      && (outcome == PublishFailed ==>
            var vols := env.volumeInfos(qualified);
            && vols != []
            && cp.works == old(cp.works)
            && cp.imagegroup == Some(Pointer(local, vols[|vols| - 1].imagegroup)))
      && (outcome == PublishCrashed ==>
            cp.works == old(cp.works) && cp.imagegroup == old(cp.imagegroup) && cp.file == old(cp.file))
      && (outcome.VolumeFailed? || outcome == PublishFailed || outcome == Published ==>
            cp.file == Some(CheckPointFile(cp.works, cp.imagegroup)))
      && KeepsObjects(old(store.objects), store.objects, WorkInfoKey(env.md5hex, local))
  {
    var (local, qualified) := GetWorkLocalId(work);
    var vols := env.volumeInfos(qualified);
    var failed;
    failed, attempted := ProcessVolumes(env, fs, store, local, vols, cp.lastWork, cp.lastVol);
    if failed.Some? {
      cp.Save(None, Some(Pointer(local, failed.value)));
      return VolumeFailed(failed.value), attempted;
    }
    if attempted == [] {
      return EmptyWork, attempted;
    }
    ghost var filesBefore := fs.files;
    outcome := PublishWork(env, fs, cp, local, vols[|vols| - 1].imagegroup);
    assert outcome == Published ==> GroupsCleaned(fs.files, local, attempted) by {
      if outcome == Published {
        forall p, j | p in fs.files && 0 <= j < |attempted| ensures !IsUnder(p, IMAGES_BASE_DIR + [local, attempted[j]]) {
          assert p in filesBefore;
        }
      }
    }
  }

  /** One more volume of the query extends the resumed list by that volume, unless it is skipped. */
  lemma ResumedStep(vols: seq<VolumeInfo>, i: nat, local: string, lastWork: Option<string>, lastVol: Option<string>)
    requires i < |vols|
    ensures ImageGroups(Resumed(vols[..i + 1], local, lastWork, lastVol))
         == ImageGroups(Resumed(vols[..i], local, lastWork, lastVol))
            + (if SkippedOnResume(vols[i], local, lastWork, lastVol) then [] else [vols[i].imagegroup])
  {
    assert vols[..i + 1][..i] == vols[..i];
  }

  /** The image groups tried before a failure are a prefix of the resumed volumes. */
  lemma {:induction false} PrefixOfResumed(vols: seq<VolumeInfo>, i: nat, local: string, lastWork: Option<string>, lastVol: Option<string>)
    requires i <= |vols|
    ensures ImageGroups(Resumed(vols[..i], local, lastWork, lastVol)) <= ImageGroups(Resumed(vols, local, lastWork, lastVol))
    decreases |vols| - i
  {
    if i < |vols| {
      PrefixOfResumed(vols, i + 1, local, lastWork, lastVol);
      assert vols[..i + 1][..i] == vols[..i];
    } else {
      assert vols[..i] == vols;
    }
  }

  // ---------------------------------------------------------------------------
  // input files and the main loop

  /** The work ids of the lines of an input file: blank lines are skipped, the others stripped. */
  function WorkIds(lines: seq<string>): (r: seq<string>)
    ensures |r| <= |lines|
    ensures forall i :: 0 <= i < |r| ==> |r[i]| > 0 ==> !Strs.IsSpace(r[i][0]) && !Strs.IsSpace(r[i][|r[i]| - 1])
  {
    if lines == [] then []
    else (if lines[0] == "" then [] else [Strs.Strip(lines[0])]) + WorkIds(lines[1..])
  }

  /** The ids of two runs of lines are the ids of the first run followed by those of the second. */
  lemma {:induction false} WorkIdsAppend(a: seq<string>, b: seq<string>)
    ensures WorkIds(a + b) == WorkIds(a) + WorkIds(b)
    decreases |a|
  {
    if a == [] {
      assert a + b == b;
    } else {
      assert (a + b)[0] == a[0] && (a + b)[1..] == a[1..] + b;
      WorkIdsAppend(a[1..], b);
    }
  }

  /** Each further line adds nothing when it is empty and its stripped text otherwise, in order. */
  lemma WorkIdsSnoc(lines: seq<string>, l: string)
    ensures WorkIds(lines + [l]) == WorkIds(lines) + (if l == "" then [] else [Strs.Strip(l)])
  {
    WorkIdsAppend(lines, [l]);
    assert WorkIds([l]) == (if l == "" then [] else [Strs.Strip(l)]) + WorkIds([]);
  }

  /** Only an empty line is skipped: a line of whitespace gives the empty id. */
  lemma BlankLineGivesEmptyId(l: string)
    requires l != "" && forall i :: 0 <= i < |l| ==> Strs.IsSpace(l[i])
    ensures WorkIds([l]) == [""]
  {
    Strs.StripPadded(l, "", "");
    assert l + "" + "" == l;
    assert WorkIds([l]) == [Strs.Strip(l)] + WorkIds([]);
  }

  /** get_work_ids: the ids listed one per line in an input file. */
  function GetWorkIds(text: string): seq<string>
  {
    WorkIds(Strs.Split(text, '\n'))
  }

  /** A line free of surrounding whitespace is its own stripped form. */
  lemma StripClean(s: string)
    requires |s| > 0 ==> !Strs.IsSpace(s[0]) && !Strs.IsSpace(s[|s| - 1])
    ensures Strs.Strip(s) == s
  {
  }

  /** Listing ids one per line and reading the file back gives the same ids. */
  lemma {:induction false} GetWorkIdsRoundTrip(ids: seq<string>)
    requires |ids| >= 1
    requires forall i :: 0 <= i < |ids| ==> ids[i] != "" && '\n' !in ids[i]
    requires forall i :: 0 <= i < |ids| ==> !Strs.IsSpace(ids[i][0]) && !Strs.IsSpace(ids[i][|ids[i]| - 1])
    ensures GetWorkIds(Strs.Join(ids, "\n")) == ids
  {
    Strs.SplitJoin(ids, '\n');
    WorkIdsClean(ids);
  }

  lemma {:induction false} WorkIdsClean(lines: seq<string>)
    requires forall i :: 0 <= i < |lines| ==> lines[i] != ""
    requires forall i :: 0 <= i < |lines| ==> !Strs.IsSpace(lines[i][0]) && !Strs.IsSpace(lines[i][|lines[i]| - 1])
    ensures WorkIds(lines) == lines
    decreases |lines|
  {
    if lines != [] {
      StripClean(lines[0]);
      WorkIdsClean(lines[1..]);
      assert lines == [lines[0]] + lines[1..];
    }
  }

  /** How a run of the main loop ends. */
  datatype RunOutcome =
    | Completed             // every input file was worked through
    | Restarted             // a GitHub error: the process replaces itself with a fresh run
    | Exited                // any other error: the process exits
    | LoadFailed(error: LoadError)  // the checkpoint file could not be read

  /**
   * A listed work id is accounted for: recorded as completed (under its own or
   * its local id), found empty, or with an empty local id, which
   * save_check_point never records.
   */
  predicate Accounted(id: string, works: seq<string>, empties: seq<string>)
  {
    id in works || GetWorkLocalId(id).0 in works || GetWorkLocalId(id).0 == "" || id in empties
  }

  /**
   * The body of main's loop for one listed id: an id already listed as completed
   * is skipped; otherwise the work is processed, and a GitHub error restarts the
   * run while any other failure ends it. A processed work that does not stop the
   * run is accounted for afterwards.
   */
  method RunWork(env: Env, fs: LocalFs, store: ObjectStore, cp: CheckPoint, workId: string)
    returns (ran: bool, empty: bool, stop: Option<RunOutcome>)
    modifies fs, store, cp`works, cp`imagegroup, cp`file
    ensures !ran <==> old(cp.works) != [] && workId in old(cp.works)
    ensures !ran ==> cp.works == old(cp.works) && !empty && stop == None
    ensures old(cp.works) <= cp.works
    ensures empty ==> stop == None
    ensures stop == None ==> Accounted(workId, cp.works, if empty then [workId] else [])
    ensures stop.Some? ==> stop.value == Restarted || stop.value == Exited
  {
    if cp.works != [] && workId in cp.works {
      return false, false, None;
    }
    ghost var before := cp.works;
    var result, attempted := ProcessWork(env, fs, store, cp, workId);
    ran := true;
    empty := false;
    stop := None;
    match result {
      case Published =>
        SavedWorksProperties(before, Some(GetWorkLocalId(workId).0));
      case EmptyWork =>
        empty := true;
      case PublishFailed =>
        stop := Some(Restarted);
      case VolumeFailed(_) =>
        stop := Some(Exited);
      case PublishCrashed =>
        stop := Some(Exited);
    }
  }

  /**
   * The loop over the ids of one input file: each id is run in turn until one
   * stops the run. `processed` lists the ids handed to process_work, none of
   * them listed as completed when the file was started, and `empties` those
   * found empty; when the run goes on, every id of the file is accounted for.
   */
  method RunInputFile(env: Env, fs: LocalFs, store: ObjectStore, cp: CheckPoint, ids: seq<string>)
    returns (stop: Option<RunOutcome>, processed: seq<string>, empties: seq<string>)
    modifies fs, store, cp`works, cp`imagegroup, cp`file
    ensures old(cp.works) <= cp.works
    ensures forall i :: 0 <= i < |processed| ==> processed[i] !in old(cp.works)
    ensures stop.Some? ==> stop.value == Restarted || stop.value == Exited
    ensures stop == None ==> forall j :: 0 <= j < |ids| ==> Accounted(ids[j], cp.works, empties)
  {
    ghost var works0 := cp.works;
    processed := [];
    empties := [];
    var k := 0;
    while k < |ids|
      invariant 0 <= k <= |ids|
      invariant works0 <= cp.works
      invariant forall i :: 0 <= i < |processed| ==> processed[i] !in works0
      invariant forall j :: 0 <= j < k ==> Accounted(ids[j], cp.works, empties)
    {
      ghost var worksBefore := cp.works;
      ghost var emptiesBefore := empties;
      var ran, empty, stopHere := RunWork(env, fs, store, cp, ids[k]);
      if ran {
        processed := processed + [ids[k]];
      }
      if stopHere.Some? {
        return stopHere, processed, empties;
      }
      if empty {
        empties := empties + [ids[k]];
      }
      AccountedGrows(worksBefore, cp.works, emptiesBefore, empties);
      k := k + 1;
    }
    stop := None;
  }

  /**
   * The main loop: the checkpoint file, if any, is loaded; then the ids of every
   * input file (in the given order) are processed one by one, skipping ids
   * listed as completed, and the run stops at the first work that fails.
   * `processed` lists the ids handed to process_work and `empties` those that
   * turned out empty. No id listed as completed in the loaded checkpoint is
   * processed again; a completed run accounts for every listed id.
   */
  method RunBatch(env: Env, fs: LocalFs, store: ObjectStore, onDisk: Option<CheckPointFile>, inputs: seq<string>)
    returns (outcome: RunOutcome, cp: CheckPoint, processed: seq<string>, empties: seq<string>)
    modifies fs, store
    ensures fresh(cp)
    ensures outcome.LoadFailed? <==> onDisk.Some? && ParseCheckPointFixed(onDisk.value).Failure?
    ensures onDisk.Some? ==> forall i :: 0 <= i < |processed| ==> processed[i] !in onDisk.value.works
    ensures outcome == Completed ==>
      forall f, id :: 0 <= f < |inputs| && id in GetWorkIds(inputs[f]) ==> Accounted(id, cp.works, empties)
  {
    cp := new CheckPoint(onDisk);
    processed := [];
    empties := [];
    if onDisk.Some? {
      var loaded := cp.Load();
      if loaded.Failure? {
        return LoadFailed(loaded.error), cp, processed, empties;
      }
    }
    ghost var works0 := cp.works;
    var f := 0;
    while f < |inputs|
      invariant 0 <= f <= |inputs|
      invariant works0 <= cp.works
      invariant onDisk.Some? ==> works0 == onDisk.value.works
      invariant forall i :: 0 <= i < |processed| ==> processed[i] !in works0
      invariant forall f', id :: 0 <= f' < f && id in GetWorkIds(inputs[f']) ==> Accounted(id, cp.works, empties)
    {
      ghost var worksBefore := cp.works;
      ghost var emptiesBefore := empties;
      var stop, fileProcessed, fileEmpties := RunInputFile(env, fs, store, cp, GetWorkIds(inputs[f]));
      ProcessedOutside(fileProcessed, works0, worksBefore);
      processed := processed + fileProcessed;
      if stop.Some? {
        return stop.value, cp, processed, empties + fileEmpties;
      }
      empties := empties + fileEmpties;
      AccountedFilesStep(inputs, f, worksBefore, emptiesBefore, cp.works, fileEmpties);
      f := f + 1;
    }
    outcome := Completed;
  }

  lemma ProcessedOutside(processed: seq<string>, works0: seq<string>, works: seq<string>)
    requires works0 <= works
    requires forall i :: 0 <= i < |processed| ==> processed[i] !in works
    ensures forall i :: 0 <= i < |processed| ==> processed[i] !in works0
  {
  }

  lemma AccountedFilesStep(inputs: seq<string>, f: nat, works: seq<string>, empties: seq<string>,
                            works': seq<string>, fileEmpties: seq<string>)
    requires f < |inputs| && works <= works'
    requires forall f', id :: 0 <= f' < f && id in GetWorkIds(inputs[f']) ==> Accounted(id, works, empties)
    requires forall j :: 0 <= j < |GetWorkIds(inputs[f])| ==> Accounted(GetWorkIds(inputs[f])[j], works', fileEmpties)
    ensures forall f', id :: 0 <= f' < f + 1 && id in GetWorkIds(inputs[f']) ==> Accounted(id, works', empties + fileEmpties)
  {
    AccountedGrows(works, works', empties, empties + fileEmpties);
    AccountedGrows(works', works', fileEmpties, empties + fileEmpties);
  }

  lemma AccountedGrows(works: seq<string>, works': seq<string>, empties: seq<string>, empties': seq<string>)
    requires works <= works'
    requires forall x :: x in empties ==> x in empties'
    ensures forall id :: Accounted(id, works, empties) ==> Accounted(id, works', empties')
  {
    forall id | Accounted(id, works, empties) ensures Accounted(id, works', empties') {
      assert id in works ==> id in works';
    }
  }
}
