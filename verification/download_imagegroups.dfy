/**
 * usage/bdrc/download_iamgegroups.py: staging the images of a range of a
 * work's volumes into `archive/images/missing-imagegroups`, with the range
 * filter of download_images.py (`DownloadImages.SelectedFrom`).
 *
 * The volumes come from a query on the work's local id that also yields each
 * volume's image list; the listed images are staged as prepare_training_data's
 * save_images_for_vol_incoming stages them (every image, fetched by its path).
 * There is no error handling: the first staging error ends the run.
 */
module DownloadImagegroups {
  import opened Wrappers
  import opened Storage
  import opened BdrcKeys
  import opened VolumeSteps
  import TrainingData
  import DownloadImages
  import StrOrder
  import Strs

  /** `Path("archive/images/missing-imagegroups")`, by its components. */
  const MISSING_DIR: Path := ["archive", "images", "missing-imagegroups"]

  /** What staging one volume's listed images does to the files. */
  function VolumeStaged(env: Env, files: Files, vol: TrainingData.TrainingVolume, local: string): StageOutcome
  {
    StageImages(env, files, MISSING_DIR + [local, vol.imagegroup], TrainingData.IncomingRequests(vol.imagelist))
  }

  /** The save_images_for_vol call of process, staging every listed image of one volume. */
  method StageVolume(env: Env, fs: LocalFs, vol: TrainingData.TrainingVolume, local: string) returns (ok: bool)
    modifies fs
    ensures var o := VolumeStaged(env, old(fs.files), vol, local); fs.files == o.files && ok == !o.raised
  {
    TrainingData.WindowAll(TrainingData.IncomingRequests(vol.imagelist));
    var fetched;
    ok, fetched := TrainingData.SaveImagesForVolIncoming(env, fs, vol.imagelist, local, vol.imagegroup,
                                                         MISSING_DIR, 0, None);
  }

  /** Staging the volumes at indices `idx`, in order, until one raises: the files and whether one raised. */
  function StageAll(env: Env, files: Files, local: string, vols: seq<TrainingData.TrainingVolume>, idx: seq<nat>): (Files, bool)
    requires forall a :: 0 <= a < |idx| ==> idx[a] < |vols|
    decreases |idx|
  {
    if idx == [] then (files, false)
    else
      var o := VolumeStaged(env, files, vols[idx[0]], local);
      if o.raised then (o.files, true) else StageAll(env, o.files, local, vols, idx[1..])
  }

  /** One step of `StageAll`: the volume at index `i` is staged, then the rest unless it raised. */
  lemma StageAllStep(env: Env, files: Files, after: Files, staged: bool, local: string,
                     vols: seq<TrainingData.TrainingVolume>, i: nat, rest: seq<nat>)
    requires i < |vols| && forall a :: 0 <= a < |rest| ==> rest[a] < |vols|
    requires var o := VolumeStaged(env, files, vols[i], local); after == o.files && staged == !o.raised
    ensures staged ==> StageAll(env, files, local, vols, [i] + rest) == StageAll(env, after, local, vols, rest)
    ensures !staged ==> StageAll(env, files, local, vols, [i] + rest) == (after, true)
  {
    assert ([i] + rest)[0] == i && ([i] + rest)[1..] == rest;
  }

  /**
   * process's volume loop from index `i` on, as a function of the files: the
   * files after it, the indices it attempted, and whether a staging raised.
   */
  function ProcessRun(env: Env, files: Files, local: string, vols: seq<TrainingData.TrainingVolume>,
                      start: string, end: string, skip: string, i: nat): (Files, seq<nat>, bool)
    decreases |vols| - i
  {
    if i >= |vols| || StrOrder.LexLess(end, vols[i].imagegroup) then (files, [], false)
    else if !DownloadImages.Accepts(vols[i].imagegroup, start, skip) then ProcessRun(env, files, local, vols, start, end, skip, i + 1)
    else
      var o := VolumeStaged(env, files, vols[i], local);
      if o.raised then (o.files, [i], true)
      else
        var r := ProcessRun(env, o.files, local, vols, start, end, skip, i + 1);
        (r.0, [i] + r.1, r.2)
  }

  /**
   * The loop attempts the volumes `DownloadImages.SelectedFrom` selects, in
   * order, up to the first staging that raises: all of the selection when none
   * raises and a non-empty prefix of it otherwise.
   */
  lemma {:induction false} ProcessRunSelects(env: Env, files: Files, local: string, vols: seq<TrainingData.TrainingVolume>,
                                             start: string, end: string, skip: string, i: nat)
    ensures var r := ProcessRun(env, files, local, vols, start, end, skip, i);
      var sel := DownloadImages.SelectedFrom(TrainingData.Groups(vols), start, end, skip, i);
      && r.1 <= sel
      && (!r.2 ==> r.1 == sel)
      && (r.2 ==> r.1 != [])
    decreases |vols| - i
  {
    var groups := TrainingData.Groups(vols);
    if i < |vols| {
      assert groups[i] == vols[i].imagegroup;
      DownloadImages.SelectedAt(groups, start, end, skip, i);
      if !StrOrder.LexLess(end, vols[i].imagegroup) {
        if !DownloadImages.Accepts(vols[i].imagegroup, start, skip) {
          ProcessRunSelects(env, files, local, vols, start, end, skip, i + 1);
        } else {
          var o := VolumeStaged(env, files, vols[i], local);
          if !o.raised {
            ProcessRunSelects(env, o.files, local, vols, start, end, skip, i + 1);
          }
        }
      }
    }
  }

  /** The files the loop leaves, and whether it raised, are those of staging the selection with `StageAll`. */
  lemma {:induction false} ProcessRunStages(env: Env, files: Files, local: string, vols: seq<TrainingData.TrainingVolume>,
                                            start: string, end: string, skip: string, i: nat)
    ensures var r := ProcessRun(env, files, local, vols, start, end, skip, i);
      (r.0, r.2) == StageAll(env, files, local, vols, DownloadImages.SelectedFrom(TrainingData.Groups(vols), start, end, skip, i))
    decreases |vols| - i
  {
    var groups := TrainingData.Groups(vols);
    if i < |vols| {
      assert groups[i] == vols[i].imagegroup;
      DownloadImages.SelectedAt(groups, start, end, skip, i);
      if !StrOrder.LexLess(end, vols[i].imagegroup) {
        if !DownloadImages.Accepts(vols[i].imagegroup, start, skip) {
          ProcessRunStages(env, files, local, vols, start, end, skip, i + 1);
        } else {
          var o := VolumeStaged(env, files, vols[i], local);
          var rest := DownloadImages.SelectedFrom(groups, start, end, skip, i + 1);
          StageAllStep(env, files, o.files, !o.raised, local, vols, i, rest);
          if !o.raised {
            ProcessRunStages(env, o.files, local, vols, start, end, skip, i + 1);
          }
        }
      }
    }
  }

  /**
   * process: the volumes of the work's local id are visited in query order;
   * the loop stops at the first image group above `end`, passes over those
   * below `start` or occurring in the `skip` text, and stages each other
   * volume's images into `archive/images/missing-imagegroups/<work>/<imagegroup>`.
   */
  method Process(env: Env, fs: LocalFs, query: string -> seq<TrainingData.TrainingVolume>,
                 work: string, start: string, end: string, skip: string)
    returns (queried: string, handled: seq<nat>, ok: bool)
    modifies fs
    ensures queried == GetWorkLocalId(work).0
    ensures var vols := query(queried);
      var all := DownloadImages.SelectedFrom(TrainingData.Groups(vols), start, end, skip, 0);
      && handled <= all
      && (ok ==> handled == all)
      && (!ok ==> handled != [])
      && (fs.files, !ok) == StageAll(env, old(fs.files), queried, vols, all)
  {
    var (local, _) := GetWorkLocalId(work);
    queried := local;
    var vols := query(local);
    ghost var before := fs.files;
    ghost var final := ProcessRun(env, fs.files, local, vols, start, end, skip, 0);
    handled := [];
    assert handled + final.1 == final.1;
    var i := 0;
    while i < |vols|
      invariant 0 <= i <= |vols|
      invariant var r := ProcessRun(env, fs.files, local, vols, start, end, skip, i);
        final == (r.0, handled + r.1, r.2)
    {
      var imagegroup := vols[i].imagegroup;
      if StrOrder.LexLess(end, imagegroup) {
        assert ProcessRun(env, fs.files, local, vols, start, end, skip, i) == (fs.files, [], false);
        assert handled + [] == handled;
        break;
      }
      if StrOrder.LexLess(imagegroup, start) {
        i := i + 1;
        continue;
      }
      if Strs.IsSubstring(imagegroup, skip) {
        i := i + 1;
        continue;
      }
      ghost var o := VolumeStaged(env, fs.files, vols[i], local);
      ghost var rest := ProcessRun(env, o.files, local, vols, start, end, skip, i + 1).1;
      assert ProcessRun(env, fs.files, local, vols, start, end, skip, i)
          == if o.raised then (o.files, [i], true) else var r := ProcessRun(env, o.files, local, vols, start, end, skip, i + 1); (r.0, [i] + r.1, r.2);
      var staged := StageVolume(env, fs, vols[i], local);
      Strs.AppendAssoc(handled, [i], rest);
      handled := handled + [i];
      if !staged {
        assert final == (fs.files, handled, true);
        ProcessRunSelects(env, before, local, vols, start, end, skip, 0);
        ProcessRunStages(env, before, local, vols, start, end, skip, 0);
        return queried, handled, false;
      }
      i := i + 1;
    }
    if i == |vols| {
      assert ProcessRun(env, fs.files, local, vols, start, end, skip, i) == (fs.files, [], false);
      assert handled + [] == handled;
    }
    assert final == (fs.files, handled, false);
    ProcessRunSelects(env, before, local, vols, start, end, skip, 0);
    ProcessRunStages(env, before, local, vols, start, end, skip, 0);
    ok := true;
  }

  /**
   * Staging never changes or removes a file, and every file it adds lies
   * directly in the folder of one of the staged volumes.
   */
  lemma {:induction false} StageAllExtends(env: Env, files: Files, local: string,
                                           vols: seq<TrainingData.TrainingVolume>, idx: seq<nat>)
    requires forall a :: 0 <= a < |idx| ==> idx[a] < |vols|
    ensures var r := StageAll(env, files, local, vols, idx).0;
      && Extends(files, r)
      && forall p :: p in r && p !in files ==>
           exists a :: 0 <= a < |idx| && IsChild(p, MISSING_DIR + [local, vols[idx[a]].imagegroup])
    decreases |idx|
  {
    if idx != [] {
      var vol := vols[idx[0]];
      var dir := MISSING_DIR + [local, vol.imagegroup];
      var reqs := TrainingData.IncomingRequests(vol.imagelist);
      StageExtends(env, files, dir, reqs);
      var o := VolumeStaged(env, files, vol, local);
      var r := StageAll(env, files, local, vols, idx).0;
      if !o.raised {
        StageAllExtends(env, o.files, local, vols, idx[1..]);
      }
      forall p | p in r && p !in files
        ensures exists a :: 0 <= a < |idx| && IsChild(p, MISSING_DIR + [local, vols[idx[a]].imagegroup])
      {
        if p in o.files {
          var k :| 0 <= k < |reqs| && IsStagedFrom(env, reqs[k], dir, p, o.files[p]);
          assert IsChild(p, MISSING_DIR + [local, vols[idx[0]].imagegroup]);
        } else {
          var a :| 0 <= a < |idx[1..]| && IsChild(p, MISSING_DIR + [local, vols[idx[1..][a]].imagegroup]);
          assert idx[1..][a] == idx[a + 1];
        }
      }
    }
  }
}
