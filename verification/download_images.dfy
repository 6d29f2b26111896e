/**
 * usage/bdrc/download_images.py: staging the images of a range of a work's
 * volumes, chosen by image-group id, with the pipeline's own
 * save_images_for_vol. The range filter defined here is shared with
 * usage/bdrc/download_iamgegroups.py.
 */
module DownloadImages {
  import opened Storage
  import opened BdrcKeys
  import opened VolumeSteps
  import StrOrder
  import Strs

  // ---------------------------------------------------------------------------
  // the range filter

  /** The command-line defaults: `chr(0)`, `chr(sys.maxunicode)`, no skip text, and `./archive/images`. */
  const START_DEFAULT: string := [0 as char]
  const END_DEFAULT: string := ['\U{10FFFF}']
  const SKIP_DEFAULT: string := ""
  const OUTPUT_DIR_DEFAULT: Path := ["archive", "images"]

  /** A volume within range is taken unless its id sorts before `start` or occurs anywhere in the `skip` text. */
  predicate Accepts(imagegroup: string, start: string, skip: string)
  {
    !StrOrder.LexLess(imagegroup, start) && !Strs.IsSubstring(imagegroup, skip)
  }

  /**
   * The indices of the volumes process stages, from index `i` on: the loop
   * stops at the first image group above `end` and passes over those not accepted.
   */
  function SelectedFrom(groups: seq<string>, start: string, end: string, skip: string, i: nat): (r: seq<nat>)
    ensures forall a :: 0 <= a < |r| ==> i <= r[a] < |groups|
    decreases |groups| - i
  {
    if i >= |groups| || StrOrder.LexLess(end, groups[i]) then []
    else if Accepts(groups[i], start, skip) then [i] + SelectedFrom(groups, start, end, skip, i + 1)
    else SelectedFrom(groups, start, end, skip, i + 1)
  }

  /**
   * `r` is increasing and in range from `i` on; each of its indices is accepted,
   * and it and every group before it from `i` on are at most `end`.
   */
  predicate SelectionSound(groups: seq<string>, start: string, end: string, skip: string, i: nat, r: seq<nat>)
  {
    && (forall a, b :: 0 <= a < b < |r| ==> r[a] < r[b])
    && (forall a :: 0 <= a < |r| ==> i <= r[a] < |groups| && Accepts(groups[r[a]], start, skip))
    && (forall a, j :: 0 <= a < |r| && i <= j <= r[a] ==> !StrOrder.LexLess(end, groups[j]))
  }

  /** The selection is sound, so nothing at or after a group above `end` is ever selected. */
  lemma {:induction false} SelectedSound(groups: seq<string>, start: string, end: string, skip: string, i: nat)
    ensures SelectionSound(groups, start, end, skip, i, SelectedFrom(groups, start, end, skip, i))
    decreases |groups| - i
  {
    if i < |groups| && !StrOrder.LexLess(end, groups[i]) {
      var rest := SelectedFrom(groups, start, end, skip, i + 1);
      SelectedSound(groups, start, end, skip, i + 1);
      if Accepts(groups[i], start, skip) {
        SoundCons(groups, start, end, skip, i, rest);
      } else {
        SoundWiden(groups, start, end, skip, i, rest);
      }
    }
  }

  lemma SoundCons(groups: seq<string>, start: string, end: string, skip: string, i: nat, rest: seq<nat>)
    requires i < |groups| && !StrOrder.LexLess(end, groups[i]) && Accepts(groups[i], start, skip)
    requires SelectionSound(groups, start, end, skip, i + 1, rest)
    ensures SelectionSound(groups, start, end, skip, i, [i] + rest)
  {
    var r := [i] + rest;
    forall a, b | 0 <= a < b < |r| ensures r[a] < r[b] {
      assert r[b] == rest[b - 1];
    }
    forall a | 0 <= a < |r| ensures i <= r[a] < |groups| && Accepts(groups[r[a]], start, skip) {
      if a > 0 { assert r[a] == rest[a - 1]; }
    }
    forall a, j | 0 <= a < |r| && i <= j <= r[a] ensures !StrOrder.LexLess(end, groups[j]) {
      if a > 0 && j > i { assert r[a] == rest[a - 1]; }
    }
  }

  lemma SoundWiden(groups: seq<string>, start: string, end: string, skip: string, i: nat, rest: seq<nat>)
    requires i < |groups| && !StrOrder.LexLess(end, groups[i])
    requires SelectionSound(groups, start, end, skip, i + 1, rest)
    ensures SelectionSound(groups, start, end, skip, i, rest)
  {
  }

  /** Every accepted group that, with every group before it from `i` on, is at most `end` is selected. */
  lemma {:induction false} SelectedComplete(groups: seq<string>, start: string, end: string, skip: string, i: nat, k: nat)
    requires i <= k < |groups| && Accepts(groups[k], start, skip)
    requires forall j :: i <= j <= k ==> !StrOrder.LexLess(end, groups[j])
    ensures k in SelectedFrom(groups, start, end, skip, i)
    decreases k - i
  {
    if i < k {
      SelectedComplete(groups, start, end, skip, i + 1, k);
    }
  }

  /** How the selection from `i` starts, by the test process makes on the group at `i`. */
  lemma SelectedAt(groups: seq<string>, start: string, end: string, skip: string, i: nat)
    requires i < |groups|
    ensures StrOrder.LexLess(end, groups[i]) ==> SelectedFrom(groups, start, end, skip, i) == []
    ensures !StrOrder.LexLess(end, groups[i]) && StrOrder.LexLess(groups[i], start) ==>
      SelectedFrom(groups, start, end, skip, i) == SelectedFrom(groups, start, end, skip, i + 1)
    ensures !StrOrder.LexLess(end, groups[i]) && Strs.IsSubstring(groups[i], skip) ==>
      SelectedFrom(groups, start, end, skip, i) == SelectedFrom(groups, start, end, skip, i + 1)
    ensures !StrOrder.LexLess(end, groups[i]) && !StrOrder.LexLess(groups[i], start) && !Strs.IsSubstring(groups[i], skip) ==>
      SelectedFrom(groups, start, end, skip, i) == [i] + SelectedFrom(groups, start, end, skip, i + 1)
  {
  }

  /** The empty id occurs in every text, so a volume with an empty image-group id is always skipped. */
  lemma EmptyGroupRejected(start: string, skip: string)
    ensures !Accepts("", start, skip)
  {
    assert Strs.OccursAt("", skip, 0);
  }

  /**
   * The skip text is searched, not split: a group occurring anywhere in it is
   * skipped, so `I12` is skipped by `I1234,I5678` although it is not listed.
   */
  lemma SkipMatchesSubstrings(g: string, start: string, before: string, after: string)
    ensures !Accepts(g, start, before + g + after)
  {
    var skip := before + g + after;
    assert skip[|before|..|before| + |g|] == g;
    assert Strs.OccursAt(g, skip, |before|);
  }

  /**
   * With the defaults, when no image group sorts above `chr(sys.maxunicode)`,
   * exactly the volumes with a non-empty image-group id are staged.
   */
  lemma DefaultsSelectNonEmpty(groups: seq<string>, k: nat)
    requires k < |groups|
    requires forall j :: 0 <= j < |groups| ==> !StrOrder.LexLess(END_DEFAULT, groups[j])
    ensures k in SelectedFrom(groups, START_DEFAULT, END_DEFAULT, SKIP_DEFAULT, 0) <==> groups[k] != ""
  {
    if groups[k] != "" {
      assert !StrOrder.LexLess(groups[k], START_DEFAULT) by {
        assert !StrOrder.LexLess(groups[k][1..], []);
      }
      assert !Strs.IsSubstring(groups[k], SKIP_DEFAULT);
      SelectedComplete(groups, START_DEFAULT, END_DEFAULT, SKIP_DEFAULT, 0, k);
    } else {
      SelectedSound(groups, START_DEFAULT, END_DEFAULT, SKIP_DEFAULT, 0);
      EmptyGroupRejected(START_DEFAULT, SKIP_DEFAULT);
    }
  }

  // ---------------------------------------------------------------------------
  // staging the selected volumes

  /** What save_images_for_vol does to the files for one volume; an empty image-group id raises. */
  function VolumeStaged(env: Env, files: Files, vol: VolumeInfo, local: string, outputDir: Path): StageOutcome
  {
    if vol.imagegroup == "" then StageOutcome(files, [], true)
    else StageImages(env, files, outputDir + [local, vol.imagegroup],
                     ImageRequests(ImagesPrefix(HashBucket(env.md5hex, local), local, vol.imagegroup),
                                   env.imageList(vol.volumePrefixUrl)))
  }

  /** Staging the volumes at indices `idx`, in order, until one raises: the files and whether one raised. */
  function StageAll(env: Env, files: Files, local: string, vols: seq<VolumeInfo>, outputDir: Path, idx: seq<nat>): (Files, bool)
    requires forall a :: 0 <= a < |idx| ==> idx[a] < |vols|
    decreases |idx|
  {
    if idx == [] then (files, false)
    else
      var o := VolumeStaged(env, files, vols[idx[0]], local, outputDir);
      if o.raised then (o.files, true) else StageAll(env, o.files, local, vols, outputDir, idx[1..])
  }

  /** One step of `StageAll`: the volume at index `i` is staged, then the rest unless it raised. */
  lemma StageAllStep(env: Env, files: Files, after: Files, staged: bool, local: string, vols: seq<VolumeInfo>,
                     outputDir: Path, i: nat, rest: seq<nat>)
    requires i < |vols| && forall a :: 0 <= a < |rest| ==> rest[a] < |vols|
    requires var o := VolumeStaged(env, files, vols[i], local, outputDir); after == o.files && staged == !o.raised
    ensures staged ==> StageAll(env, files, local, vols, outputDir, [i] + rest)
                       == StageAll(env, after, local, vols, outputDir, rest)
    ensures !staged ==> StageAll(env, files, local, vols, outputDir, [i] + rest) == (after, true)
  {
    assert ([i] + rest)[0] == i && ([i] + rest)[1..] == rest;
  }

  /**
   * process's volume loop from index `i` on, as a function of the files: the
   * files after it, the indices it attempted, and whether a staging raised.
   */
  function ProcessRun(env: Env, files: Files, local: string, vols: seq<VolumeInfo>, outputDir: Path,
                      start: string, end: string, skip: string, i: nat): (Files, seq<nat>, bool)
    decreases |vols| - i
  {
    if i >= |vols| || StrOrder.LexLess(end, vols[i].imagegroup) then (files, [], false)
    else if !Accepts(vols[i].imagegroup, start, skip) then ProcessRun(env, files, local, vols, outputDir, start, end, skip, i + 1)
    else
      var o := VolumeStaged(env, files, vols[i], local, outputDir);
      if o.raised then (o.files, [i], true)
      else
        var r := ProcessRun(env, o.files, local, vols, outputDir, start, end, skip, i + 1);
        (r.0, [i] + r.1, r.2)
  }

  /**
   * The loop attempts the volumes `SelectedFrom` selects, in order, up to the
   * first staging that raises: all of the selection when none raises and a
   * non-empty prefix of it otherwise.
   */
  lemma {:induction false} ProcessRunSelects(env: Env, files: Files, local: string, vols: seq<VolumeInfo>, outputDir: Path,
                                             start: string, end: string, skip: string, i: nat)
    ensures var r := ProcessRun(env, files, local, vols, outputDir, start, end, skip, i);
      var sel := SelectedFrom(ImageGroups(vols), start, end, skip, i);
      && r.1 <= sel
      && (!r.2 ==> r.1 == sel)
      && (r.2 ==> r.1 != [])
    decreases |vols| - i
  {
    var groups := ImageGroups(vols);
    if i < |vols| {
      assert groups[i] == vols[i].imagegroup;
      SelectedAt(groups, start, end, skip, i);
      if !StrOrder.LexLess(end, vols[i].imagegroup) {
        if !Accepts(vols[i].imagegroup, start, skip) {
          ProcessRunSelects(env, files, local, vols, outputDir, start, end, skip, i + 1);
        } else {
          var o := VolumeStaged(env, files, vols[i], local, outputDir);
          if !o.raised {
            ProcessRunSelects(env, o.files, local, vols, outputDir, start, end, skip, i + 1);
          }
        }
      }
    }
  }

  /** The files the loop leaves, and whether it raised, are those of staging the selection with `StageAll`. */
  lemma {:induction false} ProcessRunStages(env: Env, files: Files, local: string, vols: seq<VolumeInfo>, outputDir: Path,
                                            start: string, end: string, skip: string, i: nat)
    ensures var r := ProcessRun(env, files, local, vols, outputDir, start, end, skip, i);
      (r.0, r.2) == StageAll(env, files, local, vols, outputDir, SelectedFrom(ImageGroups(vols), start, end, skip, i))
    decreases |vols| - i
  {
    var groups := ImageGroups(vols);
    if i < |vols| {
      assert groups[i] == vols[i].imagegroup;
      SelectedAt(groups, start, end, skip, i);
      if !StrOrder.LexLess(end, vols[i].imagegroup) {
        if !Accepts(vols[i].imagegroup, start, skip) {
          ProcessRunStages(env, files, local, vols, outputDir, start, end, skip, i + 1);
        } else {
          var o := VolumeStaged(env, files, vols[i], local, outputDir);
          if !o.raised {
            ProcessRunStages(env, o.files, local, vols, outputDir, start, end, skip, i + 1);
          }
          ProcessRunAcceptedStep(env, files, o, local, vols, outputDir, start, end, skip, i);
        }
      }
    }
  }

  /** The step of `ProcessRunStages` at an accepted volume, given the claim for the volumes after it. */
  lemma ProcessRunAcceptedStep(env: Env, files: Files, o: StageOutcome, local: string, vols: seq<VolumeInfo>,
                               outputDir: Path, start: string, end: string, skip: string, i: nat)
    requires i < |vols| && !StrOrder.LexLess(end, vols[i].imagegroup) && Accepts(vols[i].imagegroup, start, skip)
    requires o == VolumeStaged(env, files, vols[i], local, outputDir)
    requires !o.raised ==> var r := ProcessRun(env, o.files, local, vols, outputDir, start, end, skip, i + 1);
      (r.0, r.2) == StageAll(env, o.files, local, vols, outputDir, SelectedFrom(ImageGroups(vols), start, end, skip, i + 1))
    ensures var r := ProcessRun(env, files, local, vols, outputDir, start, end, skip, i);
      (r.0, r.2) == StageAll(env, files, local, vols, outputDir, SelectedFrom(ImageGroups(vols), start, end, skip, i))
  {
    var groups := ImageGroups(vols);
    assert groups[i] == vols[i].imagegroup;
    SelectedAt(groups, start, end, skip, i);
    var rest := SelectedFrom(groups, start, end, skip, i + 1);
    StageAllStep(env, files, o.files, !o.raised, local, vols, outputDir, i, rest);
  }

  /**
   * process: the work's volumes are visited in query order; the loop stops at
   * the first image group above `end` and stages each accepted volume into
   * `<outputDir>/<work>/<imagegroup>`; a staging error ends the run. `handled`
   * lists the indices attempted.
   */
  method Process(env: Env, fs: LocalFs, work: string, start: string, end: string, skip: string, outputDir: Path)
    returns (handled: seq<nat>, ok: bool)
    modifies fs
    ensures var (local, qualified) := GetWorkLocalId(work);
      var vols := env.volumeInfos(qualified);
      var all := SelectedFrom(ImageGroups(vols), start, end, skip, 0);
      && handled <= all
      && (ok ==> handled == all)
      && (!ok ==> handled != [])
      && (fs.files, !ok) == StageAll(env, old(fs.files), local, vols, outputDir, all)
  {
    var (local, qualified) := GetWorkLocalId(work);
    var vols := env.volumeInfos(qualified);
    ghost var before := fs.files;
    ghost var final := ProcessRun(env, fs.files, local, vols, outputDir, start, end, skip, 0);
    handled := [];
    assert handled + final.1 == final.1;
    var i := 0;
    while i < |vols|
      invariant 0 <= i <= |vols|
      invariant var r := ProcessRun(env, fs.files, local, vols, outputDir, start, end, skip, i);
        final == (r.0, handled + r.1, r.2)
    {
      var imagegroup := vols[i].imagegroup;
      if StrOrder.LexLess(end, imagegroup) {
        assert ProcessRun(env, fs.files, local, vols, outputDir, start, end, skip, i) == (fs.files, [], false);
        assert handled + [] == handled;
        break;
      }
      if StrOrder.LexLess(imagegroup, start) {
        i := i + 1;
        continue;
      }
      if Strs.IsSubstring(imagegroup, skip) {
        i := i + 1;
        continue;
      }
      ghost var o := VolumeStaged(env, fs.files, vols[i], local, outputDir);
      ghost var rest := ProcessRun(env, o.files, local, vols, outputDir, start, end, skip, i + 1).1;
      assert ProcessRun(env, fs.files, local, vols, outputDir, start, end, skip, i)
          == if o.raised then (o.files, [i], true) else var r := ProcessRun(env, o.files, local, vols, outputDir, start, end, skip, i + 1); (r.0, [i] + r.1, r.2);
      var staged, fetched := SaveImagesForVol(env, fs, vols[i].volumePrefixUrl, local, imagegroup, outputDir);
      Strs.AppendAssoc(handled, [i], rest);
      handled := handled + [i];
      if !staged {
        assert final == (fs.files, handled, true);
        ProcessRunSelects(env, before, local, vols, outputDir, start, end, skip, 0);
        ProcessRunStages(env, before, local, vols, outputDir, start, end, skip, 0);
        return handled, false;
      }
      i := i + 1;
    }
    if i == |vols| {
      assert ProcessRun(env, fs.files, local, vols, outputDir, start, end, skip, i) == (fs.files, [], false);
      assert handled + [] == handled;
    }
    assert final == (fs.files, handled, false);
    ProcessRunSelects(env, before, local, vols, outputDir, start, end, skip, 0);
    ProcessRunStages(env, before, local, vols, outputDir, start, end, skip, 0);
    ok := true;
  }

  /**
   * Staging never changes or removes a file, and every file it adds lies
   * directly in the folder of one of the staged volumes.
   */
  lemma {:induction false} StageAllExtends(env: Env, files: Files, local: string, vols: seq<VolumeInfo>,
                                           outputDir: Path, idx: seq<nat>)
    requires forall a :: 0 <= a < |idx| ==> idx[a] < |vols|
    ensures var r := StageAll(env, files, local, vols, outputDir, idx).0;
      && Extends(files, r)
      && forall p :: p in r && p !in files ==>
           exists a :: 0 <= a < |idx| && IsChild(p, outputDir + [local, vols[idx[a]].imagegroup])
    decreases |idx|
  {
    if idx != [] {
      var vol := vols[idx[0]];
      var dir := outputDir + [local, vol.imagegroup];
      var reqs := ImageRequests(ImagesPrefix(HashBucket(env.md5hex, local), local, vol.imagegroup),
                                env.imageList(vol.volumePrefixUrl));
      if vol.imagegroup != "" {
        StageExtends(env, files, dir, reqs);
      }
      var o := VolumeStaged(env, files, vol, local, outputDir);
      var r := StageAll(env, files, local, vols, outputDir, idx).0;
      if !o.raised {
        StageAllExtends(env, o.files, local, vols, outputDir, idx[1..]);
      }
      forall p | p in r && p !in files
        ensures exists a :: 0 <= a < |idx| && IsChild(p, outputDir + [local, vols[idx[a]].imagegroup])
      {
        if p in o.files {
          var k :| 0 <= k < |reqs| && IsStagedFrom(env, reqs[k], dir, p, o.files[p]);
          assert IsChild(p, outputDir + [local, vols[idx[0]].imagegroup]);
        } else {
          var a :| 0 <= a < |idx[1..]| && IsChild(p, outputDir + [local, vols[idx[1..][a]].imagegroup]);
          assert idx[1..][a] == idx[a + 1];
        }
      }
    }
  }
}
