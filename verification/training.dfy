/**
 * usage/bdrc/prepare_training_data.py: staging a window of a volume's images
 * for a training set, either from the archive bucket or from a volume's own
 * image list, and the work loop that picks which volumes to stage.
 *
 * The staging steps reuse the fetch-and-save rules of the OCR pipeline
 * (`StageImages`); only the choice of images and volumes is new here.
 */
module TrainingData {
  import opened Wrappers
  import opened Storage
  import opened BdrcKeys
  import opened VolumeSteps
  import StrOrder
  import Strs
  import Decimal

  // ---------------------------------------------------------------------------
  // the image window

  /**
   * The entries at indices `start <= i < start + n` of a list, in list order;
   * `n == None` is the default infinite count, which keeps every index from `start` on.
   */
  function Window<T>(s: seq<T>, start: nat, n: Option<nat>): (r: seq<T>)
    ensures start >= |s| ==> r == []
    ensures start < |s| ==> |r| == (if n.Some? && start + n.value < |s| then n.value else |s| - start)
    ensures forall j :: 0 <= j < |r| ==> r[j] == s[start + j]
  {
    if start >= |s| then []
    else if n.Some? && start + n.value < |s| then s[start..start + n.value]
    else s[start..]
  }

  /** An index lies in the window exactly when it is one of the window's positions. */
  lemma WindowIndices<T>(s: seq<T>, start: nat, n: Option<nat>, i: nat)
    requires i < |s|
    ensures (start <= i && (n.None? || i < start + n.value)) <==> start <= i < start + |Window(s, start, n)|
  {
  }

  /** With the default arguments the window is the whole list. */
  lemma WindowAll<T>(s: seq<T>)
    ensures Window(s, 0, None) == s
  {
  }

  /** How far the enumerate loop has got into the window when it reaches index `i`. */
  function WindowDone(i: nat, start: nat, len: nat): nat
  {
    if i <= start then 0 else if i - start < len then i - start else len
  }

  /** Where the enumerate loop stands in the window at index `i` and after it. */
  lemma WindowDoneStep<T>(s: seq<T>, start: nat, n: Option<nat>, i: nat)
    requires i <= |s|
    ensures var w := Window(s, start, n);
      && (i == |s| ==> WindowDone(i, start, |w|) == |w|)
      && (i < |s| && i < start ==> WindowDone(i + 1, start, |w|) == 0 == WindowDone(i, start, |w|))
      && (start <= i && n.Some? && i >= start + n.value ==> WindowDone(i, start, |w|) == |w|)
      && (start <= i < |s| && (n.None? || i < start + n.value) ==>
            WindowDone(i, start, |w|) == i - start < |w| && w[i - start] == s[i]
            && WindowDone(i + 1, start, |w|) == i - start + 1)
  {
  }

  /**
   * The enumerate loop shared by both staging functions: indices before `start`
   * are skipped, the loop breaks at `start + n`, and each request in between is
   * staged like the pipeline stages an image.
   */
  method StageWindow(env: Env, fs: LocalFs, dir: Path, reqs: seq<Request>, start: nat, n: Option<nat>)
    returns (ok: bool, fetched: seq<string>)
    requires |dir| >= 2
    modifies fs
    ensures var o := StageImages(env, old(fs.files), dir, Window(reqs, start, n));
      fs.files == o.files && fetched == o.fetched && ok == !o.raised
  {
    ghost var w := Window(reqs, start, n);
    ghost var all := StageImages(env, fs.files, dir, w);
    fetched := [];
    var i := 0;
    while i < |reqs|
      invariant 0 <= i <= |reqs|
      invariant all == Prepend(fetched, StageImages(env, fs.files, dir, w[WindowDone(i, start, |w|)..]))
    {
      WindowDoneStep(reqs, start, n, i);
      if i < start {
        i := i + 1;
        continue;
      }
      if n.Some? && i >= start + n.value {
        break;
      }
      var req := reqs[i];
      ghost var rest := w[i - start..];
      assert rest[0] == req && rest[1..] == w[i - start + 1..];
      if ImageExistsLocally(fs.files, req.filename, dir) {
        i := i + 1;
        continue;
      }
      var filebits := GetS3Bits(env, req.key);
      if filebits.Raised? {
        assert StageImages(env, fs.files, dir, rest) == StageOutcome(fs.files, [req.key], true);
        fetched := fetched + [req.key];
        return false, fetched;
      }
      ghost var before := fs.files;
      ghost var next := StepFiles(env, before, dir, req);
      if filebits.Found? {
        var saved := SaveFile(env, fs, filebits.bits, req.filename, dir);
        if !saved {
          assert StageImages(env, before, dir, rest) == StageOutcome(before, [req.key], true);
          fetched := fetched + [req.key];
          return false, fetched;
        }
      }
      assert StageImages(env, before, dir, rest) == Then(req.key, StageImages(env, next, dir, w[i - start + 1..]));
      PrependThen(fetched, req.key, StageImages(env, next, dir, w[i - start + 1..]));
      fetched := fetched + [req.key];
      i := i + 1;
    }
    WindowDoneStep(reqs, start, n, i);
    ok := true;
  }

  /**
   * save_images_for_vol with a window: the volume's listed images at indices
   * `start <= i < start + n` are staged into `<imagesBase>/<work>/<imagegroup>`,
   * each fetched under `<images prefix>/<file name>`. An empty image-group id
   * raises before anything is listed.
   */
  method SaveImagesForVolWindow(env: Env, fs: LocalFs, volumePrefixUrl: string, work: string, imagegroup: string,
                                imagesBase: Path, start: nat, n: Option<nat>)
    returns (ok: bool, fetched: seq<string>)
    modifies fs
    ensures imagegroup == "" ==> !ok && fetched == [] && fs.files == old(fs.files)
    ensures imagegroup != "" ==>
      var reqs := ImageRequests(ImagesPrefix(HashBucket(env.md5hex, work), work, imagegroup), env.imageList(volumePrefixUrl));
      var o := StageImages(env, old(fs.files), imagesBase + [work, imagegroup], Window(reqs, start, n));
      fs.files == o.files && fetched == o.fetched && ok == !o.raised
  {
    var s3prefix := GetS3PrefixPath(env.md5hex, work, imagegroup, None, "", []);
    if s3prefix.Failure? {
      return false, [];
    }
    var reqs := ImageRequests(s3prefix.value.path, env.imageList(volumePrefixUrl));
    ok, fetched := StageWindow(env, fs, imagesBase + [work, imagegroup], reqs, start, n);
  }

  /** With the default window, the windowed staging is exactly the pipeline's own save_images_for_vol. */
  lemma DefaultWindowIsPipelineStaging(env: Env, files: Files, dir: Path, reqs: seq<Request>)
    requires |dir| >= 2
    ensures StageImages(env, files, dir, Window(reqs, 0, None)) == StageImages(env, files, dir, reqs)
  {
    WindowAll(reqs);
  }

  /** `str(path)` of a relative path given by its components (a leading `/` component gives `//`, unlike pathlib). */
  function PathString(p: Path): string
  {
    if p == [] then "." else Strs.Join(p, "/")
  }

  /** `path.name`: the last component. */
  function PathName(p: Path): string
  {
    if p == [] then "" else p[|p| - 1]
  }

  /** The requests of save_images_for_vol_incoming: each listed path is fetched by its own text and staged under its name. */
  function IncomingRequests(imagelist: seq<Path>): (r: seq<Request>)
    ensures |r| == |imagelist|
    ensures forall i :: 0 <= i < |r| ==> r[i].key == PathString(imagelist[i]) && r[i].filename == PathName(imagelist[i])
  {
    seq(|imagelist|, i requires 0 <= i < |imagelist| => Request(PathString(imagelist[i]), PathName(imagelist[i])))
  }

  /**
   * save_images_for_vol_incoming: the same window over the given image paths,
   * with no archive prefix and no image-group check.
   */
  method SaveImagesForVolIncoming(env: Env, fs: LocalFs, imagelist: seq<Path>, work: string, imagegroup: string,
                                  imagesBase: Path, start: nat, n: Option<nat>)
    returns (ok: bool, fetched: seq<string>)
    modifies fs
    ensures var o := StageImages(env, old(fs.files), imagesBase + [work, imagegroup], Window(IncomingRequests(imagelist), start, n));
      fs.files == o.files && fetched == o.fetched && ok == !o.raised
  {
    ok, fetched := StageWindow(env, fs, imagesBase + [work, imagegroup], IncomingRequests(imagelist), start, n);
  }

  // ---------------------------------------------------------------------------
  // the work loop

  /** One row of the volumes query this script expects, with the image list of incoming volumes. */
  datatype TrainingVolume = TrainingVolume(imagegroup: string, volumePrefixUrl: string, imagelist: seq<Path>)

  /** The `filters` dictionary: the volume source type, the last image group to take, and the ones to skip. */
  datatype Filters = Filters(kind: string, till: string, skip: seq<string>)

  const INCOMING := "incomming"
  /** `Path("./publication")` and `Path("/media/tenzin/Maetok")`, by their components. */
  const PUBLICATION_DIR: Path := ["publication"]
  const INCOMING_DIR: Path := ["/", "media", "tenzin", "Maetok"]

  /** The id the volumes are queried with: the local id for incoming volumes, the qualified id otherwise. */
  function QueryId(work: string, filters: Filters): (r: string)
    ensures filters.kind == INCOMING ==> r == GetWorkLocalId(work).0
    ensures filters.kind != INCOMING ==> r == GetWorkLocalId(work).1
  {
    var (local, qualified) := GetWorkLocalId(work);
    if filters.kind == INCOMING then local else qualified
  }

  /** The image groups of a list of training volumes, in order. */
  function Groups(vols: seq<TrainingVolume>): (r: seq<string>)
  {
    seq(|vols|, i requires 0 <= i < |vols| => vols[i].imagegroup)
  }

  /**
   * The indices process_work stages, from index `i` on: the loop stops at the first
   * image group above `till`, skips those listed in `skip`, and breaks right after
   * staging the volume at index 1.
   */
  function HandledFrom(groups: seq<string>, till: string, skip: seq<string>, i: nat): (r: seq<nat>)
    ensures forall a :: 0 <= a < |r| ==> i <= r[a] < |groups|
    decreases |groups| - i
  {
    if i >= |groups| || StrOrder.LexLess(till, groups[i]) then []
    else if groups[i] in skip then HandledFrom(groups, till, skip, i + 1)
    else if i == 1 then [1]
    else [i] + HandledFrom(groups, till, skip, i + 1)
  }

  /** How the selection from index `i` starts, by each of the loop's tests. */
  lemma HandledAt(groups: seq<string>, till: string, skip: seq<string>, i: nat)
    requires i < |groups|
    ensures StrOrder.LexLess(till, groups[i]) ==> HandledFrom(groups, till, skip, i) == []
    ensures !StrOrder.LexLess(till, groups[i]) && groups[i] in skip ==>
      HandledFrom(groups, till, skip, i) == HandledFrom(groups, till, skip, i + 1)
    ensures !StrOrder.LexLess(till, groups[i]) && groups[i] !in skip ==>
      HandledFrom(groups, till, skip, i) == [i] + (if i == 1 then [] else HandledFrom(groups, till, skip, i + 1))
  {
  }

  /** Every image group up to index `k` is at most `till`. */
  predicate UpToTill(groups: seq<string>, till: string, k: nat)
    requires k < |groups|
  {
    forall j :: 0 <= j <= k ==> !StrOrder.LexLess(till, groups[j])
  }

  /**
   * The staged indices are increasing, each at or after `i`, in range and not
   * skipped; and once index 1 is staged nothing after it is.
   */
  lemma {:induction false} HandledSound(groups: seq<string>, till: string, skip: seq<string>, i: nat)
    ensures var r := HandledFrom(groups, till, skip, i);
      && (forall a, b :: 0 <= a < b < |r| ==> r[a] < r[b])
      && (forall a :: 0 <= a < |r| ==> groups[r[a]] !in skip)
      && (1 in r ==> r[|r| - 1] == 1)
    decreases |groups| - i
  {
    if !(i >= |groups| || StrOrder.LexLess(till, groups[i])) && !(i == 1 && groups[i] !in skip) {
      HandledSound(groups, till, skip, i + 1);
    }
  }

  /** Every group from `i` up to a staged index is at most `till`. */
  lemma {:induction false} HandledUpToTill(groups: seq<string>, till: string, skip: seq<string>, i: nat)
    ensures var r := HandledFrom(groups, till, skip, i);
      forall a, j :: 0 <= a < |r| && i <= j <= r[a] ==> !StrOrder.LexLess(till, groups[j])
    decreases |groups| - i
  {
    if !(i >= |groups| || StrOrder.LexLess(till, groups[i])) && !(i == 1 && groups[i] !in skip) {
      HandledUpToTill(groups, till, skip, i + 1);
      HandledAt(groups, till, skip, i);
      var r, next := HandledFrom(groups, till, skip, i), HandledFrom(groups, till, skip, i + 1);
      forall a, j | 0 <= a < |r| && i <= j <= r[a]
        ensures !StrOrder.LexLess(till, groups[j])
      {
        if j > i {
          var b := if groups[i] in skip then a else a - 1;
          assert 0 <= b < |next| && next[b] == r[a];
        }
      }
    }
  }

  /**
   * Every group at or after `i` that is at most `till` with all groups before it,
   * is not skipped, and comes no later than index 1 — or at any index once the
   * group at index 1 is skipped — is staged.
   */
  lemma {:induction false} HandledComplete(groups: seq<string>, till: string, skip: seq<string>, i: nat, k: nat)
    requires i <= k < |groups| && UpToTill(groups, till, k) && groups[k] !in skip
    requires k <= 1 || (|groups| > 1 && groups[1] in skip) || i > 1
    ensures k in HandledFrom(groups, till, skip, i)
    decreases k - i
  {
    assert !StrOrder.LexLess(till, groups[i]);
    if i < k {
      if groups[i] in skip {
        HandledComplete(groups, till, skip, i + 1, k);
      } else {
        assert i != 1;
        HandledComplete(groups, till, skip, i + 1, k);
      }
    }
  }

  /**
   * The break after index 1 is bypassed when that volume is skipped: with three
   * volumes at most `till` and the middle one skipped, the first and the third are staged.
   */
  lemma SkippedSecondBypassesBreak()
    ensures HandledFrom(["I1", "I2", "I3"], "Z", ["I2"], 0) == [0, 2]
  {
    assert StrOrder.LexLess("I1", "Z") && StrOrder.LexLess("I2", "Z") && StrOrder.LexLess("I3", "Z");
    StrOrder.LexLessAsymmetric("I1", "Z");
    StrOrder.LexLessAsymmetric("I2", "Z");
    StrOrder.LexLessAsymmetric("I3", "Z");
    assert "I1" !in ["I2"] && "I3" !in ["I2"];
  }

  /** The folder a volume is staged into: the incoming folder or `publication`, then the local work id and the image group. */
  function VolumeDir(incoming: bool, local: string, imagegroup: string): (r: Path)
    ensures |r| >= 2 && r[|r| - 1] == imagegroup && r[|r| - 2] == local
  {
    (if incoming then INCOMING_DIR else PUBLICATION_DIR) + [local, imagegroup]
  }

  /**
   * What staging one volume in process_work does to the files: an incoming
   * volume's whole image list goes into the incoming folder; any other volume's
   * archive images 11 to 35 go into `publication`, and an empty image-group id
   * raises before anything is staged.
   */
  function VolumeStaged(env: Env, files: Files, vol: TrainingVolume, local: string, incoming: bool): StageOutcome
  {
    if !incoming && vol.imagegroup == "" then StageOutcome(files, [], true)
    else StageImages(env, files, VolumeDir(incoming, local, vol.imagegroup), VolumeRequests(env, vol, local, incoming))
  }

  /** The requests staged for one volume: its whole image list if incoming, else its archive images 11 to 35. */
  function VolumeRequests(env: Env, vol: TrainingVolume, local: string, incoming: bool): seq<Request>
  {
    if incoming then Window(IncomingRequests(vol.imagelist), 0, None)
    else Window(ImageRequests(ImagesPrefix(HashBucket(env.md5hex, local), local, vol.imagegroup),
                              env.imageList(vol.volumePrefixUrl)), 11, Some(25))
  }

  /** Staging the volumes at indices `idx`, in order, until one raises: the files and whether one raised. */
  function StageAll(env: Env, files: Files, local: string, incoming: bool, vols: seq<TrainingVolume>, idx: seq<nat>): (Files, bool)
    requires forall a :: 0 <= a < |idx| ==> idx[a] < |vols|
    decreases |idx|
  {
    if idx == [] then (files, false)
    else
      var o := VolumeStaged(env, files, vols[idx[0]], local, incoming);
      if o.raised then (o.files, true) else StageAll(env, o.files, local, incoming, vols, idx[1..])
  }

  /** One step of `StageAll`: the volume at index `i` is staged, then the rest unless it raised. */
  lemma StageAllStep(env: Env, files: Files, after: Files, staged: bool, local: string, incoming: bool,
                     vols: seq<TrainingVolume>, i: nat, rest: seq<nat>)
    requires i < |vols| && forall a :: 0 <= a < |rest| ==> rest[a] < |vols|
    requires var o := VolumeStaged(env, files, vols[i], local, incoming); after == o.files && staged == !o.raised
    ensures staged ==> StageAll(env, files, local, incoming, vols, [i] + rest) == StageAll(env, after, local, incoming, vols, rest)
    ensures !staged ==> StageAll(env, files, local, incoming, vols, [i] + rest) == (after, true)
  {
    assert ([i] + rest)[0] == i && ([i] + rest)[1..] == rest;
  }

  /** The save call of process_work for one volume. */
  method StageVolume(env: Env, fs: LocalFs, vol: TrainingVolume, local: string, incoming: bool)
    returns (ok: bool)
    modifies fs
    ensures var o := VolumeStaged(env, old(fs.files), vol, local, incoming); fs.files == o.files && ok == !o.raised
  {
    var fetched;
    if incoming {
      ok, fetched := SaveImagesForVolIncoming(env, fs, vol.imagelist, local, vol.imagegroup, INCOMING_DIR, 0, None);
    } else {
      ok, fetched := SaveImagesForVolWindow(env, fs, vol.volumePrefixUrl, local, vol.imagegroup,
                                            PUBLICATION_DIR, 11, Some(25));
    }
  }

  /**
   * process_work's volume loop from index `i` on, as a function of the files:
   * the files after it, the indices it staged, and whether a staging raised.
   */
  function HandledRun(env: Env, files: Files, vols: seq<TrainingVolume>, local: string, incoming: bool,
                      till: string, skip: seq<string>, i: nat): (Files, seq<nat>, bool)
    decreases |vols| - i
  {
    if i >= |vols| || StrOrder.LexLess(till, vols[i].imagegroup) then (files, [], false)
    else if vols[i].imagegroup in skip then HandledRun(env, files, vols, local, incoming, till, skip, i + 1)
    else
      var o := VolumeStaged(env, files, vols[i], local, incoming);
      if o.raised || i == 1 then (o.files, [i], o.raised)
      else
        var r := HandledRun(env, o.files, vols, local, incoming, till, skip, i + 1);
        (r.0, [i] + r.1, r.2)
  }

  /**
   * The loop stages the volumes `HandledFrom` selects, in order, up to the first
   * staging that raises: the indices it stages are the selection when none
   * raises and a non-empty prefix of it otherwise.
   */
  lemma {:induction false} HandledRunSelects(env: Env, files: Files, vols: seq<TrainingVolume>, local: string,
                                             incoming: bool, till: string, skip: seq<string>, i: nat)
    ensures var r := HandledRun(env, files, vols, local, incoming, till, skip, i);
      var sel := HandledFrom(Groups(vols), till, skip, i);
      && r.1 <= sel
      && (!r.2 ==> r.1 == sel)
      && (r.2 ==> r.1 != [])
    decreases |vols| - i
  {
    var groups := Groups(vols);
    if i < |vols| {
      assert groups[i] == vols[i].imagegroup;
      HandledAt(groups, till, skip, i);
      if !StrOrder.LexLess(till, vols[i].imagegroup) {
        if vols[i].imagegroup in skip {
          HandledRunSelects(env, files, vols, local, incoming, till, skip, i + 1);
        } else if i != 1 {
          var o := VolumeStaged(env, files, vols[i], local, incoming);
          if !o.raised {
            HandledRunSelects(env, o.files, vols, local, incoming, till, skip, i + 1);
          }
        }
      }
    }
  }

  /** The files the loop leaves, and whether it raised, are those of staging the selection with `StageAll`. */
  lemma {:induction false} HandledRunStages(env: Env, files: Files, vols: seq<TrainingVolume>, local: string,
                                            incoming: bool, till: string, skip: seq<string>, i: nat)
    ensures var r := HandledRun(env, files, vols, local, incoming, till, skip, i);
      (r.0, r.2) == StageAll(env, files, local, incoming, vols, HandledFrom(Groups(vols), till, skip, i))
    decreases |vols| - i
  {
    var groups := Groups(vols);
    if i < |vols| {
      assert groups[i] == vols[i].imagegroup;
      HandledAt(groups, till, skip, i);
      if !StrOrder.LexLess(till, vols[i].imagegroup) {
        if vols[i].imagegroup in skip {
          HandledRunStages(env, files, vols, local, incoming, till, skip, i + 1);
        } else {
          var o := VolumeStaged(env, files, vols[i], local, incoming);
          var rest := if i == 1 then [] else HandledFrom(groups, till, skip, i + 1);
          StageAllStep(env, files, o.files, !o.raised, local, incoming, vols, i, rest);
          if !o.raised && i != 1 {
            HandledRunStages(env, o.files, vols, local, incoming, till, skip, i + 1);
          }
        }
      }
    }
  }

  /**
   * The volume loop of process_work over the queried volumes: the loop stops at
   * the first image group above `till`, passes over those in `skip`, stages the
   * others in order, and ends after index 1 or at the first staging that
   * raises. `handled` lists the indices staged.
   */
  method StageHandled(env: Env, fs: LocalFs, vols: seq<TrainingVolume>, local: string, incoming: bool,
                      till: string, skip: seq<string>)
    returns (handled: seq<nat>, ok: bool)
    modifies fs
    ensures (fs.files, handled, !ok) == HandledRun(env, old(fs.files), vols, local, incoming, till, skip, 0)
  {
    ghost var final := HandledRun(env, fs.files, vols, local, incoming, till, skip, 0);
    handled := [];
    assert handled + final.1 == final.1;
    assert final == (final.0, final.1, final.2);
    var i := 0;
    while i < |vols|
      invariant 0 <= i <= |vols|
      invariant var r := HandledRun(env, fs.files, vols, local, incoming, till, skip, i);
        final == (r.0, handled + r.1, r.2)
    {
      var imagegroup := vols[i].imagegroup;
      if StrOrder.LexLess(till, imagegroup) {
        assert HandledRun(env, fs.files, vols, local, incoming, till, skip, i) == (fs.files, [], false);
        assert handled + [] == handled;
        break;
      }
      if imagegroup in skip {
        i := i + 1;
        continue;
      }
      ghost var o := VolumeStaged(env, fs.files, vols[i], local, incoming);
      ghost var rest := HandledRun(env, o.files, vols, local, incoming, till, skip, i + 1).1;
      assert HandledRun(env, fs.files, vols, local, incoming, till, skip, i)
          == if o.raised || i == 1 then (o.files, [i], o.raised)
             else var r := HandledRun(env, o.files, vols, local, incoming, till, skip, i + 1); (r.0, [i] + r.1, r.2);
      var staged := StageVolume(env, fs, vols[i], local, incoming);
      Strs.AppendAssoc(handled, [i], rest);
      handled := handled + [i];
      if !staged {
        assert final == (fs.files, handled, true);
        return handled, false;
      }
      if i == 1 {
        assert final == (fs.files, handled, false);
        break;
      }
      i := i + 1;
    }
    if i == |vols| {
      assert HandledRun(env, fs.files, vols, local, incoming, till, skip, i) == (fs.files, [], false);
      assert handled + [] == handled;
    }
    assert final == (fs.files, handled, false);
    ok := true;
  }

  /**
   * process_work: the volumes are queried (by local id for incoming volumes)
   * and the selected ones staged, into folders named by the work's local id.
   */
  method ProcessWork(env: Env, fs: LocalFs, query: string -> seq<TrainingVolume>, work: string, filters: Filters)
    returns (queried: string, handled: seq<nat>, ok: bool)
    modifies fs
    ensures queried == QueryId(work, filters)
    ensures var vols := query(queried);
      var all := HandledFrom(Groups(vols), filters.till, filters.skip, 0);
      && handled <= all
      && (ok ==> handled == all)
      && (!ok ==> handled != [])
      && (forall a :: 0 <= a < |all| ==> all[a] < |vols|)
      && (fs.files, !ok) == StageAll(env, old(fs.files), GetWorkLocalId(work).0, filters.kind == INCOMING, vols, all)
  {
    var (local, qualified) := GetWorkLocalId(work);
    queried := if filters.kind == INCOMING then local else qualified;
    ghost var before := fs.files;
    var vols := query(queried);
    handled, ok := StageHandled(env, fs, vols, local, filters.kind == INCOMING, filters.till, filters.skip);
    HandledRunSelects(env, before, vols, local, filters.kind == INCOMING, filters.till, filters.skip, 0);
    HandledRunStages(env, before, vols, local, filters.kind == INCOMING, filters.till, filters.skip, 0);
  }

  /** `p` is a file added directly inside the folder of one of the volumes at indices `idx`. */
  predicate InHandledFolder(p: Path, incoming: bool, local: string, vols: seq<TrainingVolume>, idx: seq<nat>)
  {
    exists a :: 0 <= a < |idx| && idx[a] < |vols| && IsChild(p, VolumeDir(incoming, local, vols[idx[a]].imagegroup))
  }

  /** Staging one volume never changes or removes a file, and adds files only directly inside its folder. */
  lemma VolumeStagedExtends(env: Env, files: Files, vol: TrainingVolume, local: string, incoming: bool)
    ensures var r := VolumeStaged(env, files, vol, local, incoming).files;
      && Extends(files, r)
      && forall p :: p in r && p !in files ==> IsChild(p, VolumeDir(incoming, local, vol.imagegroup))
  {
    var dir := VolumeDir(incoming, local, vol.imagegroup);
    var reqs := if incoming then Window(IncomingRequests(vol.imagelist), 0, None)
      else Window(ImageRequests(ImagesPrefix(HashBucket(env.md5hex, local), local, vol.imagegroup),
                                env.imageList(vol.volumePrefixUrl)), 11, Some(25));
    if incoming || vol.imagegroup != "" {
      StageExtends(env, files, dir, reqs);
      var staged := StageImages(env, files, dir, reqs).files;
      forall p | p in staged && p !in files ensures IsChild(p, dir) {
        var k :| 0 <= k < |reqs| && IsStagedFrom(env, reqs[k], dir, p, staged[p]);
      }
    }
  }

  /**
   * Staging the selected volumes never changes or removes a file, and every
   * file it adds lies directly inside the folder of one of them.
   */
  lemma {:induction false} StageAllExtends(env: Env, files: Files, local: string, incoming: bool,
                                           vols: seq<TrainingVolume>, idx: seq<nat>)
    requires forall a :: 0 <= a < |idx| ==> idx[a] < |vols|
    ensures var r := StageAll(env, files, local, incoming, vols, idx).0;
      && Extends(files, r)
      && forall p :: p in r && p !in files ==> InHandledFolder(p, incoming, local, vols, idx)
    decreases |idx|
  {
    if idx != [] {
      var o := VolumeStaged(env, files, vols[idx[0]], local, incoming);
      VolumeStagedExtends(env, files, vols[idx[0]], local, incoming);
      var r := StageAll(env, files, local, incoming, vols, idx).0;
      if !o.raised {
        StageAllExtends(env, o.files, local, incoming, vols, idx[1..]);
      }
      forall p | p in r && p !in files ensures InHandledFolder(p, incoming, local, vols, idx) {
        if p !in o.files {
          var a :| 0 <= a < |idx[1..]| && idx[1..][a] < |vols|
            && IsChild(p, VolumeDir(incoming, local, vols[idx[1..][a]].imagegroup));
          assert idx[1..][a] == idx[a + 1];
        }
      }
    }
  }

  // ---------------------------------------------------------------------------
  // renaming volume folders

  /** `f'v{i:03}'`: the name the `i`-th volume folder (counting from 1) is given. */
  function VolumeName(i: nat): string
  {
    "v" + Decimal.Pad3(i)
  }

  lemma VolumeNameInjective(a: nat, b: nat)
    requires VolumeName(a) == VolumeName(b)
    ensures a == b
  {
    assert VolumeName(a)[1..] == Decimal.Pad3(a) && VolumeName(b)[1..] == Decimal.Pad3(b);
    Decimal.Pad3Injective(a, b);
  }

  /** The folder whose entries rename renumbers: `publication/W1KG13607`. */
  const RENAME_DIR: Path := PUBLICATION_DIR + ["W1KG13607"]

  /**
   * rename's loop from index `i` on: the entry `names[i]` of `parent` is moved to
   * `VolumeName(i + 1)`; the loop stops at the first move that raises. The
   * result is the files and whether every move succeeded.
   */
  function RenameFrom(files: Files, parent: Path, names: seq<string>, i: nat): (Files, bool)
    decreases |names| - i
  {
    if i >= |names| then (files, true)
    else match MoveResult(files, parent + [names[i]], parent + [VolumeName(i + 1)])
      case None => (files, false)
      case Some(next) => RenameFrom(next, parent, names, i + 1)
  }

  /**
   * rename: the entries of `publication/W1KG13607`, in sorted order, are moved
   * one by one to `v001`, `v002`, ...; `names` is that sorted order.
   */
  method Rename(fs: LocalFs) returns (ok: bool, names: seq<string>)
    modifies fs
    ensures |names| == |EntryNames(old(fs.files), RENAME_DIR)|
    ensures forall x :: x in names <==> x in EntryNames(old(fs.files), RENAME_DIR)
    ensures StrOrder.StrictlyAscending(names)
    ensures (fs.files, ok) == RenameFrom(old(fs.files), RENAME_DIR, names, 0)
  {
    names := StrOrder.Sorted(EntryNames(fs.files, RENAME_DIR));
    ghost var all := RenameFrom(fs.files, RENAME_DIR, names, 0);
    var i := 0;
    while i < |names|
      invariant 0 <= i <= |names|
      invariant all == RenameFrom(fs.files, RENAME_DIR, names, i)
    {
      var moved := fs.Move(RENAME_DIR + [names[i]], RENAME_DIR + [VolumeName(i + 1)]);
      if !moved {
        return false, names;
      }
      i := i + 1;
    }
    ok := true;
  }

  /** The position of `x` in a list that holds it. */
  function IndexOf(names: seq<string>, x: string): (r: nat)
    requires x in names
    ensures r < |names| && names[r] == x
    ensures forall j :: 0 <= j < r ==> names[j] != x
  {
    if names[0] == x then 0 else 1 + IndexOf(names[1..], x)
  }

  predicate Distinct(names: seq<string>)
  {
    forall a, b :: 0 <= a < b < |names| ==> names[a] != names[b]
  }

  lemma IndexOfDistinct(names: seq<string>, j: nat)
    requires Distinct(names) && j < |names|
    ensures IndexOf(names, names[j]) == j
  {
  }

  /** `x` is an entry rename's loop still has to move when it reaches index `i`. */
  predicate Pending(x: string, names: seq<string>, i: nat)
  {
    x in names && IndexOf(names, x) >= i
  }

  /** `x` is one of the new names `v001` up to `VolumeName(i)`. */
  predicate IsNewName(x: string, i: nat)
  {
    exists k :: 1 <= k <= i && x == VolumeName(k)
  }

  /** Where rename's loop from index `i` on leaves the file `p`: below the new name of its entry if that entry is still to be moved. */
  function RenamedPath(p: Path, parent: Path, names: seq<string>, i: nat): Path
  {
    if IsUnder(p, parent) && Pending(p[|parent|], names, i) then
      parent + [VolumeName(IndexOf(names, p[|parent|]) + 1)] + p[|parent| + 1..]
    else p
  }

  /** The conditions under which rename's loop, reaching index `i`, moves every remaining entry onto a fresh name. */
  predicate FreshFrom(files: Files, parent: Path, names: seq<string>, i: nat)
  {
    && i <= |names| && Distinct(names)
    && (forall k :: 1 <= k <= |names| ==> VolumeName(k) !in names)
    && (forall j :: i <= j < |names| ==> Exists(files, parent + [names[j]]))
    && (forall x :: x in EntryNames(files, parent) ==> Pending(x, names, i) || IsNewName(x, i))
  }

  /** Every file of `files` is found, with the same contents, at its renamed path in `r`. */
  predicate RenamedInto(files: Files, r: Files, parent: Path, names: seq<string>, i: nat)
  {
    forall p :: p in files ==> RenamedPath(p, parent, names, i) in r && r[RenamedPath(p, parent, names, i)] == files[p]
  }

  /** Every file of `r` is the renamed path of a file of `files`. */
  predicate RenamedOnto(files: Files, r: Files, parent: Path, names: seq<string>, i: nat)
  {
    forall q :: q in r ==> exists p :: p in files && RenamedPath(p, parent, names, i) == q
  }

  lemma AtOrUnderEntry(p: Path, parent: Path, x: string)
    ensures AtOrUnder(p, parent + [x]) <==> IsUnder(p, parent) && p[|parent|] == x
  {
    if IsUnder(p, parent) {
      assert p[..|parent| + 1] == p[..|parent|] + [p[|parent|]];
    }
    if AtOrUnder(p, parent + [x]) {
      assert p[..|parent|] == p[..|parent| + 1][..|parent|];
    }
  }

  lemma ExistsEntry(files: Files, d: Path)
    ensures Exists(files, d) <==> exists p :: p in files && AtOrUnder(p, d)
  {
    if d in files {
      assert AtOrUnder(d, d);
    }
    if exists p :: p in files && AtOrUnder(p, d) {
      var p :| p in files && AtOrUnder(p, d);
      if p != d {
        assert IsUnder(p, d);
      }
    }
  }

  /**
   * When no new name `v001`, `v002`, ... is already an entry, every move of
   * rename succeeds: each file below the `i`-th sorted entry ends up, with the
   * same contents, below `VolumeName(i + 1)`, every other file stays where it
   * is, and nothing else appears.
   */
  lemma RenameFresh(files: Files, parent: Path, names: seq<string>)
    requires StrOrder.StrictlyAscending(names)
    requires forall x :: x in names <==> x in EntryNames(files, parent)
    requires forall k :: 1 <= k <= |names| ==> VolumeName(k) !in names
    ensures RenameFrom(files, parent, names, 0).1
    ensures RenamedInto(files, RenameFrom(files, parent, names, 0).0, parent, names, 0)
    ensures RenamedOnto(files, RenameFrom(files, parent, names, 0).0, parent, names, 0)
  {
    forall a, b | 0 <= a < b < |names| ensures names[a] != names[b] {
      StrOrder.LexLessIrreflexive(names[a]);
    }
    forall j | 0 <= j < |names| ensures Exists(files, parent + [names[j]]) {
      EntryNamesMember(files, parent, names[j]);
    }
    RenameFreshFrom(files, parent, names, 0);
  }

  lemma {:induction false} RenameFreshFrom(files: Files, parent: Path, names: seq<string>, i: nat)
    requires FreshFrom(files, parent, names, i)
    ensures RenameFrom(files, parent, names, i).1
    ensures RenamedInto(files, RenameFrom(files, parent, names, i).0, parent, names, i)
    ensures RenamedOnto(files, RenameFrom(files, parent, names, i).0, parent, names, i)
    decreases |names| - i
  {
    if i == |names| {
      forall q | q in files ensures exists p :: p in files && RenamedPath(p, parent, names, i) == q {
        assert RenamedPath(q, parent, names, i) == q;
      }
    } else {
      var src := parent + [names[i]];
      var dst := parent + [VolumeName(i + 1)];
      MoveFreshStep(files, parent, names, i);
      var next := Relocated(files, src, dst);
      assert RenameFrom(files, parent, names, i) == RenameFrom(next, parent, names, i + 1);
      RenameFreshFrom(next, parent, names, i + 1);
      var r := RenameFrom(next, parent, names, i + 1).0;
      RenamedIntoStep(files, next, r, parent, names, i);
      RenamedOntoStep(files, next, r, parent, names, i);
    }
  }

  lemma RenamedIntoStep(files: Files, next: Files, r: Files, parent: Path, names: seq<string>, i: nat)
    requires i < |names| && Distinct(names)
    requires forall k :: 1 <= k <= |names| ==> VolumeName(k) !in names
    requires !AtOrUnder(parent + [VolumeName(i + 1)], parent + [names[i]])
    requires !AtOrUnder(parent + [names[i]], parent + [VolumeName(i + 1)])
    requires !Exists(files, parent + [VolumeName(i + 1)])
    requires next == Relocated(files, parent + [names[i]], parent + [VolumeName(i + 1)])
    requires RenamedInto(next, r, parent, names, i + 1)
    ensures RenamedInto(files, r, parent, names, i)
  {
    var src := parent + [names[i]];
    var dst := parent + [VolumeName(i + 1)];
    forall p | p in files
      ensures RenamedPath(p, parent, names, i) in r && r[RenamedPath(p, parent, names, i)] == files[p]
    {
      RenamedPathStep(p, parent, names, i);
      if !AtOrUnder(p, src) {
        ExistsEntry(files, dst);
      }
    }
  }

  lemma RenamedOntoStep(files: Files, next: Files, r: Files, parent: Path, names: seq<string>, i: nat)
    requires i < |names| && Distinct(names)
    requires forall k :: 1 <= k <= |names| ==> VolumeName(k) !in names
    requires !AtOrUnder(parent + [VolumeName(i + 1)], parent + [names[i]])
    requires !AtOrUnder(parent + [names[i]], parent + [VolumeName(i + 1)])
    requires next == Relocated(files, parent + [names[i]], parent + [VolumeName(i + 1)])
    requires RenamedOnto(next, r, parent, names, i + 1)
    ensures RenamedOnto(files, r, parent, names, i)
  {
    var src := parent + [names[i]];
    var dst := parent + [VolumeName(i + 1)];
    forall q | q in r ensures exists p :: p in files && RenamedPath(p, parent, names, i) == q {
      var p' :| p' in next && RenamedPath(p', parent, names, i + 1) == q;
      if AtOrUnder(p', dst) {
        var p := src + p'[|dst|..];
        RenamedPathStep(p, parent, names, i);
        assert dst + p[|src|..] == p';
      } else {
        RenamedPathStep(p', parent, names, i);
      }
    }
  }

  /** A renaming move onto a name that does not exist relocates the entry. */
  lemma MoveFreshStep(files: Files, parent: Path, names: seq<string>, i: nat)
    requires i < |names| && FreshFrom(files, parent, names, i)
    ensures var src := parent + [names[i]];
      var dst := parent + [VolumeName(i + 1)];
      && !AtOrUnder(dst, src) && !AtOrUnder(src, dst)
      && !Exists(files, dst)
      && MoveResult(files, src, dst) == Some(Relocated(files, src, dst))
      && FreshFrom(Relocated(files, src, dst), parent, names, i + 1)
  {
    var src := parent + [names[i]];
    var dst := parent + [VolumeName(i + 1)];
    assert names[i] in names;
    AtOrUnderEntry(src, parent, VolumeName(i + 1));
    AtOrUnderEntry(dst, parent, names[i]);
    EntryNamesMember(files, parent, VolumeName(i + 1));
    if VolumeName(i + 1) in EntryNames(files, parent) {
      if IsNewName(VolumeName(i + 1), i) {
        var k :| 1 <= k <= i && VolumeName(i + 1) == VolumeName(k);
        VolumeNameInjective(i + 1, k);
      }
    }
    var next := Relocated(files, src, dst);
    ExistsCarries(files, parent, names, i);
    EntriesCarry(files, next, parent, names, i);
  }

  lemma ExistsCarries(files: Files, parent: Path, names: seq<string>, i: nat)
    requires i < |names| && FreshFrom(files, parent, names, i)
    requires !AtOrUnder(parent + [VolumeName(i + 1)], parent + [names[i]])
    requires !AtOrUnder(parent + [names[i]], parent + [VolumeName(i + 1)])
    ensures forall j :: i + 1 <= j < |names| ==>
      Exists(Relocated(files, parent + [names[i]], parent + [VolumeName(i + 1)]), parent + [names[j]])
  {
    var src := parent + [names[i]];
    var dst := parent + [VolumeName(i + 1)];
    var next := Relocated(files, src, dst);
    forall j | i + 1 <= j < |names| ensures Exists(next, parent + [names[j]]) {
      var d := parent + [names[j]];
      ExistsEntry(files, d);
      var p :| p in files && AtOrUnder(p, d);
      AtOrUnderEntry(p, parent, names[j]);
      AtOrUnderEntry(p, parent, names[i]);
      AtOrUnderEntry(p, parent, VolumeName(i + 1));
      assert names[j] in names;
      ExistsEntry(next, d);
    }
  }

  lemma EntriesCarry(files: Files, next: Files, parent: Path, names: seq<string>, i: nat)
    requires i < |names| && FreshFrom(files, parent, names, i)
    requires !AtOrUnder(parent + [VolumeName(i + 1)], parent + [names[i]])
    requires !AtOrUnder(parent + [names[i]], parent + [VolumeName(i + 1)])
    requires next == Relocated(files, parent + [names[i]], parent + [VolumeName(i + 1)])
    ensures forall x :: x in EntryNames(next, parent) ==> Pending(x, names, i + 1) || IsNewName(x, i + 1)
  {
    var src := parent + [names[i]];
    var dst := parent + [VolumeName(i + 1)];
    forall x | x in EntryNames(next, parent) ensures Pending(x, names, i + 1) || IsNewName(x, i + 1) {
      var q :| q in next && IsUnder(q, parent) && q[|parent|] == x;
      AtOrUnderEntry(q, parent, VolumeName(i + 1));
      AtOrUnderEntry(q, parent, names[i]);
      if !AtOrUnder(q, dst) {
        assert q in files && !AtOrUnder(q, src);
        assert x in EntryNames(files, parent);
        if Pending(x, names, i) {
          IndexOfDistinct(names, i);
        } else {
          var k :| 1 <= k <= i && x == VolumeName(k);
        }
      }
    }
  }

  /** How one move composes with the rest of the loop: a file below the moved entry is already where it ends up. */
  lemma RenamedPathStep(p: Path, parent: Path, names: seq<string>, i: nat)
    requires i < |names| && Distinct(names)
    requires forall k :: 1 <= k <= |names| ==> VolumeName(k) !in names
    ensures var src := parent + [names[i]];
      var dst := parent + [VolumeName(i + 1)];
      && (AtOrUnder(p, src) ==> RenamedPath(p, parent, names, i) == dst + p[|src|..]
                                && RenamedPath(dst + p[|src|..], parent, names, i + 1) == dst + p[|src|..])
      && (!AtOrUnder(p, src) ==> RenamedPath(p, parent, names, i) == RenamedPath(p, parent, names, i + 1))
      && (AtOrUnder(p, dst) ==> RenamedPath(p, parent, names, i + 1) == p)
  {
    var src := parent + [names[i]];
    var dst := parent + [VolumeName(i + 1)];
    AtOrUnderEntry(p, parent, names[i]);
    AtOrUnderEntry(p, parent, VolumeName(i + 1));
    assert VolumeName(i + 1) !in names;
    if AtOrUnder(p, src) {
      IndexOfDistinct(names, i);
      var q := dst + p[|src|..];
      assert q[..|parent|] == parent && q[|parent|] == VolumeName(i + 1);
      assert q[|parent| + 1..] == p[|src|..];
    } else if IsUnder(p, parent) && p[|parent|] in names {
      IndexOfDistinct(names, i);
    }
  }

  /** The script's entry point: the incoming volumes of W2KG210295 up to `Z`, skipping none. */
  method TrainingMain(env: Env, fs: LocalFs, query: string -> seq<TrainingVolume>)
    returns (queried: string, handled: seq<nat>, ok: bool)
    modifies fs
    ensures queried == "W2KG210295"
    ensures ok ==> handled == HandledFrom(Groups(query("W2KG210295")), "Z", [], 0)
  {
    assert ':' !in "W2KG210295";
    queried, handled, ok := ProcessWork(env, fs, query, "W2KG210295", Filters(INCOMING, "Z", []));
  }
}
