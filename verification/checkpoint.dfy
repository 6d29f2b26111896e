/**
 * The resume checkpoint of usage/bdrc/bdrc_ocr.py: the list of completed works
 * and a `<work>-<imagegroup>` pointer to the volume where the last run stopped,
 * kept in memory and written to `archive/checkpoint.json` on every save.
 */
module CheckPoints {
  import opened Wrappers
  import opened BdrcKeys
  import Strs

  /**
   * The contents of checkpoint.json: the `work` list and the `imagegroup` entry,
   * `None` when the file has no `imagegroup` key at all.
   */
  datatype CheckPointFile = CheckPointFile(works: seq<string>, imagegroup: Option<string>)

  /** How reading a checkpoint can fail: the `imagegroup` key is missing, or the pointer does not split into two parts. */
  datatype LoadError = MissingImageGroupKey | BadPointer(pointer: string)

  /** The work list after `save_check_point(work=w)`: `w` appended unless unset or already listed. */
  function SavedWorks(works: seq<string>, work: Option<string>): seq<string>
  {
    if IsSet(work) && work.value !in works then works + [work.value] else works
  }

  predicate NoDuplicates(s: seq<string>)
  {
    forall i, j :: 0 <= i < j < |s| ==> s[i] != s[j]
  }

  /**
   * Saving a work keeps the earlier list as a prefix, lists the work, keeps the
   * list free of duplicates, and saving the same work again changes nothing.
   */
  lemma SavedWorksProperties(works: seq<string>, work: Option<string>)
    ensures works <= SavedWorks(works, work)
    ensures IsSet(work) ==> work.value in SavedWorks(works, work)
    ensures forall w :: w in SavedWorks(works, work) ==> w in works || (IsSet(work) && w == work.value)
    ensures NoDuplicates(works) ==> NoDuplicates(SavedWorks(works, work))
    ensures SavedWorks(SavedWorks(works, work), work) == SavedWorks(works, work)
  {
  }

  /** The `<work>-<imagegroup>` pointer process_work saves when it stops at a volume. */
  function Pointer(work: string, imagegroup: string): string
  {
    work + "-" + imagegroup
  }

  /**
   * load_check_point as written: the `imagegroup` key must exist; a non-empty
   * pointer must split on `-` into exactly two parts, which become the last work
   * and the last volume (`None` when the pointer is empty).
   */
  function ParseCheckPoint(f: CheckPointFile): (r: Result<Option<(string, string)>, LoadError>)
    ensures f.imagegroup == None ==> r == Failure(MissingImageGroupKey)
  {
    match f.imagegroup
    case None => Failure(MissingImageGroupKey)
    case Some(p) => ParsePointer(p)
  }

  /** The pointer part of loading: empty means no pointer; otherwise exactly two `-`-separated parts. */
  function ParsePointer(p: string): (r: Result<Option<(string, string)>, LoadError>)
    ensures p == "" ==> r == Success(None)
    ensures r.Success? && r.value.Some? ==> p == Pointer(r.value.value.0, r.value.value.1)
  {
    if p == "" then Success(None)
    else
      var parts := Strs.Split(p, '-');
      if |parts| == 2 then
        Strs.JoinSplit(p, '-');
        Strs.JoinCons(parts[0], [parts[1]], "-");
        Success(Some((parts[0], parts[1])))
      else Failure(BadPointer(p))
  }

  /** load_check_point reading a missing `imagegroup` key as "no pointer". */
  function ParseCheckPointFixed(f: CheckPointFile): (r: Result<Option<(string, string)>, LoadError>)
    ensures f.imagegroup == None ==> r == Success(None)
  {
    match f.imagegroup
    case None => Success(None)
    case Some(p) => ParsePointer(p)
  }

  /**
   * A pointer saved by process_work reads back as the same work and volume if and
   * only if neither contains `-`.
   */
  lemma PointerRoundTrip(works: seq<string>, work: string, imagegroup: string)
    ensures ParseCheckPointFixed(CheckPointFile(works, Some(Pointer(work, imagegroup)))) == Success(Some((work, imagegroup)))
        <==> '-' !in work && '-' !in imagegroup
  {
    Strs.SplitPair(work, imagegroup, '-');
    assert Pointer(work, imagegroup) == work + ['-'] + imagegroup;
  }

  /**
   * Every checkpoint file that process_work's saves write loads without error once
   * the missing key reads as "no pointer": no pointer, an empty one, or
   * `<work>-<imagegroup>` with dash-free parts.
   */
  lemma FixedLoadAccepts(works: seq<string>, pointer: Option<string>)
    requires pointer.None? || pointer.value == "" || exists w, g :: '-' !in w && '-' !in g && pointer.value == Pointer(w, g)
    ensures ParseCheckPointFixed(CheckPointFile(works, pointer)).Success?
  {
    if pointer.Some? && pointer.value != "" {
      var w, g :| '-' !in w && '-' !in g && pointer.value == Pointer(w, g);
      PointerRoundTrip(works, w, g);
    }
  }

  /**
   * The corrected load fails exactly on a non-empty pointer that does not hold
   * exactly one `-`: any other `save_check_point(imagegroup=...)` argument breaks
   * the next run's load.
   */
  lemma FixedLoadFails(works: seq<string>, pointer: string)
    ensures ParseCheckPointFixed(CheckPointFile(works, Some(pointer))).Failure?
        <==> pointer != "" && Strs.Count(pointer, '-') != 1
  {
    Strs.SplitLength(pointer, '-');
  }

  /** The checkpoint state of a run: CHECK_POINT, last_work, last_vol and the file on disk. */
  class CheckPoint {
    var works: seq<string>
    var imagegroup: Option<string>
    var lastWork: Option<string>
    var lastVol: Option<string>
    var file: Option<CheckPointFile>

    /** A run starts with nothing completed, no pointer, and whatever checkpoint file is on disk. */
    constructor (onDisk: Option<CheckPointFile>)
      ensures works == [] && imagegroup == None && lastWork == None && lastVol == None && file == onDisk
    {
      works := [];
      imagegroup := None;
      lastWork := None;
      lastVol := None;
      file := onDisk;
    }

    /**
     * save_check_point: a set work not yet listed is appended, a set pointer
     * replaces the old one, and the whole checkpoint is written to disk.
     */
    method Save(work: Option<string>, pointer: Option<string>)
      modifies this`works, this`imagegroup, this`file
      ensures works == SavedWorks(old(works), work)
      ensures imagegroup == (if IsSet(pointer) then pointer else old(imagegroup))
      ensures file == Some(CheckPointFile(works, imagegroup))
    {
      if IsSet(work) && work.value !in works {
        works := works + [work.value];
      }
      if IsSet(pointer) {
        imagegroup := pointer;
      }
      file := Some(CheckPointFile(works, imagegroup));
    }

    /**
     * load_check_point (reading a missing `imagegroup` key as "no pointer"): the
     * work list and pointer are taken from the file, and a pointer sets the last
     * work and volume.
     */
    method Load() returns (r: Result<(), LoadError>)
      requires file.Some?
      modifies this`works, this`imagegroup, this`lastWork, this`lastVol
      ensures works == file.value.works && imagegroup == file.value.imagegroup
      ensures r.Success? <==> ParseCheckPointFixed(file.value).Success?
      ensures ParseCheckPointFixed(file.value) == Success(None) ==> lastWork == old(lastWork) && lastVol == old(lastVol)
      ensures forall w, g :: ParseCheckPointFixed(file.value) == Success(Some((w, g))) ==> lastWork == Some(w) && lastVol == Some(g)
    {
      works := file.value.works;
      imagegroup := file.value.imagegroup;
      var parsed := ParseCheckPointFixed(file.value);
      if parsed.Failure? {
        return Failure(parsed.error);
      }
      if parsed.value.Some? {
        lastWork := Some(parsed.value.value.0);
        lastVol := Some(parsed.value.value.1);
      }
      r := Success(());
    }
  }

  /**
   * A run's first save is the one after its first completed work, and it writes
   * no `imagegroup` key; the as-written load then fails on that file, while the
   * corrected one reads it as "no pointer" and keeps the completed work.
   */
  method CompletedWorkCheckPoint(work: string) returns (f: CheckPointFile)
    requires work != ""
    ensures f.works == [work]
    ensures ParseCheckPoint(f) == Failure(MissingImageGroupKey)
    ensures ParseCheckPointFixed(f) == Success(None)
  {
    var cp := new CheckPoint(None);
    cp.Save(Some(work), None);
    f := cp.file.value;
  }
}
