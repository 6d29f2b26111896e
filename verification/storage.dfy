/**
 * The two stores the pipeline changes: the local staging directory tree and the
 * OCR output bucket. Local paths are sequences of path components
 * (`archive/images/W22084/I0886/p1.png` is
 * `["archive", "images", "W22084", "I0886", "p1.png"]`); directories exist
 * implicitly through the files under them.
 */
module Storage {
  import opened Wrappers

  type Bytes = seq<bv8>
  /** A path as its components. Unlike pathlib, empty components are kept. */
  type Path = seq<string>
  type Files = map<Path, Bytes>

  /** `p` lies somewhere below the directory `dir`. */
  predicate IsUnder(p: Path, dir: Path)
  {
    |dir| < |p| && p[..|dir|] == dir
  }

  /** `p` is a file directly inside `dir`. */
  predicate IsChild(p: Path, dir: Path)
  {
    |p| == |dir| + 1 && p[..|dir|] == dir
  }

  /** What lies below a sub-folder of `d` lies below `d`. */
  lemma UnderNested(p: Path, d: Path, e: Path)
    requires d <= e
    ensures IsUnder(p, e) ==> IsUnder(p, d)
  {
    if IsUnder(p, e) {
      assert p[..|d|] == p[..|e|][..|d|];
    }
  }

  /** `Path.iterdir()` on a directory of files: the names of the files directly inside `dir`. */
  function ChildNames(files: Files, dir: Path): set<string>
  {
    set p | p in files && IsChild(p, dir) :: p[|dir|]
  }

  /** `later` keeps every file of `earlier` with the same contents. */
  predicate Extends(earlier: Files, later: Files)
  {
    forall p :: p in earlier ==> p in later && later[p] == earlier[p]
  }

  /** `shutil.rmtree(dir)`: every file below `dir` is gone, every other file is kept. */
  function RemoveUnder(files: Files, dir: Path): (r: Files)
    ensures forall p :: p in r <==> p in files && !IsUnder(p, dir)
    ensures forall p :: p in r ==> r[p] == files[p]
  {
    map p | p in files && !IsUnder(p, dir) :: files[p]
  }

  lemma ChildNamesMember(files: Files, dir: Path, name: string)
    ensures name in ChildNames(files, dir) <==> dir + [name] in files
  {
    if dir + [name] in files {
      assert IsChild(dir + [name], dir) && (dir + [name])[|dir|] == name;
    }
    if name in ChildNames(files, dir) {
      var p :| p in files && IsChild(p, dir) && p[|dir|] == name;
      assert p == p[..|dir|] + [p[|dir|]];
    }
  }

  /** `p` is `d` itself or lies below it. */
  predicate AtOrUnder(p: Path, d: Path)
  {
    |d| <= |p| && p[..|d|] == d
  }

  /** `d` is a directory: some file lies below it. */
  predicate IsDir(files: Files, d: Path)
  {
    exists p :: p in files && IsUnder(p, d)
  }

  /** Something (a file or a directory) is at `d`. */
  predicate Exists(files: Files, d: Path)
  {
    d in files || IsDir(files, d)
  }

  /** The names of the entries, files or directories, directly inside `dir`: what `Path.iterdir()` lists. */
  function EntryNames(files: Files, dir: Path): set<string>
  {
    set p | p in files && IsUnder(p, dir) :: p[|dir|]
  }

  lemma EntryNamesMember(files: Files, dir: Path, name: string)
    ensures name in EntryNames(files, dir) <==> Exists(files, dir + [name])
  {
    var d := dir + [name];
    if name in EntryNames(files, dir) {
      var p :| p in files && IsUnder(p, dir) && p[|dir|] == name;
      assert p[..|d|] == p[..|dir|] + [p[|dir|]];
      if |p| > |d| {
        assert IsUnder(p, d);
      } else {
        assert p == d;
      }
    }
    if d in files {
      assert IsUnder(d, dir) && d[|dir|] == name;
    }
    if IsDir(files, d) {
      var p :| p in files && IsUnder(p, d);
      assert p[..|dir|] == p[..|d|][..|dir|];
      assert IsUnder(p, dir) && p[|dir|] == name;
    }
  }

  /**
   * The files after everything at or below `src` is moved to `dst` (re-rooted
   * there), whatever was at or below `dst` being replaced; every other file is kept.
   */
  function Relocated(files: Files, src: Path, dst: Path): (r: Files)
    requires !AtOrUnder(dst, src) && !AtOrUnder(src, dst)
    ensures forall p :: p in files && !AtOrUnder(p, src) && !AtOrUnder(p, dst) ==> p in r && r[p] == files[p]
    ensures forall p :: p in files && AtOrUnder(p, src) ==> dst + p[|src|..] in r && r[dst + p[|src|..]] == files[p]
    ensures forall q :: q in r ==>
      || (q in files && !AtOrUnder(q, src) && !AtOrUnder(q, dst))
      || (AtOrUnder(q, dst) && src + q[|dst|..] in files && AtOrUnder(src + q[|dst|..], src))
  {
    var kept := map p | p in files && !AtOrUnder(p, src) && !AtOrUnder(p, dst) :: files[p];
    var targets := set p | p in files && AtOrUnder(p, src) :: dst + p[|src|..];
    RelocatedTargets(files, src, dst, targets);
    var moved := map q | q in targets :: files[src + q[|dst|..]];
    kept + moved
  }

  lemma RelocatedTargets(files: Files, src: Path, dst: Path, targets: set<Path>)
    requires targets == set p | p in files && AtOrUnder(p, src) :: dst + p[|src|..]
    ensures forall q :: q in targets ==> AtOrUnder(q, dst) && src + q[|dst|..] in files && AtOrUnder(src + q[|dst|..], src)
    ensures forall p :: p in files && AtOrUnder(p, src) ==> dst + p[|src|..] in targets && src + (dst + p[|src|..])[|dst|..] == p
  {
    forall q | q in targets
      ensures AtOrUnder(q, dst) && src + q[|dst|..] in files && AtOrUnder(src + q[|dst|..], src)
    {
      var p :| p in files && AtOrUnder(p, src) && q == dst + p[|src|..];
      assert p == src + p[|src|..];
      assert q[|dst|..] == p[|src|..];
    }
    forall p | p in files && AtOrUnder(p, src)
      ensures dst + p[|src|..] in targets && src + (dst + p[|src|..])[|dst|..] == p
    {
      assert (dst + p[|src|..])[|dst|..] == p[|src|..];
      assert p == src + p[|src|..];
    }
  }

  /** `src` and `dst` are entries of the same directory. */
  predicate Siblings(src: Path, dst: Path)
  {
    |src| == |dst| > 0 && src[..|src| - 1] == dst[..|dst| - 1]
  }

  /**
   * `shutil.move(src, dst)` between two entries of one directory; `None` when it
   * raises. Onto an existing directory the source is moved inside it, unless an
   * entry of that name is already there; onto an existing file a file replaces
   * it and a directory cannot; a missing source raises; a move onto itself
   * changes nothing.
   */
  function MoveResult(files: Files, src: Path, dst: Path): (r: Option<Files>)
    requires Siblings(src, dst)
    ensures !Exists(files, src) ==> r.None?
    ensures src == dst && Exists(files, src) ==> r == Some(files)
    ensures src != dst && Exists(files, src) && !Exists(files, dst) ==> r == Some(Relocated(files, src, dst))
  {
    if IsDir(files, dst) then
      if src == dst then Some(files)
      else
        var inside := dst + [src[|src| - 1]];
        assert !AtOrUnder(src, inside) && !AtOrUnder(inside, src) by {
          assert inside[..|src|] == dst;
        }
        if Exists(files, inside) || !Exists(files, src) then None
        else Some(Relocated(files, src, inside))
    else if !Exists(files, src) then None
    else if src == dst then Some(files)
    else if dst in files && IsDir(files, src) then None
    else Some(Relocated(files, src, dst))
  }

  /** The local file system, as far as the pipeline reads and writes it. */
  class LocalFs {
    var files: Files

    constructor (initial: Files)
      ensures files == initial
    {
      files := initial;
    }

    /** `Path.write_bytes`: creates or replaces one file. */
    method WriteBytes(p: Path, contents: Bytes)
      modifies this
      ensures files == old(files)[p := contents]
    {
      files := files[p := contents];
    }

    /** `shutil.move` between two entries of one directory; on failure nothing changes. */
    method Move(src: Path, dst: Path) returns (ok: bool)
      requires Siblings(src, dst)
      modifies this
      ensures ok <==> MoveResult(old(files), src, dst).Some?
      ensures files == (if ok then MoveResult(old(files), src, dst).value else old(files))
    {
      var r := MoveResult(files, src, dst);
      if r.None? {
        return false;
      }
      files := r.value;
      ok := true;
    }

    /** `shutil.rmtree`, tolerant of a missing directory as every caller checks `is_dir()` first. */
    method RemoveTree(dir: Path)
      modifies this
      ensures files == RemoveUnder(old(files), dir)
    {
      files := RemoveUnder(files, dir);
    }
  }

  /** The OCR output bucket (`ocr.bdrc.io`): keys and the bytes stored under them. */
  class ObjectStore {
    var objects: map<string, Bytes>

    constructor (initial: map<string, Bytes>)
      ensures objects == initial
    {
      objects := initial;
    }

    /** `put_object`: stores or replaces one object. */
    method PutObject(key: string, body: Bytes)
      modifies this
      ensures objects == old(objects)[key := body]
    {
      objects := objects[key := body];
    }
  }
}
