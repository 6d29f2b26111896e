/**
 * img2opf/ocr.py: the stand-alone OCR script. It selects the images of one
 * input directory by suffix, runs Google Vision on each from a start page on,
 * and writes either one `<stem>.txt` per image or, in combine mode, one
 * `<directory name>.txt` with all page texts.
 *
 * Vision is the parameter `vision` (the parsed response for the given image
 * bytes); `encode` is the text encoding `write_text` applies.
 */
module ImgOcr {
  import opened Wrappers
  import opened Storage
  import opened BdrcKeys
  import StrOrder
  import Strs

  /**
   * A parsed Vision response, reduced to the descriptions of its text
   * annotations in order. The JSON form leaves out an empty list, so the
   * response has a `textAnnotations` key exactly when the list is non-empty.
   */
  datatype OcrResponse = OcrResponse(annotations: seq<string>)

  /** google_ocr's argument: a file path, or image bytes. */
  datatype OcrInput = FromPath(path: Path) | FromBytes(bits: Bytes)

  /**
   * google_ocr: the bytes of the file at a path (opening a missing file
   * raises) or the given bytes, sent to Vision.
   */
  function GoogleOcr(files: Files, vision: Bytes -> OcrResponse, image: OcrInput): (r: Option<OcrResponse>)
    ensures image.FromBytes? ==> r == Some(vision(image.bits))
    ensures image.FromPath? ==> (r.Some? <==> image.path in files)
  {
    match image
    case FromPath(p) => if p in files then Some(vision(files[p])) else None
    case FromBytes(bits) => Some(vision(bits))
  }

  /** Giving google_ocr a path is the same as giving it the file's bytes. */
  lemma GoogleOcrPathIsBytes(files: Files, vision: Bytes -> OcrResponse, p: Path)
    requires p in files
    ensures GoogleOcr(files, vision, FromPath(p)) == GoogleOcr(files, vision, FromBytes(files[p]))
  {
  }

  // ---------------------------------------------------------------------------
  // selection

  const IMAGE_SUFFIXES: seq<string> := [".png", ".jpg", ".jpeg"]

  predicate IsImageName(name: string)
  {
    PathSuffix(name) in IMAGE_SUFFIXES
  }

  /**
   * A name is selected by the extension after its last dot, compared
   * case-sensitively: `p001.png` is, `p001.PNG` is not. A name made of the
   * extension alone (`.png`) has no suffix and is never selected.
   */
  lemma ImageNameBySuffix(stem: string, ext: string)
    requires stem != "" && ext != "" && '.' !in ext
    ensures IsImageName(stem + "." + ext) <==> "." + ext in IMAGE_SUFFIXES
    ensures !IsImageName("." + ext)
  {
    var name := stem + "." + ext;
    var i := LastDot(name);
    assert name[|stem|] == '.';
    assert forall j :: |stem| < j < |name| ==> name[j] == ext[j - |stem| - 1];
    assert i == |stem|;
    assert name[i..] == "." + ext;
    var bare := "." + ext;
    assert bare[0] == '.';
    assert forall j :: 0 < j < |bare| ==> bare[j] == ext[j - 1];
    assert LastDot(bare) == 0;
  }

  /** The listed names with an image suffix, in listing order. */
  function ImageNames(listing: seq<string>): (r: seq<string>)
    ensures forall x :: x in r <==> x in listing && IsImageName(x)
  {
    if listing == [] then []
    else (if IsImageName(listing[0]) then [listing[0]] else []) + ImageNames(listing[1..])
  }

  predicate Distinct(s: seq<string>)
  {
    forall i, j :: 0 <= i < j < |s| ==> s[i] != s[j]
  }

  /** Python `s[k:]` for any integer `k`: a negative `k` counts from the end. */
  function SliceFrom<T>(s: seq<T>, k: int): (r: seq<T>)
    ensures k >= 0 ==> r == if k >= |s| then [] else s[k..]
    ensures k < 0 ==> r == if -k >= |s| then s else s[|s| + k..]
  {
    if k >= |s| then []
    else if k >= 0 then s[k..]
    else if -k >= |s| then s
    else s[|s| + k..]
  }

  /** Start page 0 does not mean "from the start": `fns[-1:]` keeps only the last image. */
  lemma StartPageZeroTakesLast<T>(s: seq<T>)
    requires |s| >= 1
    ensures SliceFrom(s, 0 - 1) == [s[|s| - 1]]
  {
  }

  // ---------------------------------------------------------------------------
  // the OCR loop

  /** `<stem>.txt`: the output file of one image in per-image mode. */
  function TextName(name: string): string
  {
    PathStem(name) + ".txt"
  }

  /**
   * The loop over the images `fns` of `inDir`: each is sent to Vision (a file
   * that cannot be opened raises); a response without text annotations is
   * passed over; otherwise its first annotation's text is written to
   * `outDir/<stem>.txt`, or, in combine mode, collected. The result is the
   * files, the collected texts, and whether the loop raised.
   */
  function OcrRun(files: Files, vision: Bytes -> OcrResponse, encode: string -> Bytes, inDir: Path, outDir: Path,
                  combine: bool, fns: seq<string>): (Files, seq<string>, bool)
    decreases |fns|
  {
    if fns == [] then (files, [], false)
    else match GoogleOcr(files, vision, FromPath(inDir + [fns[0]]))
      case None => (files, [], true)
      case Some(response) =>
        if response.annotations == [] then OcrRun(files, vision, encode, inDir, outDir, combine, fns[1..])
        else
          var text := response.annotations[0];
          if !combine then
            OcrRun(files[outDir + [TextName(fns[0])] := encode(text)], vision, encode, inDir, outDir, combine, fns[1..])
          else
            var (f, texts, raised) := OcrRun(files, vision, encode, inDir, outDir, combine, fns[1..]);
            (f, [text] + texts, raised)
  }

  /** The texts of the images with text annotations, in order. */
  function Texts(files: Files, vision: Bytes -> OcrResponse, inDir: Path, fns: seq<string>): seq<string>
    decreases |fns|
  {
    if fns == [] then []
    else
      var rest := Texts(files, vision, inDir, fns[1..]);
      if inDir + [fns[0]] in files && vision(files[inDir + [fns[0]]]).annotations != []
      then [vision(files[inDir + [fns[0]]]).annotations[0]] + rest
      else rest
  }

  /**
   * In combine mode the loop writes nothing, and when nothing raised it
   * collects the first annotation of every image that has one, in order.
   */
  lemma {:induction false} CombineCollects(files: Files, vision: Bytes -> OcrResponse, encode: string -> Bytes,
                                           inDir: Path, outDir: Path, fns: seq<string>)
    ensures var (f, texts, raised) := OcrRun(files, vision, encode, inDir, outDir, true, fns);
      && f == files
      && (!raised ==> texts == Texts(files, vision, inDir, fns))
    decreases |fns|
  {
    if fns != [] {
      CombineCollects(files, vision, encode, inDir, outDir, fns[1..]);
    }
  }

  /** The image `name` of `inDir` is present and its response has text annotations. */
  predicate HasText(files: Files, vision: Bytes -> OcrResponse, inDir: Path, name: string)
  {
    inDir + [name] in files && vision(files[inDir + [name]]).annotations != []
  }

  /** Some image of `fns` from index `i` on with text annotations has its text written to `p`. */
  predicate WrittenFrom(files: Files, vision: Bytes -> OcrResponse, inDir: Path, outDir: Path,
                        fns: seq<string>, i: nat, p: Path)
  {
    exists k :: i <= k < |fns| && p == outDir + [TextName(fns[k])] && HasText(files, vision, inDir, fns[k])
  }

  /** The image at `k` is the last one with text annotations among those sharing its stem. */
  predicate LastWithStem(files: Files, vision: Bytes -> OcrResponse, inDir: Path, fns: seq<string>, k: nat)
  {
    && k < |fns| && HasText(files, vision, inDir, fns[k])
    && forall j :: k < j < |fns| && PathStem(fns[j]) == PathStem(fns[k]) ==> !HasText(files, vision, inDir, fns[j])
  }

  /** Writing into `outDir` leaves every image of another directory `inDir` as it was. */
  ghost predicate SameImages(files: Files, next: Files, inDir: Path)
  {
    forall x :: (inDir + [x] in files <==> inDir + [x] in next)
      && (inDir + [x] in files ==> files[inDir + [x]] == next[inDir + [x]])
  }

  lemma SameImagesText(files: Files, next: Files, vision: Bytes -> OcrResponse, inDir: Path, x: string)
    requires SameImages(files, next, inDir)
    ensures HasText(files, vision, inDir, x) <==> HasText(next, vision, inDir, x)
  {
    assert inDir + [x] in files <==> inDir + [x] in next;
  }

  lemma TextNameInjective(a: string, b: string)
    requires TextName(a) == TextName(b)
    ensures PathStem(a) == PathStem(b)
  {
    var n := TextName(a);
    assert |PathStem(a)| == |n| - 4 == |PathStem(b)|;
    assert PathStem(a) == n[..|n| - 4] == PathStem(b);
  }

  /** A file written into `outDir` is never one of the images of `inDir`. */
  lemma OutputNotImage(inDir: Path, outDir: Path, x: string, y: string)
    requires inDir != outDir
    ensures outDir + [y] != inDir + [x]
  {
    assert (outDir + [y])[..|outDir|] == outDir;
    assert (inDir + [x])[..|inDir|] == inDir;
  }

  /** The files after the first image of a per-image run. */
  function FirstWritten(files: Files, vision: Bytes -> OcrResponse, encode: string -> Bytes,
                        inDir: Path, outDir: Path, x: string): Files
  {
    if HasText(files, vision, inDir, x)
    then files[outDir + [TextName(x)] := encode(vision(files[inDir + [x]]).annotations[0])]
    else files
  }

  /** A per-image run that does not raise at its first image goes on from `FirstWritten`, with the images untouched. */
  lemma PerImageStep(files: Files, vision: Bytes -> OcrResponse, encode: string -> Bytes,
                     inDir: Path, outDir: Path, fns: seq<string>)
    requires inDir != outDir && fns != []
    requires !OcrRun(files, vision, encode, inDir, outDir, false, fns).2
    ensures var next := FirstWritten(files, vision, encode, inDir, outDir, fns[0]);
      && OcrRun(files, vision, encode, inDir, outDir, false, fns) == OcrRun(next, vision, encode, inDir, outDir, false, fns[1..])
      && SameImages(files, next, inDir)
  {
    var next := FirstWritten(files, vision, encode, inDir, outDir, fns[0]);
    forall y ensures (inDir + [y] in files <==> inDir + [y] in next)
                     && (inDir + [y] in files ==> files[inDir + [y]] == next[inDir + [y]])
    {
      OutputNotImage(inDir, outDir, y, TextName(fns[0]));
    }
  }

  /**
   * In per-image mode, with the outputs kept apart from the images, a run that
   * does not raise adds exactly the text files of the images with text
   * annotations, and leaves every other file as it was.
   */
  lemma {:induction false} PerImageFiles(files: Files, vision: Bytes -> OcrResponse, encode: string -> Bytes,
                                         inDir: Path, outDir: Path, fns: seq<string>)
    requires inDir != outDir
    requires !OcrRun(files, vision, encode, inDir, outDir, false, fns).2
    ensures var f := OcrRun(files, vision, encode, inDir, outDir, false, fns).0;
      && (forall p :: p in f <==> p in files || WrittenFrom(files, vision, inDir, outDir, fns, 0, p))
      && (forall p :: p in files && !WrittenFrom(files, vision, inDir, outDir, fns, 0, p) ==> f[p] == files[p])
    decreases |fns|
  {
    if fns != [] {
      var q := outDir + [TextName(fns[0])];
      var next := FirstWritten(files, vision, encode, inDir, outDir, fns[0]);
      var f := OcrRun(files, vision, encode, inDir, outDir, false, fns).0;
      PerImageStep(files, vision, encode, inDir, outDir, fns);
      PerImageFiles(next, vision, encode, inDir, outDir, fns[1..]);
      WrittenShift(files, next, vision, inDir, outDir, fns);
      forall p ensures p in f <==> p in files || WrittenFrom(files, vision, inDir, outDir, fns, 0, p) {
        if WrittenFrom(files, vision, inDir, outDir, fns, 0, p) && !WrittenFrom(files, vision, inDir, outDir, fns, 1, p) {
          var k :| 0 <= k < |fns| && p == outDir + [TextName(fns[k])] && HasText(files, vision, inDir, fns[k]);
          assert k == 0;
        }
      }
      forall p | p in files && !WrittenFrom(files, vision, inDir, outDir, fns, 0, p) ensures f[p] == files[p] {
        assert p != q || !HasText(files, vision, inDir, fns[0]);
      }
    }
  }

  /**
   * In per-image mode, a run that does not raise leaves in each text file the
   * text of the last image with that stem that has text annotations: `a.png`
   * and `a.jpg` share `a.txt`, and the later one wins.
   */
  lemma {:induction false} PerImageLastWins(files: Files, vision: Bytes -> OcrResponse, encode: string -> Bytes,
                                            inDir: Path, outDir: Path, fns: seq<string>, k: nat)
    requires inDir != outDir
    requires !OcrRun(files, vision, encode, inDir, outDir, false, fns).2
    requires LastWithStem(files, vision, inDir, fns, k)
    ensures var f := OcrRun(files, vision, encode, inDir, outDir, false, fns).0;
      outDir + [TextName(fns[k])] in f
      && f[outDir + [TextName(fns[k])]] == encode(vision(files[inDir + [fns[k]]]).annotations[0])
    decreases |fns|
  {
    var tail := fns[1..];
    var next := FirstWritten(files, vision, encode, inDir, outDir, fns[0]);
    PerImageStep(files, vision, encode, inDir, outDir, fns);
    if k == 0 {
      var q := outDir + [TextName(fns[0])];
      FirstWins(files, vision, inDir, outDir, fns);
      WrittenShift(files, next, vision, inDir, outDir, fns);
      PerImageFiles(next, vision, encode, inDir, outDir, tail);
      assert q in next && !WrittenFrom(next, vision, inDir, outDir, tail, 0, q);
    } else {
      LastShift(files, next, vision, inDir, fns, k);
      PerImageLastWins(next, vision, encode, inDir, outDir, tail, k - 1);
      assert tail[k - 1] == fns[k];
    }
  }

  /** When the first image is the last with its stem, no later image writes its text file. */
  lemma FirstWins(files: Files, vision: Bytes -> OcrResponse, inDir: Path, outDir: Path, fns: seq<string>)
    requires LastWithStem(files, vision, inDir, fns, 0)
    ensures !WrittenFrom(files, vision, inDir, outDir, fns, 1, outDir + [TextName(fns[0])])
  {
    var q := outDir + [TextName(fns[0])];
    if WrittenFrom(files, vision, inDir, outDir, fns, 1, q) {
      var j :| 1 <= j < |fns| && q == outDir + [TextName(fns[j])] && HasText(files, vision, inDir, fns[j]);
      assert TextName(fns[0]) == q[|outDir|] == TextName(fns[j]);
      TextNameInjective(fns[0], fns[j]);
    }
  }

  /** After the first image, what the rest of the run writes is what the images from index 1 on write. */
  lemma WrittenShift(files: Files, next: Files, vision: Bytes -> OcrResponse, inDir: Path, outDir: Path, fns: seq<string>)
    requires fns != [] && SameImages(files, next, inDir)
    ensures forall p :: WrittenFrom(next, vision, inDir, outDir, fns[1..], 0, p)
                        <==> WrittenFrom(files, vision, inDir, outDir, fns, 1, p)
  {
    var tail := fns[1..];
    forall p ensures WrittenFrom(next, vision, inDir, outDir, tail, 0, p)
                    <==> WrittenFrom(files, vision, inDir, outDir, fns, 1, p)
    {
      if WrittenFrom(next, vision, inDir, outDir, tail, 0, p) {
        var k :| 0 <= k < |tail| && p == outDir + [TextName(tail[k])] && HasText(next, vision, inDir, tail[k]);
        SameImagesText(files, next, vision, inDir, tail[k]);
        assert fns[k + 1] == tail[k];
      }
      if WrittenFrom(files, vision, inDir, outDir, fns, 1, p) {
        var k :| 1 <= k < |fns| && p == outDir + [TextName(fns[k])] && HasText(files, vision, inDir, fns[k]);
        SameImagesText(files, next, vision, inDir, fns[k]);
        assert tail[k - 1] == fns[k];
      }
    }
  }

  /** The last image with a stem stays the last one when the run moves past the first image. */
  lemma LastShift(files: Files, next: Files, vision: Bytes -> OcrResponse, inDir: Path, fns: seq<string>, k: nat)
    requires 0 < k && LastWithStem(files, vision, inDir, fns, k) && SameImages(files, next, inDir)
    ensures LastWithStem(next, vision, inDir, fns[1..], k - 1)
    ensures next[inDir + [fns[k]]] == files[inDir + [fns[k]]]
  {
    var tail := fns[1..];
    SameImagesText(files, next, vision, inDir, fns[k]);
    assert tail[k - 1] == fns[k];
    forall j | k - 1 < j < |tail| && PathStem(tail[j]) == PathStem(tail[k - 1])
      ensures !HasText(next, vision, inDir, tail[j])
    {
      assert tail[j] == fns[j + 1];
      SameImagesText(files, next, vision, inDir, tail[j]);
    }
  }

  /**
   * The main block: the listed names with an image suffix are selected
   * (sorted in combine mode), the loop runs from index `n - 1` of the
   * selection, and in combine mode, when at least one text was collected,
   * the texts joined by two blank lines go to `outDir/<inDir name>.txt`.
   * `fns` is the selection.
   */
  method OcrDirectory(fs: LocalFs, vision: Bytes -> OcrResponse, encode: string -> Bytes, inDir: Path,
              listing: seq<string>, n: int, outDir: Path, combine: bool)
    returns (ok: bool, fns: seq<string>, texts: seq<string>)
    requires Distinct(listing)
    modifies fs
    ensures forall x :: x in fns <==> x in listing && IsImageName(x)
    ensures !combine ==> fns == ImageNames(listing)
    ensures combine ==> StrOrder.StrictlyAscending(fns)
    ensures var (f, collected, raised) := OcrRun(old(fs.files), vision, encode, inDir, outDir, combine, SliceFrom(fns, n - 1));
      && ok == !raised
      && (ok ==> texts == collected)
      && fs.files == if ok && combine && collected != []
                     then f[outDir + [PathName(inDir) + ".txt"] := encode(Strs.Join(collected, "\n\n\n"))]
                     else f
  {
    fns := ImageNames(listing);
    if combine {
      fns := StrOrder.Sorted(set x | x in fns);
    }
    var todo := SliceFrom(fns, n - 1);
    ghost var run := OcrRun(fs.files, vision, encode, inDir, outDir, combine, todo);
    texts := [];
    assert texts + run.1 == run.1;
    var i := 0;
    while i < |todo|
      invariant 0 <= i <= |todo|
      invariant var (f, rest, raised) := OcrRun(fs.files, vision, encode, inDir, outDir, combine, todo[i..]);
        run == (f, texts + rest, raised)
    {
      assert todo[i..][1..] == todo[i + 1..];
      var fn := todo[i];
      var response := GoogleOcr(fs.files, vision, FromPath(inDir + [fn]));
      if response.None? {
        return false, fns, texts;
      }
      if response.value.annotations == [] {
        i := i + 1;
        continue;
      }
      var text := response.value.annotations[0];
      if !combine {
        fs.WriteBytes(outDir + [TextName(fn)], encode(text));
      } else {
        ghost var rest := OcrRun(fs.files, vision, encode, inDir, outDir, combine, todo[i + 1..]).1;
        assert texts + ([text] + rest) == (texts + [text]) + rest;
        texts := texts + [text];
      }
      i := i + 1;
    }
    assert todo[i..] == [];
    ok := true;
    if combine && texts != [] {
      fs.WriteBytes(outDir + [PathName(inDir) + ".txt"], encode(Strs.Join(texts, "\n\n\n")));
    }
  }

  /** `path.name`: the last component. */
  function PathName(p: Path): string
  {
    if p == [] then "" else p[|p| - 1]
  }
}
