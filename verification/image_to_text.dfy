/**
 * usage/bdrc/image_to_text.py: the older one-shot OCR script. Work ids are read
 * one per line from input files; each volume's Vision responses, already in
 * page order, are assembled into the volume's `base.txt` (page texts separated
 * by a page-break line) and one `resource/NNN.json` per non-blank page.
 */
module ImageToText {
  import opened Storage
  import Strs
  import Decimal

  // ---------------------------------------------------------------------------
  // work ids

  /** The page separator: a newline, a hundred `#`, a newline. */
  const PAGE_BREAK: string := "\n" + HASHES + "\n"

  const HASHES: string := "####################################################################################################"

  const RESOURCE_NAMESPACE: string := "http://purl.bdrc.io/resource/"

  /** Each non-empty line, paired with the resource URI of that work id. */
  function WorkUris(lines: seq<string>): (r: seq<(string, string)>)
    ensures |r| <= |lines|
    ensures forall i :: 0 <= i < |r| ==> r[i].0 != "" && r[i].1 == RESOURCE_NAMESPACE + r[i].0
  {
    if lines == [] then []
    else (if lines[0] == "" then [] else [(lines[0], RESOURCE_NAMESPACE + lines[0])]) + WorkUris(lines[1..])
  }

  /** get_work_ids: the work ids of an input file's text, with their URIs. */
  function GetWorkIds(text: string): seq<(string, string)>
  {
    WorkUris(Strs.Split(text, '\n'))
  }

  /** The first components of `pairs`. */
  function Firsts(pairs: seq<(string, string)>): (r: seq<string>)
    ensures |r| == |pairs| && forall i :: 0 <= i < |r| ==> r[i] == pairs[i].0
  {
    seq(|pairs|, i requires 0 <= i < |pairs| => pairs[i].0)
  }

  lemma {:induction false} WorkUrisNonEmpty(lines: seq<string>)
    requires forall i :: 0 <= i < |lines| ==> lines[i] != ""
    ensures Firsts(WorkUris(lines)) == lines
    decreases |lines|
  {
    if lines != [] {
      var rest := WorkUris(lines[1..]);
      assert Firsts(rest) == lines[1..] by {
        WorkUrisNonEmpty(lines[1..]);
      }
      var r := WorkUris(lines);
      assert r == [(lines[0], RESOURCE_NAMESPACE + lines[0])] + rest;
      assert |Firsts(r)| == |lines|;
      forall i | 0 <= i < |lines|
        ensures Firsts(r)[i] == lines[i]
      {
        if i > 0 {
          assert r[i] == rest[i - 1] && Firsts(rest)[i - 1] == lines[i];
        }
      }
    }
  }

  /**
   * Ids written one per line read back as the same ids, in order, unchanged
   * (no stripping, unlike the pipeline's reader).
   */
  lemma GetWorkIdsRoundTrip(ids: seq<string>)
    requires |ids| >= 1
    requires forall i :: 0 <= i < |ids| ==> ids[i] != "" && '\n' !in ids[i]
    ensures Firsts(GetWorkIds(Strs.Join(ids, "\n"))) == ids
  {
    Strs.SplitJoin(ids, '\n');
    WorkUrisNonEmpty(ids);
  }

  /** Empty lines, including a trailing newline's, yield no work. */
  lemma {:induction false} EmptyLinesIgnored(lines: seq<string>, k: nat)
    requires k <= |lines|
    requires forall i :: k <= i < |lines| ==> lines[i] == ""
    ensures WorkUris(lines) == WorkUris(lines[..k])
    decreases |lines|
  {
    if k == |lines| {
      assert lines[..k] == lines;
    } else if k == 0 {
      EmptyLinesIgnored(lines[1..], 0);
      assert lines[1..][..0] == [];
    } else {
      EmptyLinesIgnored(lines[1..], k - 1);
      assert lines[1..][..k - 1] == lines[..k][1..];
    }
  }

  // ---------------------------------------------------------------------------
  // volume text and page files

  /**
   * One Vision response: an empty (blank-page) response, one whose first text
   * annotation holds the page's text, or one without text annotations, on
   * which the script raises. `json` is the response's JSON serialisation.
   */
  datatype Response = Blank | Annotated(description: string, json: Bytes) | Malformed

  /** What one response adds to the volume text. */
  function PageText(r: Response): string
  {
    if r.Annotated? then r.description + PAGE_BREAK else ""
  }

  /** The volume text of a run of responses: their page texts, in order. */
  function VolumeText(rs: seq<Response>): string
  {
    if rs == [] then "" else VolumeText(rs[..|rs| - 1]) + PageText(rs[|rs| - 1])
  }

  /** The JSON file of the response at index `i` (counting every response): `f'{i+1:03}.json'`. */
  function PageName(i: nat): string
  {
    Decimal.Pad3(i + 1) + ".json"
  }

  /** The file names of different responses never coincide. */
  lemma PageNameInjective(i: nat, j: nat)
    requires PageName(i) == PageName(j)
    ensures i == j
  {
    var m, n := i + 1, j + 1;
    SuffixCancel(Decimal.Pad3(m), Decimal.Pad3(n), ".json");
    Decimal.Pad3Injective(m, n);
  }

  lemma SuffixCancel(x: string, y: string, t: string)
    requires x + t == y + t
    ensures x == y
  {
    assert |x| == |y|;
    assert x == (x + t)[..|x|];
    assert y == (y + t)[..|y|];
  }

  /**
   * The page files, response by response from index `i`: a blank response is
   * skipped, an annotated one writes its JSON to `resDir/<PageName(i)>`, and a
   * malformed one raises. The result is the files and whether one raised.
   */
  function PagesFrom(files: Files, resDir: Path, rs: seq<Response>, i: nat): (Files, bool)
    decreases |rs| - i
  {
    if i >= |rs| then (files, false)
    else match rs[i]
      case Blank => PagesFrom(files, resDir, rs, i + 1)
      case Malformed => (files, true)
      case Annotated(_, json) => PagesFrom(files[resDir + [PageName(i)] := json], resDir, rs, i + 1)
  }

  /** The files a volume ends with: the page files and, when nothing raised, `base.txt` holding the encoded text. */
  function Assembled(files: Files, encode: string -> Bytes, volDir: Path, rs: seq<Response>): Files
  {
    var (pages, raised) := PagesFrom(files, volDir + ["resource"], rs, 0);
    if raised then pages else pages[volDir + ["base.txt"] := encode(VolumeText(rs))]
  }

  /**
   * The assembly loop of the main block: the responses are visited in order;
   * each annotated one appends its text and a page break to the volume text
   * and has its JSON written to `resource/NNN.json`; blank ones are passed
   * over; a malformed one raises. The text is written to `base.txt` at the end.
   */
  method AssembleVolume(fs: LocalFs, encode: string -> Bytes, volDir: Path, rs: seq<Response>)
    returns (ok: bool, text: string)
    modifies fs
    ensures ok <==> !PagesFrom(old(fs.files), volDir + ["resource"], rs, 0).1
    ensures ok ==> text == VolumeText(rs)
    ensures fs.files == Assembled(old(fs.files), encode, volDir, rs)
  {
    var resDir := volDir + ["resource"];
    ghost var pages := PagesFrom(fs.files, resDir, rs, 0);
    text := "";
    var i := 0;
    while i < |rs|
      invariant 0 <= i <= |rs|
      invariant text == VolumeText(rs[..i])
      invariant pages == PagesFrom(fs.files, resDir, rs, i)
    {
      assert rs[..i + 1][..i] == rs[..i];
      if rs[i].Blank? {
        i := i + 1;
        continue;
      }
      if rs[i].Malformed? {
        return false, text;
      }
      text := text + rs[i].description + PAGE_BREAK;
      fs.WriteBytes(resDir + [PageName(i)], rs[i].json);
      i := i + 1;
    }
    assert rs[..i] == rs;
    fs.WriteBytes(volDir + ["base.txt"], encode(text));
    ok := true;
  }

  lemma VolumeTextSnoc(rs: seq<Response>, x: Response)
    ensures VolumeText(rs + [x]) == VolumeText(rs) + PageText(x)
  {
    assert (rs + [x])[..|rs|] == rs;
  }

  /** The volume text of consecutive runs of responses is the concatenation of theirs. */
  lemma {:induction false} VolumeTextAppend(a: seq<Response>, b: seq<Response>)
    ensures VolumeText(a + b) == VolumeText(a) + VolumeText(b)
    decreases |b|
  {
    if b == [] {
      assert a + b == a;
    } else {
      var b' := b[..|b| - 1];
      var x := b[|b| - 1];
      assert b == b' + [x];
      assert a + b == (a + b') + [x];
      assert VolumeText(a + b) == VolumeText(a + b') + PageText(x) by {
        VolumeTextSnoc(a + b', x);
      }
      assert VolumeText(b) == VolumeText(b') + PageText(x) by {
        VolumeTextSnoc(b', x);
      }
      VolumeTextAppend(a, b');
      Strs.AppendAssoc(VolumeText(a), VolumeText(b'), PageText(x));
    }
  }

  /** A blank page contributes nothing to the volume text. */
  lemma BlankAddsNothing(a: seq<Response>, b: seq<Response>)
    ensures VolumeText(a + [Blank] + b) == VolumeText(a + b)
  {
    assert VolumeText(a + [Blank] + b) == VolumeText(a + [Blank]) + VolumeText(b) by {
      VolumeTextAppend(a + [Blank], b);
    }
    assert VolumeText(a + [Blank]) == VolumeText(a) by {
      VolumeTextSnoc(a, Blank);
    }
    VolumeTextAppend(a, b);
  }

  /** The volume text is empty exactly when no response is annotated, and otherwise ends with a page break. */
  lemma {:induction false} VolumeTextShape(rs: seq<Response>)
    ensures VolumeText(rs) == "" <==> forall i :: 0 <= i < |rs| ==> !rs[i].Annotated?
    ensures VolumeText(rs) != "" ==> Strs.EndsWith(VolumeText(rs), PAGE_BREAK)
    decreases |rs|
  {
    if rs != [] {
      var init := rs[..|rs| - 1];
      var x := rs[|rs| - 1];
      VolumeTextShape(init);
      assert forall i :: 0 <= i < |init| ==> init[i] == rs[i];
      var t := VolumeText(rs);
      assert t == VolumeText(init) + PageText(x);
      if x.Annotated? {
        var head := VolumeText(init) + x.description;
        assert t == head + PAGE_BREAK;
        assert |PAGE_BREAK| >= 2;
        assert t[|head|..] == PAGE_BREAK;
      } else {
        assert t == VolumeText(init);
      }
    }
  }

  /** `p` is the page file of an annotated response at index `i` or later. */
  predicate IsPageOf(resDir: Path, rs: seq<Response>, i: nat, p: Path)
  {
    exists j :: i <= j < |rs| && rs[j].Annotated? && p == resDir + [PageName(j)]
  }

  /**
   * When no response raises, the page files hold exactly one JSON per
   * annotated response, named by its index among all responses (so blank
   * pages leave gaps in the numbering), and nothing else changes.
   */
  lemma {:induction false} PagesWritten(files: Files, resDir: Path, rs: seq<Response>, i: nat)
    requires !PagesFrom(files, resDir, rs, i).1
    ensures var r := PagesFrom(files, resDir, rs, i).0;
      && (forall p :: p in r <==> p in files || IsPageOf(resDir, rs, i, p))
      && (forall j :: i <= j < |rs| && rs[j].Annotated? ==> r[resDir + [PageName(j)]] == rs[j].json)
      && (forall p :: p in files && !IsPageOf(resDir, rs, i, p) ==> r[p] == files[p])
    decreases |rs| - i
  {
    if i < |rs| {
      var next := if rs[i].Annotated? then files[resDir + [PageName(i)] := rs[i].json] else files;
      var r := PagesFrom(files, resDir, rs, i).0;
      assert r == PagesFrom(next, resDir, rs, i + 1).0;
      PagesWritten(next, resDir, rs, i + 1);
      forall j | i <= j < |rs| && rs[j].Annotated? ensures r[resDir + [PageName(j)]] == rs[j].json {
        if j == i && !IsPageOf(resDir, rs, i + 1, resDir + [PageName(i)]) {
        } else if j == i {
          var k :| i + 1 <= k < |rs| && rs[k].Annotated? && resDir + [PageName(i)] == resDir + [PageName(k)];
          assert PageName(i) == (resDir + [PageName(k)])[|resDir|];
          PageNameInjective(i, k);
        }
      }
      forall p ensures p in r <==> p in files || IsPageOf(resDir, rs, i, p) {
        if IsPageOf(resDir, rs, i + 1, p) {
          var k :| i + 1 <= k < |rs| && rs[k].Annotated? && p == resDir + [PageName(k)];
        }
      }
    }
  }
}
