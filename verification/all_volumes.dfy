/**
 * download_all_volumes.py: downloading every page of every volume listed in
 * a saved TBRC work page. Each anchor's link carries, in its `%`-separated
 * segments, the volume's image-group code, its volume number and its page
 * count; each page is fetched from the TBRC image service and written to
 * `data/<work>/vol-<volume>/page-NNN.png`.
 *
 * The HTML parse is the parameter `anchors` (each anchor's `href`, in document
 * order, or None for an anchor without one); the image service is `fetch`
 * (the body for a URL, or None when the request raises).
 */
module AllVolumes {
  import opened Wrappers
  import opened Storage
  import Strs
  import Decimal

  /** The (code, volume, page count) text of one link. */
  datatype VolumeLink = VolumeLink(code: string, vol: string, ln: string)

  /**
   * One anchor's tuple: the link is split at `%`; the code, volume and page
   * count are the text after the last `C` of segments 1, 2 and the last. A
   * link with fewer than two `%` has no segment 2 and raises.
   */
  function AnchorTuple(href: string): (r: Option<VolumeLink>)
    ensures r.Some? <==> Strs.Count(href, '%') >= 2
  {
    Strs.SplitLength(href, '%');
    var o := Strs.Split(href, '%');
    if |o| < 3 then None
    else Some(VolumeLink(Strs.AfterLast(o[1], 'C'), Strs.AfterLast(o[2], 'C'), Strs.AfterLast(o[|o| - 1], 'C')))
  }

  /**
   * A link made of `%`-free segments whose segments 1, 2 and last end in
   * `C<code>`, `C<volume>` and `C<count>` yields exactly those three.
   */
  lemma AnchorTupleRoundTrip(segs: seq<string>, p1: string, code: string, p2: string, vol: string,
                             pl: string, ln: string)
    requires |segs| >= 3 && forall i :: 0 <= i < |segs| ==> '%' !in segs[i]
    requires segs[1] == p1 + ['C'] + code && segs[2] == p2 + ['C'] + vol && segs[|segs| - 1] == pl + ['C'] + ln
    requires 'C' !in code && 'C' !in vol && 'C' !in ln
    ensures AnchorTuple(Strs.Join(segs, "%")) == Some(VolumeLink(code, vol, ln))
  {
    var href := Strs.Join(segs, "%");
    assert Strs.Split(href, '%') == segs by {
      Strs.SplitJoin(segs, '%');
    }
    assert Strs.AfterLast(segs[1], 'C') == code by {
      Strs.AfterLastOf(p1, 'C', code);
    }
    assert Strs.AfterLast(segs[2], 'C') == vol by {
      Strs.AfterLastOf(p2, 'C', vol);
    }
    assert Strs.AfterLast(segs[|segs| - 1], 'C') == ln by {
      Strs.AfterLastOf(pl, 'C', ln);
    }
  }

  /**
   * page_length: one tuple per anchor, in document order. An anchor without
   * `href`, or a link with too few segments, raises.
   */
  method PageLength(anchors: seq<Option<string>>) returns (r: Option<seq<VolumeLink>>)
    ensures r.Some? <==> forall i :: 0 <= i < |anchors| ==> anchors[i].Some? && AnchorTuple(anchors[i].value).Some?
    ensures r.Some? ==> |r.value| == |anchors|
    ensures r.Some? ==> forall i :: 0 <= i < |anchors| ==> r.value[i] == AnchorTuple(anchors[i].value).value
  {
    var pgLen: seq<VolumeLink> := [];
    var i := 0;
    while i < |anchors|
      invariant 0 <= i <= |anchors|
      invariant |pgLen| == i
      invariant forall j :: 0 <= j < i ==> anchors[j].Some? && AnchorTuple(anchors[j].value).Some?
      invariant forall j :: 0 <= j < i ==> pgLen[j] == AnchorTuple(anchors[j].value).value
    {
      if anchors[i].None? {
        return None;
      }
      var t := AnchorTuple(anchors[i].value);
      if t.None? {
        return None;
      }
      pgLen := pgLen + [t.value];
      i := i + 1;
    }
    r := Some(pgLen);
  }

  // ---------------------------------------------------------------------------
  // names and the download

  /** The work name: the last `/`-component of the page's path, cut at its first `.`. */
  function WorkName(path: string): string
  {
    Strs.BeforeFirst(Strs.AfterLast(path, '/'), '.')
  }

  lemma WorkNameOf(dir: string, work: string, ext: string)
    requires '/' !in work && '.' !in work && '/' !in ext
    ensures WorkName(dir + "/" + work + "." + ext) == work
  {
    var file := work + "." + ext;
    assert '/' !in file;
    assert dir + "/" + work + "." + ext == dir + ['/'] + file;
    Strs.AfterLastOf(dir, '/', file);
    assert file == work + ['.'] + ext;
    Strs.BeforeFirstOf(work, '.', ext);
  }

  /** `data/<work>/vol-<volume>`, by its components. */
  function VolumeDir(work: string, vol: string): Path
  {
    ["data", work, "vol-" + vol]
  }

  /** `page-{pg:03d}.png`. */
  function PageFile(pg: nat): string
  {
    "page-" + Decimal.Pad3(pg) + ".png"
  }

  lemma PageFileInjective(a: nat, b: nat)
    requires PageFile(a) == PageFile(b)
    ensures a == b
  {
    var x := Decimal.Pad3(a);
    var y := Decimal.Pad3(b);
    var n := PageFile(a);
    assert |x| == |n| - 9 == |y|;
    assert x == n[5..|n| - 4] == y;
    Decimal.Pad3Injective(a, b);
  }

  /** The request for one page. The work is always `W22084`, whatever the page's own work name. */
  function PageUrl(code: string, pg: nat, ln: string): string
  {
    "https://www.tbrc.org/browser/ImageService?work=W22084&igroup=" + code + "&image=" + Decimal.NatToStr(pg)
      + "&first=1&last=" + ln + "&fetchimg=yes"
  }

  /**
   * The page loop of one volume, from page `pg` to `last` inclusive: each page's
   * file is opened for writing, which empties it, then the page is fetched into
   * it; a failed request raises and leaves that file empty.
   */
  function SavePages(files: Files, fetch: string -> Option<Bytes>, dir: Path, code: string, ln: string,
                     pg: nat, last: int): (Files, bool)
    decreases if last < pg then 0 else last - pg + 1
  {
    if last < pg then (files, false)
    else match fetch(PageUrl(code, pg, ln))
      case None => (files[dir + [PageFile(pg)] := []], true)
      case Some(bits) => SavePages(files[dir + [PageFile(pg)] := bits], fetch, dir, code, ln, pg + 1, last)
  }

  /** The volume loop: `int(ln)` raises on text that is not a number; a volume's pages are 1 to `int(ln)`. */
  function SaveVolumes(files: Files, fetch: string -> Option<Bytes>, work: string, links: seq<VolumeLink>): (Files, bool)
    decreases |links|
  {
    if links == [] then (files, false)
    else
      var link := links[0];
      match Decimal.ParseInt(link.ln)
      case None => (files, true)
      case Some(n) =>
        var (f, raised) := SavePages(files, fetch, VolumeDir(work, link.vol), link.code, link.ln, 1, n);
        if raised then (f, true) else SaveVolumes(f, fetch, work, links[1..])
  }

  /** The pages of one volume, from `pg` to `n`, as the page loop writes them. */
  method SaveVolumePages(fs: LocalFs, fetch: string -> Option<Bytes>, dir: Path, code: string, ln: string, n: int)
    returns (ok: bool)
    modifies fs
    ensures (fs.files, !ok) == SavePages(old(fs.files), fetch, dir, code, ln, 1, n)
  {
    ghost var all := SavePages(fs.files, fetch, dir, code, ln, 1, n);
    var pg := 1;
    while pg <= n
      invariant 1 <= pg && (n >= 1 ==> pg <= n + 1)
      invariant all == SavePages(fs.files, fetch, dir, code, ln, pg, n)
      decreases n - pg
    {
      ghost var before := fs.files;
      var page := dir + [PageFile(pg)];
      fs.WriteBytes(page, []);
      var body := fetch(PageUrl(code, pg, ln));
      if body.None? {
        return false;
      }
      fs.WriteBytes(page, body.value);
      assert fs.files == before[page := body.value];
      pg := pg + 1;
    }
    ok := true;
  }

  /**
   * download_all_volumes: the links of the saved page are read, then for each
   * volume, in order, every page from 1 to its page count is downloaded into
   * `data/<work>/vol-<volume>`. Any error ends the run.
   */
  method DownloadAllVolumes(fs: LocalFs, fetch: string -> Option<Bytes>, path: string, anchors: seq<Option<string>>)
    returns (ok: bool, links: Option<seq<VolumeLink>>)
    modifies fs
    ensures links.None? <==> exists i :: 0 <= i < |anchors| && (anchors[i].None? || AnchorTuple(anchors[i].value).None?)
    ensures links.Some? ==> |links.value| == |anchors|
    ensures links.Some? ==> forall i :: 0 <= i < |anchors| ==> links.value[i] == AnchorTuple(anchors[i].value).value
    ensures links.None? ==> !ok && fs.files == old(fs.files)
    ensures links.Some? ==> (fs.files, !ok) == SaveVolumes(old(fs.files), fetch, WorkName(path), links.value)
  {
    var work := WorkName(path);
    links := PageLength(anchors);
    if links.None? {
      return false, links;
    }
    var tuples := links.value;
    ghost var all := SaveVolumes(fs.files, fetch, work, tuples);
    var k := 0;
    while k < |tuples|
      invariant 0 <= k <= |tuples|
      invariant all == SaveVolumes(fs.files, fetch, work, tuples[k..])
    {
      assert tuples[k..][0] == tuples[k] && tuples[k..][1..] == tuples[k + 1..];
      var link := tuples[k];
      var count := Decimal.ParseInt(link.ln);
      if count.None? {
        return false, links;
      }
      var saved := SaveVolumePages(fs, fetch, VolumeDir(work, link.vol), link.code, link.ln, count.value);
      if !saved {
        return false, links;
      }
      k := k + 1;
    }
    ok := true;
  }

  /** `p` is the file of a page from `pg` to `last` of the volume in `dir`. */
  predicate IsPageIn(dir: Path, pg: nat, last: int, p: Path)
  {
    exists k: nat :: pg <= k <= last && p == dir + [PageFile(k)]
  }

  /**
   * A page loop that does not raise writes each page from `pg` to `last` with
   * the image service's body for that page's request, and nothing else: page
   * files never collide, and an existing file of the same name is replaced.
   */
  lemma PagesWritten(files: Files, fetch: string -> Option<Bytes>, dir: Path, code: string,
                     ln: string, pg: nat, last: int)
    requires !SavePages(files, fetch, dir, code, ln, pg, last).1
    ensures var r := SavePages(files, fetch, dir, code, ln, pg, last).0;
      && (forall p :: p in r <==> p in files || IsPageIn(dir, pg, last, p))
      && (forall k: nat :: pg <= k <= last ==>
            fetch(PageUrl(code, k, ln)).Some? && r[dir + [PageFile(k)]] == fetch(PageUrl(code, k, ln)).value)
      && (forall p :: p in files && !IsPageIn(dir, pg, last, p) ==> r[p] == files[p])
  {
    PagesWrittenKeys(files, fetch, dir, code, ln, pg, last);
    PagesWrittenBodies(files, fetch, dir, code, ln, pg, last);
    PagesWrittenOthers(files, fetch, dir, code, ln, pg, last);
  }

  /** The files after the page loop are the earlier ones and the pages. */
  lemma {:induction false} PagesWrittenKeys(files: Files, fetch: string -> Option<Bytes>, dir: Path, code: string,
                                            ln: string, pg: nat, last: int)
    requires !SavePages(files, fetch, dir, code, ln, pg, last).1
    ensures var r := SavePages(files, fetch, dir, code, ln, pg, last).0;
      forall p :: p in r <==> p in files || IsPageIn(dir, pg, last, p)
    decreases if last < pg then 0 else last - pg + 1
  {
    if pg <= last {
      var pg1 := pg + 1;
      var next := files[dir + [PageFile(pg)] := fetch(PageUrl(code, pg, ln)).value];
      var r := SavePages(files, fetch, dir, code, ln, pg, last).0;
      assert r == SavePages(next, fetch, dir, code, ln, pg1, last).0;
      PagesWrittenKeys(next, fetch, dir, code, ln, pg1, last);
      forall p ensures p in r <==> p in files || IsPageIn(dir, pg, last, p) {
        if IsPageIn(dir, pg, last, p) && !IsPageIn(dir, pg1, last, p) {
          var k: nat :| pg <= k <= last && p == dir + [PageFile(k)];
          assert k == pg;
        }
      }
    }
  }

  /** Files that are not pages of the loop keep their contents. */
  lemma {:induction false} PagesWrittenOthers(files: Files, fetch: string -> Option<Bytes>, dir: Path, code: string,
                                              ln: string, pg: nat, last: int)
    requires !SavePages(files, fetch, dir, code, ln, pg, last).1
    ensures var r := SavePages(files, fetch, dir, code, ln, pg, last).0;
      forall p :: p in files && !IsPageIn(dir, pg, last, p) ==> p in r && r[p] == files[p]
    decreases if last < pg then 0 else last - pg + 1
  {
    if pg <= last {
      var pg1 := pg + 1;
      var page := dir + [PageFile(pg)];
      var next := files[page := fetch(PageUrl(code, pg, ln)).value];
      var r := SavePages(files, fetch, dir, code, ln, pg, last).0;
      assert r == SavePages(next, fetch, dir, code, ln, pg1, last).0;
      PagesWrittenOthers(next, fetch, dir, code, ln, pg1, last);
      forall p | p in files && !IsPageIn(dir, pg, last, p) ensures p in r && r[p] == files[p] {
      }
    }
  }

  /** Each page of the loop holds the body fetched for it. */
  lemma {:induction false} PagesWrittenBodies(files: Files, fetch: string -> Option<Bytes>, dir: Path, code: string,
                                              ln: string, pg: nat, last: int)
    requires !SavePages(files, fetch, dir, code, ln, pg, last).1
    ensures var r := SavePages(files, fetch, dir, code, ln, pg, last).0;
      forall k: nat :: pg <= k <= last ==>
        fetch(PageUrl(code, k, ln)).Some? && dir + [PageFile(k)] in r && r[dir + [PageFile(k)]] == fetch(PageUrl(code, k, ln)).value
    decreases if last < pg then 0 else last - pg + 1
  {
    if pg <= last {
      var pg1 := pg + 1;
      var page := dir + [PageFile(pg)];
      var next := files[page := fetch(PageUrl(code, pg, ln)).value];
      var r := SavePages(files, fetch, dir, code, ln, pg, last).0;
      assert r == SavePages(next, fetch, dir, code, ln, pg1, last).0;
      assert page in r && r[page] == next[page] by {
        PageNotLater(dir, pg, last);
        PagesWrittenOthers(next, fetch, dir, code, ln, pg1, last);
      }
      PagesWrittenBodies(next, fetch, dir, code, ln, pg1, last);
      forall k: nat | pg <= k <= last
        ensures fetch(PageUrl(code, k, ln)).Some? && dir + [PageFile(k)] in r && r[dir + [PageFile(k)]] == fetch(PageUrl(code, k, ln)).value
      {
        if k == pg {
          assert dir + [PageFile(k)] == page;
        }
      }
    }
  }

  /**
   * A page loop that raises stops at the first page whose request fails: the
   * pages before it are written with their bodies and its own file is left empty.
   */
  lemma {:induction false} PagesFailed(files: Files, fetch: string -> Option<Bytes>, dir: Path, code: string,
                                       ln: string, pg: nat, last: int)
    requires SavePages(files, fetch, dir, code, ln, pg, last).1
    ensures exists k: nat :: pg <= k <= last && FailsAt(SavePages(files, fetch, dir, code, ln, pg, last).0,
                                                         fetch, dir, code, ln, pg, k)
    decreases if last < pg then 0 else last - pg + 1
  {
    var r := SavePages(files, fetch, dir, code, ln, pg, last).0;
    var page := dir + [PageFile(pg)];
    match fetch(PageUrl(code, pg, ln))
    case None =>
      assert FailsAt(r, fetch, dir, code, ln, pg, pg);
    case Some(bits) =>
      var next := files[page := bits];
      assert r == SavePages(next, fetch, dir, code, ln, pg + 1, last).0;
      PagesFailed(next, fetch, dir, code, ln, pg + 1, last);
      var k: nat :| pg + 1 <= k <= last && FailsAt(r, fetch, dir, code, ln, pg + 1, k);
      assert page in r && r[page] == bits by {
        PageNotLater(dir, pg, last);
        PagesThroughKept(next, fetch, dir, code, ln, pg + 1, last, page);
      }
      FailsAtEarlier(r, fetch, dir, code, ln, pg, k);
  }

  lemma FailsAtEarlier(r: Files, fetch: string -> Option<Bytes>, dir: Path, code: string, ln: string, pg: nat, k: nat)
    requires FailsAt(r, fetch, dir, code, ln, pg + 1, k)
    requires fetch(PageUrl(code, pg, ln)).Some?
    requires dir + [PageFile(pg)] in r && r[dir + [PageFile(pg)]] == fetch(PageUrl(code, pg, ln)).value
    ensures FailsAt(r, fetch, dir, code, ln, pg, k)
  {
  }

  /**
   * Page `k` is where the loop from `pg` stopped: its request failed and its file
   * is empty, and every earlier page holds its fetched body.
   */
  predicate FailsAt(r: Files, fetch: string -> Option<Bytes>, dir: Path, code: string, ln: string, pg: nat, k: nat)
  {
    && fetch(PageUrl(code, k, ln)).None?
    && dir + [PageFile(k)] in r && r[dir + [PageFile(k)]] == []
    && forall j: nat :: pg <= j < k ==>
         fetch(PageUrl(code, j, ln)).Some? && dir + [PageFile(j)] in r && r[dir + [PageFile(j)]] == fetch(PageUrl(code, j, ln)).value
  }

  /** A file that is not a page of the loop keeps its contents, whether or not the loop raises. */
  lemma {:induction false} PagesThroughKept(files: Files, fetch: string -> Option<Bytes>, dir: Path, code: string,
                                            ln: string, pg: nat, last: int, p: Path)
    requires p in files && !IsPageIn(dir, pg, last, p)
    ensures var r := SavePages(files, fetch, dir, code, ln, pg, last).0; p in r && r[p] == files[p]
    decreases if last < pg then 0 else last - pg + 1
  {
    if pg <= last {
      assert p != dir + [PageFile(pg)];
      match fetch(PageUrl(code, pg, ln))
      case None =>
      case Some(bits) =>
        PagesThroughKept(files[dir + [PageFile(pg)] := bits], fetch, dir, code, ln, pg + 1, last, p);
    }
  }

  lemma PageNotLater(dir: Path, pg: nat, last: int)
    ensures !IsPageIn(dir, pg + 1, last, dir + [PageFile(pg)])
  {
    if IsPageIn(dir, pg + 1, last, dir + [PageFile(pg)]) {
      var k: nat :| pg + 1 <= k <= last && dir + [PageFile(pg)] == dir + [PageFile(k)];
      assert PageFile(pg) == (dir + [PageFile(k)])[|dir|];
      PageFileInjective(pg, k);
    }
  }
}
