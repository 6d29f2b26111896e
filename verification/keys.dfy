/**
 * The pure naming rules of the BDRC OCR pipeline (usage/bdrc/bdrc_ocr.py): where
 * a work's images and OCR output live in object storage, how a work id is split
 * into its local and `bdr:`-qualified forms, and how a source image file name is
 * turned into its staged image name and its OCR result name.
 */
module BdrcKeys {
  import opened Wrappers
  import Strs

  const SERVICE := "vision"
  const BATCH_PREFIX := "batch"
  const IMAGES := "images"
  const OUTPUT := "output"
  const INFO_FN := "info.json"
  const BDR_NAMESPACE := "http://purl.bdrc.io/resource/"

  /** What `get_s3_prefix_path` returns: one prefix, or one prefix per data type plus the batch folder. */
  datatype S3Prefix = Prefix(path: string) | Paths(paths: map<string, string>)

  /** `imagegroup[0]` on an empty image-group id raises IndexError. */
  datatype KeyError = EmptyImageGroup

  /** Python truthiness of the optional `service` argument. */
  predicate IsSet(s: Option<string>)
  {
    s.Some? && s.value != ""
  }

  /** `md5(work).hexdigest()[:2]`, with the hash itself a parameter. */
  function HashBucket(md5hex: string -> string, work: string): (r: string)
    ensures r <= md5hex(work)
    ensures |r| == if |md5hex(work)| < 2 then |md5hex(work)| else 2
  {
    var h := md5hex(work);
    if |h| <= 2 then h else h[..2]
  }

  /** `I` followed by exactly four ASCII digits. */
  predicate IsNumberedGroup(imagegroup: string)
  {
    |imagegroup| == 5 && imagegroup[0] == 'I' && Strs.IsDigits(imagegroup[1..])
  }

  /** The image-group part of a key: the four digits of `I<dddd>`, otherwise the whole id. */
  function GroupSuffix(imagegroup: string): string
  {
    if IsNumberedGroup(imagegroup) then imagegroup[1..] else imagegroup
  }

  function BaseDir(bucket: string, work: string): string
  {
    "Works/" + bucket + "/" + work
  }

  /** The archive prefix of a volume's source images. */
  function ImagesPrefix(bucket: string, work: string, imagegroup: string): string
  {
    BaseDir(bucket, work) + "/images/" + work + "-" + GroupSuffix(imagegroup)
  }

  /** The batch folder under which a service stores its output for a work. */
  function BatchDir(bucket: string, work: string, service: string, batchPrefix: string): string
  {
    BaseDir(bucket, work) + "/" + service + "/" + batchPrefix + "001"
  }

  function DataTypePrefix(batchDir: string, dataType: string, work: string, imagegroup: string): string
  {
    batchDir + "/" + dataType + "/" + work + "-" + GroupSuffix(imagegroup)
  }

  /**
   * get_s3_prefix_path. Without a service: the volume's image prefix. With one:
   * a dictionary whose keys are exactly `batch` and the data types, `batch`
   * giving the batch folder (unless a data type is itself named `batch`, which
   * then overwrites it) and each data type its folder for this volume.
   */
  method GetS3PrefixPath(md5hex: string -> string, work: string, imagegroup: string,
                         service: Option<string>, batchPrefix: string, dataTypes: seq<string>)
    returns (r: Result<S3Prefix, KeyError>)
    ensures imagegroup == "" <==> r == Failure(EmptyImageGroup)
    ensures imagegroup != "" && !IsSet(service) ==>
      r == Success(Prefix(ImagesPrefix(HashBucket(md5hex, work), work, imagegroup)))
    ensures imagegroup != "" && IsSet(service) ==> r.Success? && r.value.Paths?
    ensures r.Success? && r.value.Paths? ==> IsSet(service)
    ensures r.Success? && r.value.Paths? ==>
      r.value.paths.Keys == {BATCH_PREFIX} + set dt | dt in dataTypes
    ensures r.Success? && r.value.Paths? ==> forall dt :: dt in dataTypes ==>
      dt in r.value.paths
      && r.value.paths[dt] == DataTypePrefix(BatchDir(HashBucket(md5hex, work), work, service.value, batchPrefix), dt, work, imagegroup)
    ensures r.Success? && r.value.Paths? && BATCH_PREFIX !in dataTypes ==>
      BATCH_PREFIX in r.value.paths && r.value.paths[BATCH_PREFIX] == BatchDir(HashBucket(md5hex, work), work, service.value, batchPrefix)
  {
    if imagegroup == "" {
      return Failure(EmptyImageGroup);
    }
    var bucket := HashBucket(md5hex, work);
    if !IsSet(service) {
      return Success(Prefix(ImagesPrefix(bucket, work, imagegroup)));
    }
    var batchDir := BatchDir(bucket, work, service.value, batchPrefix);
    var paths := map[BATCH_PREFIX := batchDir];
    for k := 0 to |dataTypes|
      invariant paths.Keys == {BATCH_PREFIX} + set dt | dt in dataTypes[..k]
      invariant forall dt :: dt in dataTypes[..k] ==> paths[dt] == DataTypePrefix(batchDir, dt, work, imagegroup)
      invariant BATCH_PREFIX !in dataTypes[..k] ==> paths[BATCH_PREFIX] == batchDir
    {
      assert dataTypes[..k + 1] == dataTypes[..k] + [dataTypes[k]];
      paths := paths[dataTypes[k] := DataTypePrefix(batchDir, dataTypes[k], work, imagegroup)];
    }
    assert dataTypes[..|dataTypes|] == dataTypes;
    return Success(Paths(paths));
  }

  /**
   * Image prefixes do not collide: for ids free of `/`, equal prefixes come from
   * the same work and the same image-group suffix.
   */
  lemma ImagesPrefixInjective(b1: string, w1: string, g1: string, b2: string, w2: string, g2: string)
    requires '/' !in b1 && '/' !in w1 && '/' !in g1
    requires '/' !in b2 && '/' !in w2 && '/' !in g2
    requires ImagesPrefix(b1, w1, g1) == ImagesPrefix(b2, w2, g2)
    ensures w1 == w2 && GroupSuffix(g1) == GroupSuffix(g2)
  {
    var s1 := GroupSuffix(g1);
    var s2 := GroupSuffix(g2);
    ImagesPrefixParts(b1, w1, g1);
    ImagesPrefixParts(b2, w2, g2);
    assert w1 == w2;
    assert s1 == (w1 + "-" + s1)[|w1| + 1..];
    assert s2 == (w2 + "-" + s2)[|w2| + 1..];
  }

  /** An image prefix splits on `/` into its five components. */
  lemma ImagesPrefixParts(b: string, w: string, g: string)
    requires '/' !in b && '/' !in w && '/' !in g
    ensures Strs.Split(ImagesPrefix(b, w, g), '/') == ["Works", b, w, "images", w + "-" + GroupSuffix(g)]
  {
    var s := GroupSuffix(g);
    assert '/' !in s;
    var last := w + "-" + s;
    assert '/' !in last;
    var t3 := "images" + ['/'] + last;
    var t2 := w + ['/'] + t3;
    var t1 := b + ['/'] + t2;
    assert ImagesPrefix(b, w, g) == "Works" + ['/'] + t1;
    Strs.SplitNoSep(last, '/');
    Strs.SplitAt("images", '/', last);
    Strs.SplitAt(w, '/', t3);
    Strs.SplitAt(b, '/', t2);
    Strs.SplitAt("Works", '/', t1);
  }

  /**
   * The numbered form drops the `I`, so an id made of four digits shares its
   * key with the `I`-prefixed one; among ids that all start with `I`, as BDRC's
   * do, the suffix tells the image groups apart.
   */
  lemma GroupSuffixInjective(g1: string, g2: string)
    requires |g1| > 0 && |g2| > 0 && g1[0] == 'I' && g2[0] == 'I'
    requires GroupSuffix(g1) == GroupSuffix(g2)
    ensures g1 == g2
  {
    if IsNumberedGroup(g1) && IsNumberedGroup(g2) {
      assert g1 == [g1[0]] + g1[1..] && g2 == [g2[0]] + g2[1..];
    }
  }

  /**
   * The suffix rule is not injective over all ids: `I<dddd>` and the bare `<dddd>`
   * get the same suffix (`I0886` and `0886`), so their keys collide.
   */
  lemma GroupSuffixCollides(d: string)
    requires |d| == 4 && Strs.IsDigits(d)
    ensures GroupSuffix("I" + d) == GroupSuffix(d) == d
  {
    assert ("I" + d)[0] == 'I' && ("I" + d)[1..] == d;
    assert d[0] != 'I';
  }

  // ---------------------------------------------------------------------------
  // work ids

  /** get_work_local_id: (local id, `bdr:`-qualified id). */
  function GetWorkLocalId(work: string): (r: (string, string))
  {
    if ':' in work then (Strs.AfterLast(work, ':'), work) else (work, "bdr:" + work)
  }

  /**
   * The local id carries no `:`, the qualified id ends with `:` and the local
   * id, and parsing is stable: a local id is its own local id, and parsing the
   * qualified id again gives the same pair.
   */
  lemma WorkLocalIdProperties(work: string)
    ensures var (local, qualified) := GetWorkLocalId(work);
      && ':' !in local
      && Strs.EndsWith(qualified, ":" + local)
      && GetWorkLocalId(local) == (local, "bdr:" + local)
      && GetWorkLocalId(qualified) == (local, qualified)
  {
    var (local, qualified) := GetWorkLocalId(work);
    if ':' in work {
      assert ':' !in local by {
        Strs.AfterLastNoSep(work, ':');
      }
      assert Strs.EndsWith(qualified, ":" + local) by {
        var parts := Strs.Split(work, ':');
        assert |parts| >= 2 by {
          Strs.SplitLength(work, ':');
          Strs.CountZero(work, ':');
        }
        Strs.JoinSplit(work, ':');
        JoinLast(parts, [':']);
      }
    } else {
      var q := "bdr" + [':'] + work;
      assert qualified == q;
      assert ':' in q by { assert q[3] == ':'; }
      assert Strs.AfterLast(q, ':') == work by {
        Strs.SplitAt("bdr", ':', work);
        Strs.SplitNoSep(work, ':');
      }
      assert Strs.EndsWith(q, ":" + work) by {
        assert q[|q| - |":" + work|..] == ":" + work;
      }
    }
  }

  lemma {:induction false} JoinLast(parts: seq<string>, sep: string)
    requires |parts| >= 2
    ensures Strs.EndsWith(Strs.Join(parts, sep), sep + parts[|parts| - 1])
    decreases |parts|
  {
    if |parts| > 2 {
      JoinLast(parts[1..], sep);
      Strs.JoinCons(parts[0], parts[1..], sep);
      assert [parts[0]] + parts[1..] == parts;
    }
  }

  /** A binding of a SPARQL result row: a literal, or a URI. */
  datatype JsonNode = JsonNode(kind: string, value: string)

  /**
   * get_value: a literal's value, or a URI in the `bdr:` namespace shortened to
   * `bdr:<id>`. Other URIs get a generated prefix from rdflib, which is not modelled.
   */
  function GetValue(node: JsonNode): (r: Option<string>)
    ensures node.kind == "literal" ==> r == Some(node.value)
    ensures node.kind != "literal" && r.Some? ==>
      && |node.value| > |BDR_NAMESPACE| && node.value[..|BDR_NAMESPACE|] == BDR_NAMESPACE
      && r.value == "bdr:" + node.value[|BDR_NAMESPACE|..]
  {
    if node.kind == "literal" then Some(node.value)
    else if |node.value| > |BDR_NAMESPACE| && node.value[..|BDR_NAMESPACE|] == BDR_NAMESPACE
            && '/' !in node.value[|BDR_NAMESPACE|..] && '#' !in node.value[|BDR_NAMESPACE|..]
    then Some("bdr:" + node.value[|BDR_NAMESPACE|..])
    else None
  }

  /** A volume URI read back through get_value and get_work_local_id gives its bare id and its `bdr:` form. */
  lemma VolumeUriRoundTrip(id: string)
    requires id != "" && ':' !in id && '/' !in id && '#' !in id
    ensures GetValue(JsonNode("uri", BDR_NAMESPACE + id)) == Some("bdr:" + id)
    ensures GetWorkLocalId("bdr:" + id) == (id, "bdr:" + id)
  {
    assert (BDR_NAMESPACE + id)[|BDR_NAMESPACE|..] == id;
    assert (BDR_NAMESPACE + id)[..|BDR_NAMESPACE|] == BDR_NAMESPACE;
    WorkLocalIdProperties(id);
  }

  // ---------------------------------------------------------------------------
  // file names

  /** The name under which a source image is staged: `<text before first '.'>.png` for `.tif`, else unchanged. */
  function StagedName(filename: string): string
  {
    if Strs.EndsWith(filename, ".tif") then Strs.BeforeFirst(filename, '.') + ".png" else filename
  }

  /** The OCR result name of an image: `<text before first '.'>.json.gz`. */
  function OcrResultName(filename: string): string
  {
    Strs.BeforeFirst(filename, '.') + ".json.gz"
  }

  /** Staging a file does not change the name of its OCR result. */
  lemma StagedResultName(filename: string)
    ensures OcrResultName(StagedName(filename)) == OcrResultName(filename)
    ensures Strs.EndsWith(filename, ".tif") ==> Strs.EndsWith(StagedName(filename), ".png")
  {
    var stem := Strs.BeforeFirst(filename, '.');
    Strs.BeforeFirstIsPrefix(filename, '.');
    if Strs.EndsWith(filename, ".tif") {
      assert stem + ".png" == stem + ['.'] + "png";
      Strs.BeforeFirstOf(stem, '.', "png");
    }
  }

  /**
   * The OCR result name is its own result name, and two images share a result
   * name exactly when their names agree up to the first `.`.
   */
  lemma OcrResultNameProperties(x: string, y: string)
    ensures OcrResultName(OcrResultName(x)) == OcrResultName(x)
    ensures OcrResultName(x) == OcrResultName(y) <==> Strs.BeforeFirst(x, '.') == Strs.BeforeFirst(y, '.')
  {
    var stem := Strs.BeforeFirst(x, '.');
    Strs.BeforeFirstIsPrefix(x, '.');
    assert OcrResultName(x) == stem + ['.'] + "json.gz";
    Strs.BeforeFirstOf(stem, '.', "json.gz");
    if OcrResultName(x) == OcrResultName(y) {
      var stemY := Strs.BeforeFirst(y, '.');
      assert |stem| == |stemY|;
      assert stem == OcrResultName(x)[..|stem|];
    }
  }

  /** Index of the last `.` in `name`, or -1. */
  function LastDot(name: string): (i: int)
    ensures -1 <= i < |name|
    ensures i >= 0 ==> name[i] == '.' && forall j :: i < j < |name| ==> name[j] != '.'
    ensures i == -1 ==> '.' !in name
  {
    if |name| == 0 then -1
    else if name[|name| - 1] == '.' then |name| - 1
    else LastDot(name[..|name| - 1])
  }

  /** pathlib `PurePath.stem` of a bare file name: the name without its last suffix. */
  function PathStem(name: string): string
  {
    var i := LastDot(name);
    if 0 < i < |name| - 1 then name[..i] else name
  }

  /** pathlib `PurePath.suffix` of a bare file name. */
  function PathSuffix(name: string): string
  {
    var i := LastDot(name);
    if 0 < i < |name| - 1 then name[i..] else ""
  }

  /** A name is its stem followed by its suffix. */
  lemma StemSuffix(name: string)
    ensures PathStem(name) + PathSuffix(name) == name
    ensures PathSuffix(name) != "" ==> PathSuffix(name)[0] == '.' && '.' !in PathSuffix(name)[1..]
  {
    var i := LastDot(name);
    if 0 < i < |name| - 1 {
      assert name[..i] + name[i..] == name;
      var tail := name[i..][1..];
      assert forall k :: 0 <= k < |tail| ==> tail[k] == name[i + 1 + k];
    }
  }
}
