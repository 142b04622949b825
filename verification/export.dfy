/** The raster exporters of scripts/xamarin.py (`create_ios_images`,
    `create_android_images`): which inkscape conversions each found SVG gets.
 */
module Export {
  import opened Text
  import opened Naming

  /** One `inkscape -w width -h height source -o directory/file` call; the
      directory is relative to the workspace root. */
  datatype Raster = Raster(source: string, width: nat, height: nat, directory: string, file: string)

  /** The file-name suffix of an iOS scale factor (1x, 2x, 3x). */
  function ScaleSuffix(scale: nat): (sfx: string)
    ensures |sfx| <= 3
  {
    if scale == 1 then "" else if scale == 2 then "@2x" else "@3x"
  }

  /** The three iOS conversions of one SVG: 24, 48 and 72 pixels square. */
  function IosTargets(path: string): (rs: seq<Raster>)
    ensures |rs| == 3
    ensures forall k :: 0 <= k < 3 ==>
              && rs[k].source == path && rs[k].directory == "ios"
              && rs[k].width == rs[k].height == 24 * (k + 1)
              && rs[k].file == IosName(path) + ScaleSuffix(k + 1) + ".png"
  {
    var b := IosName(path);
    [ Raster(path, 24, 24, "ios", b + ".png"),
      Raster(path, 48, 48, "ios", b + "@2x.png"),
      Raster(path, 72, 72, "ios", b + "@3x.png") ]
  }

  /** An Android density bucket: its directory under `android/` and the pixel
      size written there. */
  datatype Bucket = Bucket(folder: string, size: nat)

  /** The buckets in the order they are written (the `hdpi` bucket gets a
      smaller image than `drawable`). */
  const AndroidBuckets: seq<Bucket> :=
    [Bucket("drawable", 60), Bucket("drawable-hdpi", 48), Bucket("drawable-xhdpi", 64),
     Bucket("drawable-xxhdpi", 96), Bucket("drawable-xxxhdpi", 128)]

  /** The conversion of one SVG into one bucket. */
  function AndroidRaster(path: string, bucket: Bucket): Raster {
    Raster(path, bucket.size, bucket.size, "android/" + bucket.folder, AndroidName(path) + ".png")
  }

  /** The five Android conversions of one SVG, one per bucket, all named
      `<base>.png`. */
  function AndroidTargets(path: string): (rs: seq<Raster>)
    ensures |rs| == |AndroidBuckets| == 5
    ensures forall k :: 0 <= k < 5 ==>
              && rs[k].source == path
              && rs[k].directory == "android/" + AndroidBuckets[k].folder
              && rs[k].width == rs[k].height == AndroidBuckets[k].size
              && rs[k].file == AndroidName(path) + ".png"
  {
    var bs := AndroidBuckets;
    [ AndroidRaster(path, bs[0]), AndroidRaster(path, bs[1]), AndroidRaster(path, bs[2]),
      AndroidRaster(path, bs[3]), AndroidRaster(path, bs[4]) ]
  }

  /** `[found.strip() for found in found_files if found]`: drop empty lines,
      strip the others. */
  function FoundFiles(lines: seq<string>): (files: seq<string>)
    ensures |files| <= |lines|
    ensures forall f :: f in files ==> exists l :: l in lines && l != "" && f == Strip(l)
    ensures forall l :: l in lines && l != "" ==> Strip(l) in files
  {
    KeptMembers(lines);
    Kept(lines)
  }

  /** The comprehension itself, line by line. */
  function Kept(lines: seq<string>): seq<string> {
    if |lines| == 0 then []
    else (if lines[0] == "" then [] else [Strip(lines[0])]) + Kept(lines[1..])
  }

  /** The conversions of every found file laid end to end, in the order found. */
  function Plan(files: seq<string>, targets: string -> seq<Raster>): (plan: seq<Raster>)
  {
    if |files| == 0 then [] else targets(files[0]) + Plan(files[1..], targets)
  }

  /** All iOS conversions. */
  function IosPlan(files: seq<string>): (plan: seq<Raster>)
    ensures |plan| == 3 * |files|
  {
    PlanLength(files, IosTargets, 3);
    Plan(files, IosTargets)
  }

  /** All Android conversions. */
  function AndroidPlan(files: seq<string>): (plan: seq<Raster>)
    ensures |plan| == 5 * |files|
  {
    PlanLength(files, AndroidTargets, 5);
    Plan(files, AndroidTargets)
  }

  /** Where a conversion writes, relative to the workspace root. */
  function Output(r: Raster): string {
    r.directory + "/" + r.file
  }

  // ---------------------------------------------------------------- lemmas

  /** What the comprehension keeps: at most one entry per line, each entry
      a stripped non-empty line, every non-empty line stripped. */
  lemma {:induction false} KeptMembers(lines: seq<string>)
    ensures |Kept(lines)| <= |lines|
    ensures forall f :: f in Kept(lines) ==> exists l :: l in lines && l != "" && f == Strip(l)
    ensures forall l :: l in lines && l != "" ==> Strip(l) in Kept(lines)
    decreases |lines|
  {
    if |lines| > 0 {
      var first, others := lines[0], lines[1..];
      var head := if first == "" then [] else [Strip(first)];
      var rest := Kept(others);
      assert Kept(lines) == head + rest;
      KeptMembers(others);
      assert lines == [first] + others;
      forall f | f in head + rest ensures exists l :: l in lines && l != "" && f == Strip(l) {
        if f in head {
          assert first in lines;
        } else {
          var l :| l in others && l != "" && f == Strip(l);
          assert l in lines;
        }
      }
      forall l | l in lines && l != "" ensures Strip(l) in head + rest {
        if l != first {
          assert l in others;
        }
      }
    }
  }

  /** The found files of a listing split anywhere are the found files of
      the two parts, in order: the comprehension keeps order and repeats. */
  lemma FoundFilesAppend(a: seq<string>, b: seq<string>)
    ensures FoundFiles(a + b) == FoundFiles(a) + FoundFiles(b)
  {
    KeptAppend(a, b);
  }

  lemma {:induction false} KeptAppend(a: seq<string>, b: seq<string>)
    ensures Kept(a + b) == Kept(a) + Kept(b)
    decreases |a|
  {
    if |a| == 0 {
      assert a + b == b;
    } else {
      assert (a + b)[0] == a[0] && (a + b)[1..] == a[1..] + b;
      KeptAppend(a[1..], b);
    }
  }

  /** One line contributes its stripped text, or nothing when it is empty. */
  lemma FoundFilesOfLine(l: string)
    ensures FoundFiles([l]) == if l == "" then [] else [Strip(l)]
  {
    assert [l][1..] == [];
    assert Kept([l]) == (if l == "" then [] else [Strip(l)]) + Kept([]);
  }

  /** One icon's iOS conversions write three different files. */
  lemma IosOutputsDistinct(path: string)
    ensures forall k, k' :: 0 <= k < k' < 3 ==> IosTargets(path)[k].file != IosTargets(path)[k'].file
  {
    var b := IosName(path);
    var f0, f1, f2 := b + ".png", b + "@2x.png", b + "@3x.png";
    assert |f0| != |f1| && |f0| != |f2|;
    assert f1[|b|] == '@' && f2[|b|] == '@';
    assert f1[|b| + 1] == '2' && f2[|b| + 1] == '3';
  }

  /** One icon's Android conversions write the same name into five different buckets. */
  lemma AndroidOutputsDistinct(path: string)
    ensures forall k, k' :: 0 <= k < k' < 5 ==> AndroidTargets(path)[k].directory != AndroidTargets(path)[k'].directory
  {
    forall k, k' | 0 <= k < k' < 5
      ensures "android/" + AndroidBuckets[k].folder != "android/" + AndroidBuckets[k'].folder
    {
      var a, b := "android/" + AndroidBuckets[k].folder, "android/" + AndroidBuckets[k'].folder;
      assert a[8..] == AndroidBuckets[k].folder && b[8..] == AndroidBuckets[k'].folder;
    }
  }

  /** With n conversions per file the plan holds n per file. */
  lemma {:induction false} PlanLength(files: seq<string>, targets: string -> seq<Raster>, n: nat)
    requires forall f :: |targets(f)| == n
    ensures |Plan(files, targets)| == n * |files|
  {
    if |files| > 0 {
      PlanLength(files[1..], targets, n);
      assert n * |files| == n + n * (|files| - 1);
    }
  }

  /** Conversion k of the i-th file sits at position n i + k of the plan. */
  lemma {:induction false} PlanIndex(files: seq<string>, targets: string -> seq<Raster>, n: nat, i: nat, k: nat)
    requires forall f :: |targets(f)| == n
    requires i < |files| && k < n
    ensures n * i + k < |Plan(files, targets)| && Plan(files, targets)[n * i + k] == targets(files[i])[k]
    decreases i
  {
    PlanLength(files, targets, n);
    var head, rest := targets(files[0]), Plan(files[1..], targets);
    assert Plan(files, targets) == head + rest;
    if i > 0 {
      var m := n * (i - 1) + k;
      PlanIndex(files[1..], targets, n, i - 1, k);
      assert files[1..][i - 1] == files[i];
      assert n * i + k == |head| + m;
      assert (head + rest)[|head| + m] == rest[m];
    } else {
      assert (head + rest)[k] == head[k];
    }
  }

  /** Conversion k of the i-th found file sits at position 3i + k of the iOS plan. */
  lemma IosPlanIndex(files: seq<string>, i: nat, k: nat)
    requires i < |files| && k < 3
    ensures 3 * i + k < |IosPlan(files)| && IosPlan(files)[3 * i + k] == IosTargets(files[i])[k]
  {
    PlanIndex(files, IosTargets, 3, i, k);
  }

  /** Conversion k of the i-th found file sits at position 5i + k of the Android plan. */
  lemma AndroidPlanIndex(files: seq<string>, i: nat, k: nat)
    requires i < |files| && k < 5
    ensures 5 * i + k < |AndroidPlan(files)| && AndroidPlan(files)[5 * i + k] == AndroidTargets(files[i])[k]
  {
    PlanIndex(files, AndroidTargets, 5, i, k);
  }

  /** The plan is exactly the per-file conversions laid end to end. */
  lemma PlanCoversEveryFile(files: seq<string>, targets: string -> seq<Raster>, n: nat)
    requires forall f :: |targets(f)| == n
    ensures forall i :: 0 <= i < |files| ==>
              n * i + n <= |Plan(files, targets)| && Plan(files, targets)[n * i..n * i + n] == targets(files[i])
  {
    PlanLength(files, targets, n);
    forall i | 0 <= i < |files|
      ensures n * i + n <= |Plan(files, targets)| && Plan(files, targets)[n * i..n * i + n] == targets(files[i])
    {
      assert n * i + n == n * (i + 1) <= n * |files|;
      var slice := Plan(files, targets)[n * i..n * i + n];
      forall k | 0 <= k < n ensures slice[k] == targets(files[i])[k] {
        PlanIndex(files, targets, n, i, k);
      }
    }
  }

  lemma IosPlanCoversEveryFile(files: seq<string>)
    ensures forall i :: 0 <= i < |files| ==> IosPlan(files)[3 * i..3 * i + 3] == IosTargets(files[i])
  {
    PlanCoversEveryFile(files, IosTargets, 3);
  }

  lemma AndroidPlanCoversEveryFile(files: seq<string>)
    ensures forall i :: 0 <= i < |files| ==> AndroidPlan(files)[5 * i..5 * i + 5] == AndroidTargets(files[i])
  {
    PlanCoversEveryFile(files, AndroidTargets, 5);
  }

  /** Every found line that is not empty is exported on both platforms. */
  lemma EveryFoundFileIsExported(lines: seq<string>, l: string)
    requires l in lines && l != ""
    ensures exists i :: 0 <= i < |FoundFiles(lines)| && FoundFiles(lines)[i] == Strip(l)
              && IosPlan(FoundFiles(lines))[3 * i..3 * i + 3] == IosTargets(Strip(l))
              && AndroidPlan(FoundFiles(lines))[5 * i..5 * i + 5] == AndroidTargets(Strip(l))
  {
    var files := FoundFiles(lines);
    IosPlanCoversEveryFile(files);
    AndroidPlanCoversEveryFile(files);
    var i :| 0 <= i < |files| && files[i] == Strip(l);
  }

  /** A filled icon and a plain icon with the same file name are written to
      the same five Android files, so the one exported last wins. */
  lemma FilledAndPlainCollideOnAndroid(filled: string, plain: string)
    requires FileName(filled) == FileName(plain)
    requires Occurs(filled, FilledDirectory) && !Occurs(plain, FilledDirectory)
    ensures forall k :: 0 <= k < 5 ==> Output(AndroidTargets(filled)[k]) == Output(AndroidTargets(plain)[k])
  {
    FilledAndPlainNames(filled, plain);
  }

  /** On iOS a filled icon and a plain icon with the same file name never share an output. */
  lemma FilledAndPlainApartOnIos(filled: string, plain: string)
    requires FileName(filled) == FileName(plain)
    requires Occurs(filled, FilledDirectory) && !Occurs(plain, FilledDirectory)
    ensures forall k, k' :: 0 <= k < 3 && 0 <= k' < 3 ==> IosTargets(filled)[k].file != IosTargets(plain)[k'].file
  {
    FilledAndPlainNames(filled, plain);
    var b := IosName(plain);
    forall k, k' | 0 <= k < 3 && 0 <= k' < 3
      ensures IosTargets(filled)[k].file != IosTargets(plain)[k'].file
    {
      assert |IosTargets(filled)[k].file| >= |b| + 11;
      assert |IosTargets(plain)[k'].file| <= |b| + 7;
    }
  }
}
