/** Output naming in scripts/xamarin.py: the base name `no_ext_filename`
    derived from each found SVG path, with the iOS-only `filled_` prefix.
 */
module Naming {
  import opened Text

  const SvgExtension: string := ".svg"
  const FilledDirectory: string := "svg/filled"
  const FilledPrefix: string := "filled_"

  /** `os.path.basename`: everything after the last `/`. */
  function FileName(path: string): (name: string)
    ensures forall i :: 0 <= i < |name| ==> name[i] != '/'
    decreases |path|
  {
    if |path| == 0 || path[|path| - 1] == '/' then []
    else FileName(path[..|path| - 1]) + [path[|path| - 1]]
  }

  /** `no_ext_filename`: the file name with each `.svg` found in one
      left-to-right pass removed, then every `-` replaced by `_`. It is never
      longer than the file name and holds no `-` and no `/`. */
  function IconName(path: string): (n: string)
    ensures |n| <= |FileName(path)|
    ensures forall i :: 0 <= i < |n| ==> n[i] != '-' && n[i] != '/'
  {
    var stripped := ReplaceAll(FileName(path), SvgExtension, "");
    ReplaceAllKeepsOut(FileName(path), SvgExtension, "", '/');
    ReplaceCharPointwise(stripped, '-', '_');
    ReplaceAll(stripped, "-", "_")
  }

  /** The iOS base name: `filled_` in front when the path contains `svg/filled`.
      Like the base name it is one path component without `-`. */
  function IosName(path: string): (n: string)
    ensures forall i :: 0 <= i < |n| ==> n[i] != '-' && n[i] != '/'
  {
    if Occurs(path, FilledDirectory) then
      PrefixHasNoHyphenOrSlash();
      FilledPrefix + IconName(path)
    else IconName(path)
  }

  lemma PrefixHasNoHyphenOrSlash()
    ensures forall i :: 0 <= i < |FilledPrefix| ==> FilledPrefix[i] != '-' && FilledPrefix[i] != '/'
  {
    var f := FilledPrefix;
    assert |f| == 7 && f[0] == 'f' && f[1] == 'i' && f[2] == 'l' && f[3] == 'l' && f[4] == 'e' && f[5] == 'd' && f[6] == '_';
  }

  /** The Android base name: never prefixed. */
  function AndroidName(path: string): (n: string)
    ensures |n| <= |FileName(path)|
    ensures forall i :: 0 <= i < |n| ==> n[i] != '-' && n[i] != '/'
  {
    IconName(path)
  }

  /** `-` turned into `_`, position by position. */
  function Underscored(s: string): (u: string)
    ensures |u| == |s|
  {
    seq(|s|, i requires 0 <= i < |s| => if s[i] == '-' then '_' else s[i])
  }

  // ---------------------------------------------------------------- lemmas

  /** f is the tail of path after its last `/` (all of path when there is none). */
  predicate IsLastComponent(path: string, f: string) {
    && |f| <= |path| && f == path[|path| - |f|..]
    && (|f| < |path| ==> path[|path| - |f| - 1] == '/')
  }

  /** The file name is the tail of the path after its last `/` (all of it when
      there is none). */
  lemma {:induction false} FileNameIsLastComponent(path: string)
    ensures IsLastComponent(path, FileName(path))
    decreases |path|
  {
    if |path| == 0 || path[|path| - 1] == '/' {
      assert path[|path|..] == [];
    } else {
      var init, last := path[..|path| - 1], path[|path| - 1];
      var name := FileName(init);
      assert FileName(path) == name + [last];
      FileNameIsLastComponent(init);
      LastComponentStep(path, init, last, name);
    }
  }

  /** Extending a path by a character other than `/` extends its last component by it. */
  lemma LastComponentStep(path: string, init: string, last: char, name: string)
    requires |path| > 0 && init == path[..|path| - 1] && last == path[|path| - 1]
    requires IsLastComponent(init, name)
    ensures IsLastComponent(path, name + [last])
  {
    var n := |name|;
    var tail := path[|path| - n - 1..];
    assert |tail| == n + 1;
    forall k | 0 <= k <= n ensures tail[k] == (name + [last])[k] {
      if k < n {
        assert tail[k] == path[|path| - n - 1 + k] == init[|init| - n + k] == name[k];
      }
    }
  }

  /** The name after the last `/` of `dir/name` is name. */
  lemma {:induction false} FileNameAfterSlash(dir: string, name: string)
    requires forall i :: 0 <= i < |name| ==> name[i] != '/'
    ensures FileName(dir + "/" + name) == name
    decreases |name|
  {
    var path := dir + "/" + name;
    if |name| > 0 {
      var init := name[..|name| - 1];
      assert path[..|path| - 1] == dir + "/" + init;
      FileNameAfterSlash(dir, init);
      assert name == init + [name[|name| - 1]];
    }
  }

  /** A name without `/` is its own file name. */
  lemma {:induction false} FileNameWithoutSlash(name: string)
    requires forall i :: 0 <= i < |name| ==> name[i] != '/'
    ensures FileName(name) == name
    decreases |name|
  {
    if |name| > 0 {
      var init := name[..|name| - 1];
      FileNameWithoutSlash(init);
      assert name == init + [name[|name| - 1]];
    }
  }

  /** Removing `.svg` from `stem.svg` gives stem when stem holds no `.svg`:
      no match can start inside stem and run into the extension. */
  lemma StripExtension(stem: string)
    requires !Occurs(stem, SvgExtension)
    ensures ReplaceAll(stem + SvgExtension, SvgExtension, "") == stem
  {
    var w := stem + SvgExtension;
    forall j | 0 <= j < |stem| ensures !(SvgExtension <= w[j..]) {
      var k := |stem| - j;
      OccursInTail(stem, SvgExtension, j);
      if k < 4 {
        assert w[j..][k] == '.';
        var c := SvgExtension[k];
      } else {
        assert w[j..][..4] == stem[j..][..4];
      }
    }
    ReplaceAllConcat(stem, SvgExtension, SvgExtension, "");
    assert SvgExtension == SvgExtension + [];
    ReplaceAllLeadingMatch(SvgExtension, "", []);
  }

  /** Turning `-` into `_` is the position-by-position rewrite. */
  lemma UnderscoreAll(s: string)
    ensures ReplaceAll(s, "-", "_") == Underscored(s)
  {
    ReplaceCharPointwise(s, '-', '_');
    assert "-" == ['-'] && "_" == ['_'];
  }

  /** An icon at `dir/stem.svg` gets the base name stem with `-` turned into `_`. */
  lemma IconNameOfStem(dir: string, stem: string)
    requires forall i :: 0 <= i < |stem| ==> stem[i] != '/'
    requires !Occurs(stem, SvgExtension)
    ensures IconName(dir + "/" + stem + SvgExtension) == Underscored(stem)
  {
    FileNameOfIcon(dir, stem);
    StripExtension(stem);
    UnderscoreAll(stem);
  }

  lemma FileNameOfIcon(dir: string, stem: string)
    requires forall i :: 0 <= i < |stem| ==> stem[i] != '/'
    ensures FileName(dir + "/" + stem + SvgExtension) == stem + SvgExtension
  {
    FileNameAfterSlash(dir, stem);
    ExtensionHasNoSlash();
    FileNameAppend(dir + "/" + stem, SvgExtension);
  }

  lemma ExtensionHasNoSlash()
    ensures forall i :: 0 <= i < |SvgExtension| ==> SvgExtension[i] != '/'
  {
    var e := SvgExtension;
    assert |e| == 4 && e[0] == '.' && e[1] == 's' && e[2] == 'v' && e[3] == 'g';
  }

  /** Appending text without `/` extends the file name by that text. */
  lemma {:induction false} FileNameAppend(x: string, tail: string)
    requires forall i :: 0 <= i < |tail| ==> tail[i] != '/'
    ensures FileName(x + tail) == FileName(x) + tail
    decreases |tail|
  {
    var w := x + tail;
    if |tail| == 0 {
      assert w == x;
    } else {
      var init := tail[..|tail| - 1];
      assert w[..|w| - 1] == x + init;
      FileNameAppend(x, init);
      assert tail == init + [tail[|tail| - 1]];
    }
  }

  /** A filled icon and a plain icon with the same file name share their
      Android name but get different iOS names. */
  lemma FilledAndPlainNames(filled: string, plain: string)
    requires FileName(filled) == FileName(plain)
    requires Occurs(filled, FilledDirectory) && !Occurs(plain, FilledDirectory)
    ensures AndroidName(filled) == AndroidName(plain)
    ensures IosName(filled) == FilledPrefix + IosName(plain)
    ensures IosName(filled) != IosName(plain)
  {
  }

  /** `.replace(".svg", "")` is a single left-to-right pass: removing one
      match can join the text around it into a new `.svg`. */
  lemma StripCanLeaveExtension()
    ensures IconName("a.s.svgvg") == "a.svg"
    ensures Occurs(IconName("a.s.svgvg"), SvgExtension)
  {
    FileNameWithoutSlash("a.s.svgvg");
    StripExample();
    NoHyphenInExample();
    ReplaceAllWithoutMatch("a.svg", "-", "_");
    assert "a.svg"[1..] == SvgExtension;
  }

  lemma NoHyphenInExample()
    ensures !Occurs("a.svg", "-")
  {
    MissingCharacter("a.svg", "-", 0);
  }

  lemma StripExample()
    ensures ReplaceAll("a.s.svgvg", SvgExtension, "") == "a.svg"
  {
    var head, tail := "a.s", SvgExtension + "vg";
    assert "a.s.svgvg" == head + tail;
    ExampleSeam();
    ReplaceAllConcat(head, tail, SvgExtension, "");
    ReplaceAllLeadingMatch(SvgExtension, "", "vg");
    ExampleTail();
    assert "a.svg" == head + "vg";
  }

  lemma ExampleSeam()
    ensures !Occurs("a.s", SvgExtension)
    ensures forall j :: 0 <= j < 3 ==> !(SvgExtension <= ("a.s" + (SvgExtension + "vg"))[j..])
  {
    MissingCharacter("a.s", SvgExtension, 2);
    var w := "a.s" + (SvgExtension + "vg");
    assert w[1] == '.' && w[2] == 's' && w[3] == '.';
    forall j | 0 <= j < 3 ensures !(SvgExtension <= w[j..]) {
      var c := w[j..][1];
    }
  }

  lemma ExampleTail()
    ensures ReplaceAll("vg", SvgExtension, "") == "vg"
  {
    MissingCharacter("vg", SvgExtension, 0);
    ReplaceAllWithoutMatch("vg", SvgExtension, "");
  }

  /** An icon at `dir/stem.svg` is `stem` with `-` turned into `_` on Android,
      and on iOS too unless the path contains `svg/filled`, which adds `filled_`. */
  lemma PlatformNamesOfStem(dir: string, stem: string)
    requires forall i :: 0 <= i < |stem| ==> stem[i] != '/'
    requires !Occurs(stem, SvgExtension)
    ensures var path := dir + "/" + stem + SvgExtension;
      && AndroidName(path) == Underscored(stem)
      && (Occurs(path, FilledDirectory) ==> IosName(path) == FilledPrefix + Underscored(stem))
      && (!Occurs(path, FilledDirectory) ==> IosName(path) == Underscored(stem))
  {
    IconNameOfStem(dir, stem);
  }
}
