/** `generate_images` of scripts/xamarin.py, without its I/O: resolve both
    colours, classify the fill for the label colour, compute the complement,
    recolour the copied SVG tree and lay out the raster conversions.
 */
module Pipeline {
  import opened Errors
  import opened Hex
  import opened Text
  import opened Colors
  import opened Recolor
  import opened Naming
  import opened Export

  /** Everything a run decides before the external tools take over. */
  datatype RunPlan = RunPlan(
    fillHex: string,       // the resolved fill colour
    strokeHex: string,     // the resolved stroke colour
    labelColor: string,    // the text colour used to echo the fill: "black" or "white"
    complementary: string, // the complement of the fill, echoed alongside it
    fillScript: string,    // the sed program of the fill substitution
    strokeScript: string,  // the sed program of the stroke substitution
    ios: seq<Raster>,      // the iOS conversions, in order
    android: seq<Raster>)  // the Android conversions, in order

  /** The inputs the model covers: the table holds six-digit hex colours,
      and a `#` fill carries at least five ASCII hex digits whenever the
      stroke resolves (otherwise the run stops at the stroke before the fill
      is read). This excludes the `#` fills Python rejects with a ValueError
      and the ones it reads in int()'s lenient spellings, such as `# 12345`. */
  predicate Readable(table: ColorTable, fill: string, stroke: string) {
    HexTable(table) && (StartsWithHash(fill) && ParseColor(table, stroke).Ok? ==> Decodable(fill))
  }

  /** The colour text `generate_images` echoes the fill in. */
  function LabelColor(bright: bool): string {
    if bright then "black" else "white"
  }

  /** generate_images: stop with the error of the first colour that does not
      resolve (fill before stroke), otherwise the plan of the run. `listing`
      is the output of `find` over the copied tree, one path per line. */
  function GenerateImages(table: ColorTable, fill: string, stroke: string, listing: seq<string>): (r: Result<RunPlan>)
    requires Readable(table, fill, stroke)
    ensures r.Err? <==> ParseColor(table, fill).Err? || ParseColor(table, stroke).Err?
    ensures ParseColor(table, fill).Err? ==> r == Err(InvalidColor(fill, table.Keys))
    ensures ParseColor(table, fill).Ok? && ParseColor(table, stroke).Err? ==> r == Err(InvalidColor(stroke, table.Keys))
    ensures r.Ok? ==>
              && r.value.fillHex == ParseColor(table, fill).value
              && r.value.strokeHex == ParseColor(table, stroke).value
              && (r.value.labelColor == "black" <==> TooBrightHex(r.value.fillHex))
              && (r.value.labelColor == "black" || r.value.labelColor == "white")
              && |r.value.complementary| >= 7 && r.value.complementary[0] == '#' && AllUpperHex(r.value.complementary[1..])
              && r.value.fillScript == SedScript("fill", r.value.fillHex)
              && r.value.strokeScript == SedScript("stroke", r.value.strokeHex)
              && r.value.ios == IosPlan(FoundFiles(listing))
              && r.value.android == AndroidPlan(FoundFiles(listing))
    ensures r.Ok? && IsHexColor(r.value.fillHex) ==>
              && IsHexColor(r.value.complementary)
              && forall j :: 0 <= j < 3 ==> Byte(r.value.complementary, j) == 255 - Byte(r.value.fillHex, j)
  {
    var fillHex :- ParseColor(table, fill);
    var strokeHex :- ParseColor(table, stroke);
    var bright := ColorTooBright(table, fill).value;  // resolves, as the fill did
    var complementary := ComplementaryColor(fillHex);
    ComplementOfSixDigits(fillHex);
    var files := FoundFiles(listing);
    Ok(RunPlan(fillHex, strokeHex, LabelColor(bright), complementary,
               SedScript("fill", fillHex), SedScript("stroke", strokeHex),
               IosPlan(files), AndroidPlan(files)))
  }

  /** `find -name "*.svg"`: the file name ends in `.svg`. */
  predicate IsSvgName(name: string) {
    |name| >= |SvgExtension| && name[|name| - |SvgExtension|..] == SvgExtension
  }

  /** The copied tree after both sed runs: every file whose name matches
      `*.svg` is recoloured, every other file is left alone. */
  function RecolorTree(tree: map<string, string>, fillHex: string, strokeHex: string): (out: map<string, string>)
    ensures out.Keys == tree.Keys
    ensures forall path :: path in tree && !IsSvgName(FileName(path)) ==> out[path] == tree[path]
    ensures forall path :: path in tree && !Occurs(tree[path], FillBlack) && !Occurs(tree[path], StrokeBlack) ==>
              out[path] == tree[path]
    ensures ColorText(fillHex) && ColorText(strokeHex) ==>
              forall path :: path in tree && IsSvgName(FileName(path)) ==>
                !Occurs(out[path], FillBlack) && !Occurs(out[path], StrokeBlack)
  {
    map path | path in tree ::
      if IsSvgName(FileName(path)) then RecolorSvg(tree[path], fillHex, strokeHex) else tree[path]
  }

  // ---------------------------------------------------------------- lemmas

  /** The per-channel reading of the complement, for any readable fill. */
  lemma ComplementOfSixDigits(h: string)
    requires |h| >= 2 && AllHex(h[1..])
    ensures IsHexColor(h) ==>
              && IsHexColor(ComplementaryColor(h))
              && forall j :: 0 <= j < 3 ==> Byte(ComplementaryColor(h), j) == 255 - Byte(h, j)
  {
    if IsHexColor(h) {
      ComplementPerChannel(h);
    }
  }

  /** Colours resolved from the table, and `#` inputs spelled in hex, are
      plain colour text. */
  lemma ResolvedColorText(table: ColorTable, color: string)
    requires HexTable(table) && ParseColor(table, color).Ok?
    requires StartsWithHash(color) ==> ColorText(color)
    ensures ColorText(ParseColor(table, color).value)
  {
    if !StartsWithHash(color) {
      var h := table[color];
      forall i | 0 <= i < |h| ensures IsHexDigit(h[i]) || h[i] == '#' {
        if i > 0 {
          assert h[i] == h[1..][i - 1];
        }
      }
    }
  }

  /** After a run with resolvable hex colours no SVG in the tree keeps a
      `fill="black"` or a `stroke="black"`, and every other file is untouched. */
  lemma RunLeavesNoBlack(table: ColorTable, fill: string, stroke: string, listing: seq<string>,
                         tree: map<string, string>)
    requires Readable(table, fill, stroke) && ParseColor(table, fill).Ok? && ParseColor(table, stroke).Ok?
    requires StartsWithHash(fill) ==> ColorText(fill)
    requires StartsWithHash(stroke) ==> ColorText(stroke)
    ensures var plan := GenerateImages(table, fill, stroke, listing).value;
            var out := RecolorTree(tree, plan.fillHex, plan.strokeHex);
            && out.Keys == tree.Keys
            && (forall path :: path in out && IsSvgName(FileName(path)) ==>
                  !Occurs(out[path], FillBlack) && !Occurs(out[path], StrokeBlack))
            && (forall path :: path in out && !IsSvgName(FileName(path)) ==> out[path] == tree[path])
  {
    var plan := GenerateImages(table, fill, stroke, listing).value;
    ResolvedColorText(table, fill);
    ResolvedColorText(table, stroke);
  }

  /** A `#` fill too short for `color_too_bright` does not matter when the
      stroke does not resolve: the run stops with the stroke's error first. */
  lemma StrokeErrorBeforeShortFill(table: ColorTable, stroke: string, listing: seq<string>)
    requires HexTable(table) && !StartsWithHash(stroke) && stroke !in table
    ensures Readable(table, "#1", stroke)
    ensures GenerateImages(table, "#1", stroke, listing) == Err(InvalidColor(stroke, table.Keys))
  {
    assert StartsWithHash("#1");
  }

  /** A fill at least as strong in every channel as one labelled in black is
      labelled in black too. */
  lemma LabelMonotone(table: ColorTable, fill: string, fill': string, stroke: string, listing: seq<string>)
    requires HexTable(table) && ParseColor(table, stroke).Ok?
    requires IsHexColor(fill) && IsHexColor(fill')
    requires forall j :: 0 <= j < 3 ==> Byte(fill, j) <= Byte(fill', j)
    ensures Readable(table, fill, stroke) && Readable(table, fill', stroke)
    ensures GenerateImages(table, fill, stroke, listing).Ok? && GenerateImages(table, fill', stroke, listing).Ok?
    ensures GenerateImages(table, fill, stroke, listing).value.labelColor == "black" ==>
            GenerateImages(table, fill', stroke, listing).value.labelColor == "black"
  {
    BrightnessMonotone(fill, fill');
  }
}
