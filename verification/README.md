# Xamarin icon generator: a Dafny model

`scripts/xamarin.py` turns the repository's SVG icons into PNG sets for a
Xamarin Forms app. The script works in five steps:

1. It resolves a fill colour and a stroke colour. Each is either a `#` hex
   string or a matplotlib colour name.
2. It decides whether the fill is "too bright". If so, it echoes the fill in
   black text, otherwise in white, and prints the fill's complementary colour.
3. It copies the `svg/` tree and runs two global `sed` substitutions over every
   `*.svg` file. The first turns `fill="black"` into `fill="<fill>"`, the
   second turns `stroke="black"` into `stroke="<stroke>"`.
4. It asks `inkscape` for three iOS rasters (1x, 2x, 3x) of every found SVG.
5. It asks `inkscape` for five Android rasters of every found SVG, one per
   density bucket.

This project models the pure decisions in those steps. The external tools, the
filesystem and the terminal are left out.

The modules:

- `Errors` holds `GenerationError` and a `Result` type that carries it.
- `Bits` models Python's `^` on naturals.
- `Hex` models `int(s, 16)` and the `"%06X"` format.
- `Colors` models `parse_color`, `get_complementary_color` and
  `color_too_bright`.
- `Text` holds substring search, the left-to-right literal replacement shared
  by `str.replace` and `sed s/…/…/g`, and `str.strip`.
- `Recolor` models the two `sed` programs, how `sed` splits such a program at
  its `/` delimiters, and the programs' effect on one SVG file.
- `Naming` models `os.path.basename` and the base name `no_ext_filename`,
  including the iOS-only `filled_` prefix.
- `Export` models the iOS and Android conversion lists and the order in which
  they are issued.
- `Pipeline` models `generate_images`. It produces a plan of the run, and a
  separate function gives the recoloured file tree.

Some behaviours are kept exactly as the code is written:

- `color_too_bright` reads digits `[2:4]` into its blue variable and digits
  `[4:]` into its green variable. The brightness weights therefore apply to
  (byte 0, byte 2, byte 1), not to RGB order. `#40FF00` is an input whose
  verdict depends on this.
- The Android `drawable-hdpi` bucket gets 48 pixels, fewer than the 60 of
  `drawable`.
- `.replace(".svg", "")` makes one left-to-right pass, so it can leave a
  `.svg` behind: `a.s.svgvg` becomes `a.svg`.
- A filled icon and a plain icon with the same file name write the same
  Android files.
- Because `[4:]` of a five-digit colour is a single digit, such a fill is
  never too bright: its weighted sum stays at or below 114120.

The Python test `brightness / 1000 > 155` is stated exactly in integers:
the weighted sum is greater than 155000. Python's int/int division is
correctly rounded, and the sum is an integer, so both tests agree.

## Model

| member | source | states |
|---|---|---|
| Colors.ParseColor | scripts/xamarin.py:23-33 | A `#` string comes back unchanged. A name in the table resolves to its entry. Any other input is a `GenerationError` that names the input and the table's names. The result is a success exactly when one of the first two cases applies. |
| Colors.ParseColorIdempotent | scripts/xamarin.py:23-33 | When every table entry starts with `#`, resolving a resolved colour again gives the same result. |
| Colors.ResolvedNamesAreHexColors | scripts/xamarin.py:27-33 | With a table of six-digit hex colours, a colour resolved from a name is `#` plus six hex digits. |
| Colors.ComplementaryColor | scripts/xamarin.py:36-51 | The result is `#` followed by at least six upper-case hex digits, with no leading zero beyond six. When the input's digits denote a value below 2^24 (always so for a seven-character input), the result has exactly six digits and its value is 0xFFFFFF minus the input's value. |
| Colors.ComplementPerChannel | scripts/xamarin.py:43-45 | For `#` plus six hex digits, each byte of the complement is 255 minus the matching input byte. |
| Colors.ComplementTwice | scripts/xamarin.py:41-48 | Complementing twice gives the input's digits upper-cased, so the complement is an involution on upper-case colours. |
| Colors.ComplementOfUniform | scripts/xamarin.py:41-48 | The complement of `#` plus six copies of one digit d is `#` plus six copies of the digit 15 − d. |
| Colors.ComplementOfBlackAndWhite | scripts/xamarin.py:43-48 | `#000000` and `#FFFFFF` are each other's complement. |
| Bits.XorMaskIsSubtraction | scripts/xamarin.py:43-45 | For v below 2^k, xor with the k-bit all-ones mask equals the mask minus v. |
| Bits.XorInvolutive | scripts/xamarin.py:45 | Xor with the same value twice gives back the input. |
| Bits.XorBit | scripts/xamarin.py:45 | Bit i of `a ^ b` is set exactly when bits i of a and b differ, for every i. |
| Bits.XorBound | scripts/xamarin.py:45 | Xor of two values below 2^k is below 2^k. |
| Hex.Format06X | scripts/xamarin.py:48 | `%06X` prints at least six upper-case digits that read back as the number: exactly six for values below 2^24, and beyond six no leading zero. |
| Hex.ValueBound | scripts/xamarin.py:41 | A string of k hex digits denotes a value below 16^k. |
| Hex.ValueConcat | scripts/xamarin.py:41 | The value of a concatenation is the left part's value shifted by the right part's length, plus the right part's value: `int(s, 16)` reads big-endian. |
| Hex.SixDigitRoundTrip | scripts/xamarin.py:41-48 | Printing a parsed six-digit string with `%06X` gives back the string, upper-cased. |
| Hex.SixDigitBytes | scripts/xamarin.py:191-193 | The value of six hex digits is byte0·65536 + byte1·256 + byte2, each byte being two digits below 256. |
| Colors.ColorTooBright | scripts/xamarin.py:187-197 | Fails exactly when the colour does not resolve, with the same error as `parse_color`. Otherwise it is true exactly when the brightness test holds on the resolved digits. |
| Colors.TooBrightHex | scripts/xamarin.py:189-197 | A colour with only five digits after the `#` is never too bright: its single green digit caps the weighted sum at 114120. |
| Colors.BrightnessReadsThirdByteAsGreen | scripts/xamarin.py:191-197 | On a six-digit colour the verdict is 299·byte0 + 587·byte2 + 114·byte1 > 155000. |
| Colors.BrightnessSwapChangesVerdict | scripts/xamarin.py:191-195 | `#40FF00` is not too bright as written, but would be with green read from byte 1. |
| Colors.WhiteIsTooBright | scripts/xamarin.py:195-197 | `#FFFFFF` is too bright. |
| Colors.BlackIsNotTooBright | scripts/xamarin.py:195-197 | `#000000` is not too bright. |
| Colors.BrightnessMonotone | scripts/xamarin.py:195-197 | Raising any byte never turns a too-bright verdict into a dark one. |
| Text.ReplaceAll | scripts/xamarin.py:125 | A replacement no longer than the pattern never lengthens the text, and one of the same length keeps the length. |
| Text.ReplaceAllWithoutMatch | scripts/xamarin.py:125 | Text in which the pattern does not occur is left unchanged by the replacement. |
| Text.ReplaceAllConcat | scripts/xamarin.py:125 | When no match lies in the left part or crosses the seam, the replacement of a concatenation keeps the left part and replaces in the right part. |
| Text.ReplaceAllLeavesNoMatch | scripts/xamarin.py:82-104 | Suppose q only starts where the pattern starts, and the replacement cannot form q with its neighbours. Then no q is left after the replacement. In particular no match survives. |
| Text.ReplaceAllKeepsOut | scripts/xamarin.py:125 | A character that is in neither the input nor the replacement is not in the output. |
| Text.ReplaceCharPointwise | scripts/xamarin.py:125 | Replacing one character by another keeps the length and rewrites exactly the positions that hold that character. |
| Text.Strip | scripts/xamarin.py:116 | The result is a factor of the input. Everything dropped before and after it is whitespace, and the result neither starts nor ends with whitespace. |
| Text.StripIdempotent | scripts/xamarin.py:116 | Stripping an already stripped path changes nothing. |
| Naming.FileNameIsLastComponent | scripts/xamarin.py:124 | The file name is a suffix of the path with no `/`, preceded by a `/` when it is not the whole path. |
| Naming.FileNameAfterSlash | scripts/xamarin.py:124 | The file name of `dir/name` is name when name has no `/`. |
| Naming.FileName | scripts/xamarin.py:124 | The file name holds no `/`. |
| Naming.IconName | scripts/xamarin.py:124-125 | The base name is never longer than the file name and holds no `-` and no `/`. |
| Naming.IosName | scripts/xamarin.py:124-128 | The iOS name holds no `-` and no `/`, so it is a single path component. |
| Naming.AndroidName | scripts/xamarin.py:171-172 | The Android name is never longer than the file name and holds no `-` and no `/`. |
| Naming.IconNameOfStem | scripts/xamarin.py:124-125 | The base name of `dir/stem.svg` is stem with every `-` turned into `_`, when stem has no `/` and no `.svg`. |
| Naming.StripCanLeaveExtension | scripts/xamarin.py:125 | The base name of `a.s.svgvg` is `a.svg`, which still contains `.svg`. |
| Naming.PlatformNamesOfStem | scripts/xamarin.py:124-128 | For `dir/stem.svg`, the Android name is the underscored stem. The iOS name adds `filled_` exactly when the path contains `svg/filled`. |
| Naming.FilledAndPlainNames | scripts/xamarin.py:124-128 | Take a filled and a plain path with the same file name. They share the Android name. Their iOS names differ by the `filled_` prefix. |
| Recolor.SedScriptRoundTrip | scripts/xamarin.py:89-101 | With an attribute name and colour value free of `/`, sed splits the program back into the pattern `<name>="black"`, the replacement `<name>="<value>"` and the flag `g`. |
| Recolor.SlashInColorSplitsScript | scripts/xamarin.py:89-101 | When the colour value holds a `/`, sed does not read the program's replacement as the intended attribute. |
| Recolor.RecolorSvg | scripts/xamarin.py:82-104 | A file with neither black attribute comes out of both substitutions unchanged. With colour values made of hex digits and `#`, no `fill="black"` and no `stroke="black"` is left. |
| Recolor.AttributeCannotFormBlack | scripts/xamarin.py:89-101 | A written `fill="…"` or `stroke="…"` with a hex value cannot contain, start or complete `fill="black"` or `stroke="black"`. |
| Recolor.RecolorBothAttributes | scripts/xamarin.py:82-104 | `fill="black" stroke="black"` becomes `fill="<fill>" stroke="<stroke>"`. |
| Export.IosTargets | scripts/xamarin.py:130-136 | Every SVG gets three conversions into `ios`, square at 24·s pixels for scale s = 1, 2, 3, named base + "", "@2x" or "@3x" + ".png". |
| Export.IosPlan | scripts/xamarin.py:122-136 | The iOS plan holds three conversions per found file. |
| Export.IosOutputsDistinct | scripts/xamarin.py:130-132 | The three iOS files of one icon have different names. |
| Export.AndroidTargets | scripts/xamarin.py:174-184 | Every SVG gets five square conversions, all named base + ".png". The buckets are drawable/60, drawable-hdpi/48, drawable-xhdpi/64, drawable-xxhdpi/96 and drawable-xxxhdpi/128, in that order. |
| Export.AndroidPlan | scripts/xamarin.py:169-184 | The Android plan holds five conversions per found file. |
| Export.AndroidOutputsDistinct | scripts/xamarin.py:147-151 | The five Android conversions of one icon go to five different directories. |
| Export.FoundFiles | scripts/xamarin.py:115-116 | Every non-empty line of the listing appears stripped in the result. Every result entry is a stripped non-empty line. There are no more entries than lines. |
| Export.FoundFilesAppend | scripts/xamarin.py:116 | The found files of a concatenated listing are those of the first part followed by those of the second, so order and repeats are kept. |
| Export.FoundFilesOfLine | scripts/xamarin.py:116 | A single line gives its stripped text, or nothing when it is empty. With the previous row this determines the result completely. |
| Export.IosPlanIndex | scripts/xamarin.py:122-136 | Conversion k of the i-th found file is entry 3i + k of the iOS plan. |
| Export.AndroidPlanIndex | scripts/xamarin.py:169-184 | Conversion k of the i-th found file is entry 5i + k of the Android plan. |
| Export.IosPlanCoversEveryFile | scripts/xamarin.py:122-136 | The iOS plan is the per-file conversions laid end to end, in the order found. |
| Export.AndroidPlanCoversEveryFile | scripts/xamarin.py:169-184 | The Android plan is the per-file conversions laid end to end, in the order found. |
| Export.EveryFoundFileIsExported | scripts/xamarin.py:115-136 | Every non-empty listing line has its stripped path exported on both platforms, at a position of its own. |
| Export.FilledAndPlainCollideOnAndroid | scripts/xamarin.py:171-178 | A filled and a plain icon with the same file name are written to the same five Android paths. |
| Export.FilledAndPlainApartOnIos | scripts/xamarin.py:127-132 | A filled and a plain icon with the same file name never share an iOS file. |
| Pipeline.GenerateImages | scripts/xamarin.py:207-214 | The run fails exactly when the fill or the stroke does not resolve, and the fill's error is reported first. Otherwise the label is black exactly when the fill is too bright. The complement is upper-case hex, and for a six-digit fill it is 255 minus the fill in every byte. The sed programs use the resolved colours, and the raster plans cover the found files. |
| Pipeline.StrokeErrorBeforeShortFill | scripts/xamarin.py:210-213 | With the fill `#1` and a stroke that is neither `#` nor a table name, the run fails with the stroke's error before the fill's digits are read. |
| Pipeline.LabelMonotone | scripts/xamarin.py:213 | A fill at least as strong in every byte as one labelled in black is labelled in black too. |
| Pipeline.ResolvedColorText | scripts/xamarin.py:23-33 | A colour resolved from a table of hex colours, or a `#` input spelled in hex, consists of hex digits and `#` only. |
| Pipeline.RecolorTree | scripts/xamarin.py:79-104 | The tree keeps its paths. Files not named `*.svg`, and files with neither black attribute, are unchanged. With colour values made of hex digits and `#`, no `*.svg` keeps a black fill or stroke. |
| Pipeline.RunLeavesNoBlack | scripts/xamarin.py:226-228 | After a successful run with hex colours, no `*.svg` file in the tree keeps a black fill or stroke, and no other file changes. |

## Left out

- External processes are left out: `find`, `cp`, `rm`, `sed -i` and `inkscape`. Of their arguments the model states only the two `sed` programs, the `*.svg` name filter and the `inkscape` sizes, sources and output paths. The `cp -r svg xamarin` of `copy_svg_to_xamarin`, the `rm -rf xamarin` of `cleanup` and the directory `find` searches are not modelled. The tree `sed` edits is a map from path to text.
- The two `find` runs, one in `create_ios_images` and one in `create_android_images`, are modelled by the single `listing` parameter. Between them only `inkscape` writes, and it writes PNGs under `ios/` and `android/`, never under the searched `svg/` directory, so both runs list the same files.
- Directory handling is left out: `get_root_directory`, `get_xamarin_directory`, `copy_svg_to_xamarin`, `cleanup` and `os.makedirs`. They only touch the filesystem.
- The contents of matplotlib's `colors.cnames` are a foreign table. The table is a map parameter, assumed to hold `#` plus six hex digits.
- Terminal output is left out, including `echo`, `secho` with its `TypeError` fallback, `typer.progressbar`, `main` and `typer.run`. They only concern the user interface.
- Colors.ComplementaryColor: requires ASCII hex digits after the first character. Python's `int(…, 16)` also accepts underscores between digits, surrounding whitespace, a sign, a `0x` prefix and non-ASCII Unicode decimal digits (fullwidth `１２３４５６` or Arabic-Indic `٣`, read as their ASCII counterparts), and raises `ValueError` on anything else. The lenient inputs and the error are not modelled.
- Colors.ColorTooBright: requires at least five ASCII hex digits after the first character of the resolved colour. It excludes two kinds of colour. Python rejects some with `ValueError`: fewer than five characters after the first, or a character `int(…, 16)` cannot read. Python reads others without complaint, in the lenient spellings listed for Colors.ComplementaryColor: `# 12345` reads its slices ` 1`, `23` and `45` as 1, 0x23 and 0x45. Neither kind is modelled.
- Colors.TooBrightHex: compares integers exactly instead of dividing in floating point. The two agree except that Python raises `OverflowError` when the sum is too large for a float.
- Pipeline.GenerateImages: requires the table to hold six-digit hex colours, and, when the stroke resolves, a `#` fill with at least five ASCII hex digits after the `#`. When the stroke resolves, this excludes two kinds of `#` fill. Python rejects some with `ValueError`: too short, or holding a character `int(…, 16)` cannot read. Python reads others in its lenient spellings (whitespace, a sign, `_`, `0x`, Unicode digits) and the run completes: `# 12345` gets the complement `#FEDCBA`, and `#-12345` gets `#-FEDCBC`. Neither kind is modelled. A short fill with an unresolvable stroke stays inside the model and gives the stroke's error (Pipeline.StrokeErrorBeforeShortFill).
- Recolor.RecolorSvg: takes the colour value literally. In a sed replacement `&` stands for the matched text and `\` escapes the next character, and a `/` or a newline in the value breaks the program (Recolor.SlashInColorSplitsScript shows the split). `parse_color` lets such `#` values through unchecked; their effect is not modelled. Values made of hex digits and `#` are unaffected.
- Pipeline.RecolorTree: inherits Recolor.RecolorSvg's literal reading of the colour values.
- Naming.FileName: models POSIX `os.path.basename` only, with `/` as the single separator.
- Errors.GenerationError: carries the set of available names, not the message text that lists them in the table's order.
