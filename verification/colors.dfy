/** The colour resolver of scripts/xamarin.py: `parse_color`,
    `get_complementary_color` and `color_too_bright`.
 */
module Colors {
  import opened Errors
  import opened Hex
  import opened Bits

  /** The named-colour table (matplotlib's `colors.cnames`): name to hex string.
      Its contents are not part of this model. */
  type ColorTable = map<string, string>

  predicate StartsWithHash(s: string) {
    |s| > 0 && s[0] == '#'
  }

  /** `#` followed by exactly six hex digits. */
  predicate IsHexColor(s: string) {
    |s| == 7 && s[0] == '#' && AllHex(s[1..])
  }

  /** Every entry of the table is a six-digit hex colour, as matplotlib's are. */
  predicate HexTable(table: ColorTable) {
    forall name :: name in table ==> IsHexColor(table[name])
  }

  /** parse_color: a `#` string passes through unchecked; otherwise the name
      must be a key of the table. */
  function ParseColor(table: ColorTable, color: string): (r: Result<string>)
    ensures r.Ok? <==> StartsWithHash(color) || color in table
    ensures StartsWithHash(color) ==> r == Ok(color)
    ensures !StartsWithHash(color) && color in table ==> r == Ok(table[color])
    ensures r.Err? ==> r.error == InvalidColor(color, table.Keys)
  {
    if StartsWithHash(color) then Ok(color)
    else if color !in table then Err(InvalidColor(color, table.Keys))
    else Ok(table[color])
  }

  /** get_complementary_color: drop the first character, read the rest as hex,
      xor with 0xFFFFFF and print the result as `#` and `%06X`. */
  function ComplementaryColor(color: string): (r: string)
    requires |color| >= 2 && AllHex(color[1..])
    ensures |r| >= 7 && r[0] == '#' && AllUpperHex(r[1..]) && AllHex(r[1..])
    ensures |color| == 7 ==> |r| == 7 && Value(r[1..]) == 0xFF_FFFF - Value(color[1..])
    ensures Value(color[1..]) < 0x100_0000 ==> |r| == 7 && Value(r[1..]) == 0xFF_FFFF - Value(color[1..])
    ensures |r| > 7 ==> r[1] != '0'
  {
    var v := Value(color[1..]);
    var d := Format06X(Xor(v, 0xFF_FFFF));
    var r := "#" + d;
    assert r[1..] == d;
    SixDigitsAreColorRange(color[1..]);
    ComplementInRange(v);
    r
  }

  /** Bytes [2j, 2j+2) of the digits of a six-digit hex colour. */
  function Byte(h: string, j: nat): (b: nat)
    requires IsHexColor(h) && j < 3
  {
    Value(h[1 + 2 * j..3 + 2 * j])
  }

  /** Luma scaled by 1000 with the usual weights for red, green and blue. */
  function Luma(red: nat, green: nat, blue: nat): nat {
    red * 299 + green * 587 + blue * 114
  }

  /** A resolved colour spelled in ASCII hex: after the first character at
      least five hex digits, so `[:2]`, `[2:4]` and `[4:]` are all non-empty.
      Python also reads lenient spellings such as `# 12345`; those are not
      modelled. */
  predicate Decodable(h: string) {
    |h| >= 6 && AllHex(h[1..])
  }

  /** The brightness test of color_too_bright on a resolved colour. The digits
      `[:2]` go to `c_r`, `[2:4]` to `c_b` and `[4:]` to `c_g`; the float test
      `(299 c_r + 587 c_g + 114 c_b) / 1000 > 155` is the integer test below. */
  function TooBrightHex(h: string): (r: bool)
    requires Decodable(h)
    ensures r ==> |h| >= 7  // five digits leave one digit of green: never too bright
  {
    var digits := h[1..];
    FiveDigitsAreDark(h);
    Luma(Value(digits[..2]), Value(digits[4..]), Value(digits[2..4])) > 155000
  }

  /** A five-digit colour reads a single digit of green. */
  lemma FiveDigitsAreDark(h: string)
    requires Decodable(h)
    ensures var digits := h[1..];
            |h| == 6 ==> Luma(Value(digits[..2]), Value(digits[4..]), Value(digits[2..4])) <= 114120
  {
    if |h| == 6 {
      var digits := h[1..];
      ValueBound(digits[..2]);
      ValueBound(digits[2..4]);
      ValueBound(digits[4..]);
      assert Pow16(2) == 256;
      DarkWithOneGreenDigit(Value(digits[..2]), Value(digits[4..]), Value(digits[2..4]));
    }
  }

  /** With one digit of green the brightness stays at most 114120. */
  lemma DarkWithOneGreenDigit(red: nat, green: nat, blue: nat)
    requires red < 256 && green < 16 && blue < 256
    ensures Luma(red, green, blue) <= 114120
  {
    assert red * 299 <= 255 * 299;
    assert green * 587 <= 15 * 587;
    assert blue * 114 <= 255 * 114;
  }

  /** color_too_bright: resolve the colour, then classify it. */
  function ColorTooBright(table: ColorTable, color: string): (r: Result<bool>)
    requires ParseColor(table, color).Ok? ==> Decodable(ParseColor(table, color).value)
    ensures r.Err? <==> !StartsWithHash(color) && color !in table
    ensures r.Err? ==> r.error == InvalidColor(color, table.Keys)
    ensures r.Ok? ==> (r.value <==> TooBrightHex(ParseColor(table, color).value))
  {
    var hex :- ParseColor(table, color);
    Ok(TooBrightHex(hex))
  }

  // ---------------------------------------------------------------- lemmas

  /** Six hex digits denote a value in the 24-bit colour range. */
  lemma SixDigitsAreColorRange(s: string)
    requires AllHex(s)
    ensures |s| == 6 ==> Value(s) < 0x100_0000
  {
    if |s| == 6 {
      ValueBound(s);
      assert Pow16(6) == 0x100_0000;
    }
  }

  /** In the 24-bit range, xor with 0xFFFFFF is subtraction from it. */
  lemma ComplementInRange(v: nat)
    ensures v < 0x100_0000 ==> Xor(v, 0xFF_FFFF) == 0xFF_FFFF - v
  {
    if v < 0x100_0000 {
      Pow2Of24();
      XorMaskIsSubtraction(v, 24);
    }
  }

  /** Six hex digits: xor with the 24-bit mask is subtraction from 0xFFFFFF. */
  lemma SixDigitsFlip(s: string)
    requires |s| == 6 && AllHex(s)
    ensures Value(s) <= 0xFF_FFFF && Xor(Value(s), 0xFF_FFFF) == 0xFF_FFFF - Value(s)
  {
    ValueBound(s);
    assert Pow16(6) == 0x100_0000;
    Pow2Of24();
    XorMaskIsSubtraction(Value(s), 24);
  }

  /** The digits of a six-digit colour, split into its three bytes. */
  lemma ColorBytes(h: string)
    requires IsHexColor(h)
    ensures Value(h[1..]) == Byte(h, 0) * 65536 + Byte(h, 1) * 256 + Byte(h, 2)
    ensures Byte(h, 0) < 256 && Byte(h, 1) < 256 && Byte(h, 2) < 256
  {
    var d := h[1..];
    assert d[..2] == h[1..3] && d[2..4] == h[3..5] && d[4..] == h[5..7];
    SixDigitBytes(d);
  }

  /** Each byte of the complement is 255 minus the byte of the input. */
  lemma ComplementPerChannel(color: string)
    requires IsHexColor(color)
    ensures IsHexColor(ComplementaryColor(color))
    ensures forall j :: 0 <= j < 3 ==> Byte(ComplementaryColor(color), j) == 255 - Byte(color, j)
  {
    var c := ComplementaryColor(color);
    BytesOfComplement(color, c);
    forall j | 0 <= j < 3 ensures Byte(c, j) == 255 - Byte(color, j) {
      if j == 0 {
      } else if j == 1 {
      } else {
        assert j == 2;
      }
    }
  }

  /** Two six-digit colours whose values add up to 0xFFFFFF add up byte by byte. */
  lemma BytesOfComplement(color: string, c: string)
    requires IsHexColor(color) && IsHexColor(c)
    requires Value(c[1..]) == 0xFF_FFFF - Value(color[1..])
    ensures Byte(c, 0) == 255 - Byte(color, 0)
    ensures Byte(c, 1) == 255 - Byte(color, 1)
    ensures Byte(c, 2) == 255 - Byte(color, 2)
  {
    ColorBytes(color);
    ColorBytes(c);
    BytesOfDifference(Byte(c, 0), Byte(c, 1), Byte(c, 2), Byte(color, 0), Byte(color, 1), Byte(color, 2));
  }

  /** Subtracting from 0xFFFFFF subtracts every base-256 digit from 255. */
  lemma BytesOfDifference(x0: int, x1: int, x2: int, b0: int, b1: int, b2: int)
    requires 0 <= x0 < 256 && 0 <= x1 < 256 && 0 <= x2 < 256
    requires 0 <= b0 < 256 && 0 <= b1 < 256 && 0 <= b2 < 256
    requires x0 * 65536 + x1 * 256 + x2 == 0xFF_FFFF - (b0 * 65536 + b1 * 256 + b2)
    ensures x0 == 255 - b0 && x1 == 255 - b1 && x2 == 255 - b2
  {
    BaseDigitsUnique(x0, x1, x2, 255 - b0, 255 - b1, 255 - b2);
  }

  /** Base-256 digits are unique. */
  lemma BaseDigitsUnique(a: int, b: int, c: int, d: int, e: int, f: int)
    requires 0 <= a < 256 && 0 <= b < 256 && 0 <= c < 256
    requires 0 <= d < 256 && 0 <= e < 256 && 0 <= f < 256
    requires a * 65536 + b * 256 + c == d * 65536 + e * 256 + f
    ensures a == d && b == e && c == f
  {
    var low, low' := b * 256 + c, e * 256 + f;
    assert a == (a * 65536 + low) / 65536 && low == (a * 65536 + low) % 65536;
    assert d == (d * 65536 + low') / 65536 && low' == (d * 65536 + low') % 65536;
    assert b == low / 256 && c == low % 256;
    assert e == low' / 256 && f == low' % 256;
  }

  /** Complementing twice gives back the digits, upper-cased: an involution
      on upper-case colours, and a case normalisation on the others. */
  lemma {:induction false} ComplementTwice(color: string)
    requires IsHexColor(color)
    ensures ComplementaryColor(ComplementaryColor(color)) == "#" + UpperAll(color[1..])
    ensures AllUpperHex(color[1..]) ==> ComplementaryColor(ComplementaryColor(color)) == color
  {
    var c := ComplementaryColor(color);
    var cc := ComplementaryColor(c);
    var v := Value(color[1..]);
    SixDigitsFlip(c[1..]);
    SixDigitRoundTrip(color[1..]);
    assert Xor(Value(c[1..]), 0xFF_FFFF) == v;
    assert cc == "#" + Format06X(v);
    if AllUpperHex(color[1..]) {
      assert UpperAll(color[1..]) == color[1..];
      assert color == "#" + color[1..];
    }
  }

  /** `#` followed by six copies of one digit. */
  function Uniform(c: char): (h: string)
    requires IsHexDigit(c)
    ensures IsHexColor(h)
  {
    ['#', c, c, c, c, c, c]
  }

  /** Every byte of a uniform colour is the digit repeated. */
  lemma UniformBytes(c: char)
    requires IsHexDigit(c)
    ensures forall j :: 0 <= j < 3 ==> Byte(Uniform(c), j) == DigitValue(c) * 17
    ensures Value(Uniform(c)[1..]) == DigitValue(c) * 0x11_1111
  {
    var h := Uniform(c);
    assert h[1..3] == [c, c] && h[3..5] == [c, c] && h[5..7] == [c, c];
    TwoDigits([c, c]);
    ColorBytes(h);
  }

  /** The complement of a uniform colour is uniform, digit by digit 15 minus it. */
  lemma ComplementOfUniform(c: char)
    requires IsHexDigit(c)
    ensures ComplementaryColor(Uniform(c)) == Uniform(UpperDigit(15 - DigitValue(c)))
  {
    var d := UpperDigit(15 - DigitValue(c));
    var x, y := ComplementaryColor(Uniform(c)), Uniform(d);
    UniformBytes(c);
    UniformBytes(d);
    assert AllUpperHex(y[1..]);
    UpperHexInjective(x[1..], y[1..]);
    assert x == "#" + x[1..] && y == "#" + y[1..];
  }

  /** Black and white are each other's complement. */
  lemma ComplementOfBlackAndWhite()
    ensures ComplementaryColor("#000000") == "#FFFFFF"
    ensures ComplementaryColor("#FFFFFF") == "#000000"
  {
    BlackAndWhiteAreUniform();
    ComplementOfUniform('0');
    ComplementOfUniform('F');
  }

  lemma BlackAndWhiteAreUniform()
    ensures "#000000" == Uniform('0') && "#FFFFFF" == Uniform('F')
    ensures DigitValue('0') == 0 && DigitValue('F') == 15
    ensures UpperDigit(15) == 'F' && UpperDigit(0) == '0'
  {
  }

  /** As written, color_too_bright weighs the third byte as green and the
      second as blue. */
  lemma BrightnessReadsThirdByteAsGreen(h: string)
    requires IsHexColor(h)
    ensures Decodable(h)
    ensures TooBrightHex(h) <==> Luma(Byte(h, 0), Byte(h, 2), Byte(h, 1)) > 155000
  {
    var d := h[1..];
    assert d[..2] == h[1..3] && d[2..4] == h[3..5] && d[4..] == h[5..7];
  }

  /** A bright green on which the byte order matters: with green read from
      the second byte it is bright, as written it is not. */
  lemma BrightnessSwapChangesVerdict()
    ensures IsHexColor("#40FF00")
    ensures !TooBrightHex("#40FF00")
    ensures Luma(Byte("#40FF00", 0), Byte("#40FF00", 1), Byte("#40FF00", 2)) > 155000
  {
    var h := "#40FF00";
    BrightnessReadsThirdByteAsGreen(h);
    assert h[1..3] == "40" && h[3..5] == "FF" && h[5..7] == "00";
    TwoDigits("40");
    TwoDigits("FF");
    TwoDigits("00");
  }

  /** White is too bright. */
  lemma WhiteIsTooBright()
    ensures TooBrightHex("#FFFFFF")
  {
    BlackAndWhiteAreUniform();
    UniformBytes('F');
    BrightnessReadsThirdByteAsGreen(Uniform('F'));
  }

  /** Black is not too bright. */
  lemma BlackIsNotTooBright()
    ensures !TooBrightHex("#000000")
  {
    BlackAndWhiteAreUniform();
    UniformBytes('0');
    BrightnessReadsThirdByteAsGreen(Uniform('0'));
  }

  /** Raising any byte never turns a bright colour into a dark one. */
  lemma BrightnessMonotone(h: string, h': string)
    requires IsHexColor(h) && IsHexColor(h')
    requires forall j :: 0 <= j < 3 ==> Byte(h, j) <= Byte(h', j)
    ensures TooBrightHex(h) ==> TooBrightHex(h')
  {
    BrightnessReadsThirdByteAsGreen(h);
    BrightnessReadsThirdByteAsGreen(h');
    assert Byte(h, 0) <= Byte(h', 0) && Byte(h, 1) <= Byte(h', 1) && Byte(h, 2) <= Byte(h', 2);
  }

  /** With a table of hex colours, every colour that resolves from a name is a
      six-digit hex colour. */
  lemma ResolvedNamesAreHexColors(table: ColorTable, color: string)
    requires HexTable(table)
    requires !StartsWithHash(color) && color in table
    ensures IsHexColor(ParseColor(table, color).value)
  {
  }

  /** Resolving is idempotent whenever the table's entries are `#` strings. */
  lemma ParseColorIdempotent(table: ColorTable, color: string)
    requires forall name :: name in table ==> StartsWithHash(table[name])
    requires ParseColor(table, color).Ok?
    ensures ParseColor(table, ParseColor(table, color).value) == ParseColor(table, color)
  {
  }
}
