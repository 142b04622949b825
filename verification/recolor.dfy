/** The SVG recolourer of scripts/xamarin.py (`replace_color_on_svgs`): two
    `sed -i` runs over every `*.svg`, the first turning `fill="black"` into
    `fill="<fill>"`, the second `stroke="black"` into `stroke="<stroke>"`.
 */
module Recolor {
  import opened Text
  import opened Hex

  const FillBlack: string := "fill=\"black\""
  const StrokeBlack: string := "stroke=\"black\""

  /** The attribute text `name="value"`. */
  function Attribute(name: string, value: string): string {
    name + "=\"" + value + "\""
  }

  /** An `s` command as sed reads it: the text between its `/` delimiters. */
  datatype Substitution = Substitution(pattern: string, replacement: string, flags: string)

  datatype Option<+T> = None | Some(value: T)

  /** The program text `s/pattern/replacement/flags`. */
  function CommandText(c: Substitution): string {
    ['s', '/'] + c.pattern + ['/'] + c.replacement + ['/'] + c.flags
  }

  /** The sed program handed to `sed -i` for one attribute. */
  function SedScript(name: string, hex: string): string {
    CommandText(Substitution(Attribute(name, "black"), Attribute(name, hex), "g"))
  }

  /** The text before and after the first `/` of s; None when s holds none. */
  function SplitSlash(s: string): (r: Option<(string, string)>)
    ensures r.None? <==> NoSlash(s)
    ensures r.Some? ==> s == r.value.0 + ['/'] + r.value.1 && NoSlash(r.value.0)
  {
    var i := IndexOf(s, '/');
    if i == |s| then None
    else
      assert s == s[..i] + [s[i]] + s[i + 1..];
      Some((s[..i], s[i + 1..]))
  }

  /** How sed splits `s/pattern/replacement/flags` at its `/` delimiters
      (backslash escapes aside); None when the program is not of that shape,
      which sed rejects. */
  function ParseScript(script: string): (r: Option<Substitution>)
    ensures r.Some? ==> CommandText(r.value) == script
    ensures r.Some? ==> NoSlash(r.value.pattern) && NoSlash(r.value.replacement) && NoSlash(r.value.flags)
  {
    if |script| < 2 || script[0] != 's' || script[1] != '/' then None
    else
      match SplitSlash(script[2..])
      case None => None
      case Some((pattern, rest)) =>
        match SplitSlash(rest)
        case None => None
        case Some((replacement, flags)) =>
          if !NoSlash(flags) then None
          else
            CommandTextOfParts(script, pattern, rest, replacement, flags);
            Some(Substitution(pattern, replacement, flags))
  }

  predicate NoSlash(s: string) {
    forall k :: 0 <= k < |s| ==> s[k] != '/'
  }

  /** A colour value spelled with hex digits and `#` only. */
  predicate ColorText(h: string) {
    forall i :: 0 <= i < |h| ==> IsHexDigit(h[i]) || h[i] == '#'
  }

  /** The text of one SVG file after both substitutions, with the colour
      values taken literally. A file without either black attribute is left
      as it was; with resolver-style colour values no `fill="black"` and no
      `stroke="black"` remains. */
  function RecolorSvg(svg: string, fillHex: string, strokeHex: string): (o: string)
    ensures !Occurs(svg, FillBlack) && !Occurs(svg, StrokeBlack) ==> o == svg
    ensures ColorText(fillHex) && ColorText(strokeHex) ==> !Occurs(o, FillBlack) && !Occurs(o, StrokeBlack)
  {
    PassesKeepCleanText(svg, fillHex, strokeHex);
    PassesLeaveNoBlack(svg, fillHex, strokeHex);
    ReplaceAll(ReplaceAll(svg, FillBlack, Attribute("fill", fillHex)), StrokeBlack, Attribute("stroke", strokeHex))
  }

  // ---------------------------------------------------------------- lemmas

  /** What the two black patterns look like: `<name>="black"`. */
  lemma BlackPatternShape(q: string)
    requires q == FillBlack || q == StrokeBlack
    ensures |q| >= 6 && q[|q| - 1] == '"' && q[|q| - 2] == 'k' && q[|q| - 5] == 'l'
    ensures forall j :: 1 <= j < |q| ==> q[j] != 'f' && q[j] != 's'
    ensures forall j :: 0 <= j < |q| - 1 && q[j] == '"' ==> 1 <= j && q[j - 1] == '='
    ensures StrokeBlack[..6] == "stroke" && FillBlack[..4] == "fill"
  {
  }

  /** What a written attribute looks like. */
  lemma AttributeShape(name: string, h: string)
    requires name == "fill" || name == "stroke"
    requires ColorText(h)
    ensures var r := Attribute(name, h);
      && |r| >= 2 && (r[0] == 'f' || r[0] == 's')
      && r[|r| - 1] == '"' && r[|r| - 2] != '='
      && (name == "fill" ==> forall i :: 0 <= i < |r| ==> r[i] != 'k' && r[i] != 's')
      && (name == "stroke" ==> forall i :: 0 <= i < |r| ==> r[i] != 'l')
  {
    var r := Attribute(name, h);
    assert r == name + "=\"" + h + "\"";
    var prefix := name + "=\"";
    assert r == prefix + h + "\"";
    forall i | 0 <= i < |r|
      ensures name == "fill" ==> r[i] != 'k' && r[i] != 's'
      ensures name == "stroke" ==> r[i] != 'l'
    {
      if i < |prefix| {
        assert r[i] == prefix[i];
      } else if i < |prefix| + |h| {
        assert r[i] == h[i - |prefix|];
      }
    }
    if |h| > 0 {
      assert r[|r| - 2] == h[|h| - 1];
    } else {
      assert r[|r| - 2] == '"';
    }
  }

  /** Writing `fill="<hex>"` or `stroke="<hex>"` can never produce either black
      pattern, neither on its own nor together with the text around it. */
  lemma AttributeCannotFormBlack(q: string, name: string, h: string)
    requires q == FillBlack || q == StrokeBlack
    requires name == "fill" || name == "stroke"
    requires ColorText(h)
    ensures NoStraddle(q, Attribute(name, h))
  {
    var r := Attribute(name, h);
    BlackPatternShape(q);
    AttributeShape(name, h);
    if name == "fill" {
      MissingCharacter(r, q, |q| - 2);
    } else {
      MissingCharacter(r, q, |q| - 5);
    }
    forall t | 0 <= t < |r| ensures !(r[t..] < q) {
      var u := r[t..];
      var n := |u|;
      assert u[n - 1] == '"';
      if n < |q| {
        var last := q[n - 1];
        if n >= 2 {
          assert u[n - 2] == r[|r| - 2];
          var before := q[n - 2];
        }
      }
    }
    forall m | 1 <= m < |q| ensures !(q[m..] <= r) && !(r <= q[m..]) {
      assert q[m..][0] == q[m];
    }
  }

  /** The two substitutions with resolver-style colour values leave neither
      black pattern behind. */
  lemma PassesLeaveNoBlack(svg: string, fillHex: string, strokeHex: string)
    ensures var o := ReplaceAll(ReplaceAll(svg, FillBlack, Attribute("fill", fillHex)),
                                StrokeBlack, Attribute("stroke", strokeHex));
            ColorText(fillHex) && ColorText(strokeHex) ==> !Occurs(o, FillBlack) && !Occurs(o, StrokeBlack)
  {
    if ColorText(fillHex) && ColorText(strokeHex) {
      PassesWithColorText(svg, fillHex, strokeHex);
    }
  }

  /** Text without either black pattern passes through both substitutions. */
  lemma PassesKeepCleanText(svg: string, fillHex: string, strokeHex: string)
    ensures !Occurs(svg, FillBlack) && !Occurs(svg, StrokeBlack) ==>
              ReplaceAll(ReplaceAll(svg, FillBlack, Attribute("fill", fillHex)),
                         StrokeBlack, Attribute("stroke", strokeHex)) == svg
  {
    if !Occurs(svg, FillBlack) && !Occurs(svg, StrokeBlack) {
      ReplaceAllWithoutMatch(svg, FillBlack, Attribute("fill", fillHex));
      ReplaceAllWithoutMatch(svg, StrokeBlack, Attribute("stroke", strokeHex));
    }
  }

  lemma PassesWithColorText(svg: string, fillHex: string, strokeHex: string)
    requires ColorText(fillHex) && ColorText(strokeHex)
    ensures var o := ReplaceAll(ReplaceAll(svg, FillBlack, Attribute("fill", fillHex)),
                                StrokeBlack, Attribute("stroke", strokeHex));
            !Occurs(o, FillBlack) && !Occurs(o, StrokeBlack)
  {
    var fillTo, strokeTo := Attribute("fill", fillHex), Attribute("stroke", strokeHex);
    var filled := ReplaceAll(svg, FillBlack, fillTo);
    AttributeCannotFormBlack(FillBlack, "fill", fillHex);
    AttributeCannotFormBlack(FillBlack, "stroke", strokeHex);
    AttributeCannotFormBlack(StrokeBlack, "stroke", strokeHex);
    OnlyWhereOfSelf(svg, FillBlack);
    ReplaceAllLeavesNoMatch(svg, FillBlack, fillTo, FillBlack);
    OnlyWhereOfAbsent(filled, FillBlack, StrokeBlack);
    ReplaceAllLeavesNoMatch(filled, StrokeBlack, strokeTo, FillBlack);
    OnlyWhereOfSelf(filled, StrokeBlack);
    ReplaceAllLeavesNoMatch(filled, StrokeBlack, strokeTo, StrokeBlack);
  }

  /** Reassembling the parts the parser found gives back the program. */
  lemma CommandTextOfParts(script: string, pattern: string, rest: string, replacement: string, flags: string)
    requires |script| >= 2 && script[0] == 's' && script[1] == '/'
    requires script[2..] == pattern + ['/'] + rest && rest == replacement + ['/'] + flags
    ensures CommandText(Substitution(pattern, replacement, flags)) == script
  {
    assert script == ['s', '/'] + script[2..];
    CommandTextShape(pattern, replacement, flags);
  }

  lemma CommandTextShape(p: string, r: string, f: string)
    ensures CommandText(Substitution(p, r, f)) == ['s', '/'] + (p + ['/'] + (r + ['/'] + f))
  {
  }

  /** Text without `/`, a `/`, then anything: split at that `/`. */
  lemma SplitSlashAfter(a: string, b: string)
    requires NoSlash(a)
    ensures SplitSlash(a + ['/'] + b) == Some((a, b))
  {
    var w := a + ['/'] + b;
    IndexOfAfter(a, '/', b);
    assert w[..|a|] == a && w[|a| + 1..] == b;
  }

  /** A program whose three parts hold no `/` is split back into those parts. */
  lemma ParseCommandText(c: Substitution)
    requires NoSlash(c.pattern) && NoSlash(c.replacement) && NoSlash(c.flags)
    ensures ParseScript(CommandText(c)) == Some(c)
  {
    var p, r, f := c.pattern, c.replacement, c.flags;
    var w := CommandText(c);
    var tail := r + ['/'] + f;
    assert w == ['s', '/'] + (p + ['/'] + tail);
    assert w[2..] == p + ['/'] + tail;
    SplitSlashAfter(p, tail);
    SplitSlashAfter(r, f);
  }

  /** With an attribute name and colour value free of `/`, sed reads the
      program back as the black attribute, the coloured one and the flag `g`. */
  lemma SedScriptRoundTrip(name: string, hex: string)
    requires NoSlash(name) && NoSlash(hex)
    ensures ParseScript(SedScript(name, hex))
         == Some(Substitution(Attribute(name, "black"), Attribute(name, hex), "g"))
  {
    AttributeNoSlash(name, "black");
    AttributeNoSlash(name, hex);
    assert "g"[0] == 'g';
    ParseCommandText(Substitution(Attribute(name, "black"), Attribute(name, hex), "g"));
  }

  lemma AttributeNoSlash(name: string, value: string)
    requires NoSlash(name) && NoSlash(value)
    ensures NoSlash(Attribute(name, value))
  {
    var q := "=\"";
    var r := Attribute(name, value);
    assert |q| == 2 && q[0] == '=' && q[1] == '"';
    assert r == name + q + value + "\"";
    forall k | 0 <= k < |r| ensures r[k] != '/' {
      if k < |name| {
        assert r[k] == name[k];
      } else if k < |name| + 2 {
        assert r[k] == q[k - |name|];
      } else if k < |name| + 2 + |value| {
        assert r[k] == value[k - |name| - 2];
      }
    }
  }

  /** A colour value holding `/` does not reach sed as the replacement it was
      meant to be: the program then splits at that `/`. */
  lemma SlashInColorSplitsScript(name: string, hex: string)
    requires !NoSlash(hex)
    ensures ParseScript(SedScript(name, hex)).Some? ==>
              ParseScript(SedScript(name, hex)).value.replacement != Attribute(name, hex)
  {
    var k :| 0 <= k < |hex| && hex[k] == '/';
    var b := Attribute(name, hex);
    assert b == name + "=\"" + hex + "\"";
    assert b[|name| + 2 + k] == '/';
  }

  /** `fill="black" stroke="black"` becomes `fill="<fill>" stroke="<stroke>"`. */
  lemma RecolorBothAttributes(fillHex: string, strokeHex: string)
    requires ColorText(fillHex)
    ensures RecolorSvg(FillBlack + " " + StrokeBlack, fillHex, strokeHex)
         == Attribute("fill", fillHex) + " " + Attribute("stroke", strokeHex)
  {
    FillStep(Attribute("fill", fillHex));
    AttributeShape("fill", fillHex);
    StrokeStep(Attribute("fill", fillHex), Attribute("stroke", strokeHex));
  }

  lemma FillStep(fillTo: string)
    ensures ReplaceAll(FillBlack + " " + StrokeBlack, FillBlack, fillTo) == fillTo + " " + StrokeBlack
  {
    NoFillInStroke();
    ReplaceFront(FillBlack, fillTo, " ", StrokeBlack);
  }

  lemma NoFillInStroke()
    ensures !Occurs(" " + StrokeBlack, FillBlack)
  {
    var tail := " " + StrokeBlack;
    assert forall i :: 0 <= i < |tail| ==> tail[i] != FillBlack[0];
    MissingCharacter(tail, FillBlack, 0);
  }

  lemma StrokeStep(fillTo: string, strokeTo: string)
    requires forall i :: 0 <= i < |fillTo| ==> fillTo[i] != 's'
    ensures ReplaceAll(fillTo + " " + StrokeBlack, StrokeBlack, strokeTo) == fillTo + " " + strokeTo
  {
    var head := fillTo + " ";
    assert forall i :: 0 <= i < |head| ==> head[i] != StrokeBlack[0];
    MissingCharacter(head, StrokeBlack, 0);
    forall j | 0 <= j < |head| ensures !(StrokeBlack <= (head + StrokeBlack)[j..]) {
      assert (head + StrokeBlack)[j..][0] == head[j];
    }
    ReplaceAllConcat(head, StrokeBlack, StrokeBlack, strokeTo);
    assert StrokeBlack == StrokeBlack + [];
    ReplaceAllLeadingMatch(StrokeBlack, strokeTo, []);
  }
}
