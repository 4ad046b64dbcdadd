/** Cell styles and the SGR control that sets them (ECMA-48 section 8.3.117, in part). */
module Styles {
  import opened Common

  /** One of the sixteen themed colours, or an inline `#rrggbb`. */
  datatype Colour = Indexed(index: nat) | Hex(text: string)

  datatype Style = Style(bold: bool, dim: bool, italic: bool, underline: bool, fg: Option<Colour>, bg: Option<Colour>)

  const DEFAULT := Style(false, false, false, false, None, None)

  function HexDigit(d: nat): char
    requires d < 16
  {
    "0123456789abcdef"[d]
  }

  function HexDigits(n: nat): string {
    if n < 16 then [HexDigit(n)] else HexDigits(n / 16) + [HexDigit(n % 16)]
  }

  /** At least two lowercase hexadecimal digits. */
  function Hex2(n: nat): string {
    if n < 16 then "0" + HexDigits(n) else HexDigits(n)
  }

  function Rgb(r: nat, g: nat, b: nat): Colour {
    Hex("#" + Hex2(r) + Hex2(g) + Hex2(b))
  }

  function CubeStep(s: nat): nat {
    if s == 0 then 0 else 55 + 40 * s
  }

  /** The palette beyond the themed colours: first the cube of reds, greens and blues, after it the greys. */
  function Colour256(index: nat): Colour
    requires index >= 16
  {
    if index < 232 then
      var i := index - 16;
      Rgb(CubeStep(i / 36), CubeStep((i / 6) % 6), CubeStep(i % 6))
    else
      var grey := 8 + 10 * (index - 232);
      Rgb(grey, grey, grey)
  }

  function ColourOf(index: nat): Colour {
    if index < 16 then Indexed(index) else Colour256(index)
  }

  // ----- styles an HTML attribute can carry

  predicate HexText(s: string) {
    forall i :: 0 <= i < |s| ==> s[i] == '#' || '0' <= s[i] <= '9' || 'a' <= s[i] <= 'f'
  }

  predicate ColourOk(c: Option<Colour>) {
    match c
    case None => true
    case Some(Indexed(i)) => i < 16
    case Some(Hex(text)) => text != "" && HexText(text)
  }

  predicate StyleOk(s: Style) {
    ColourOk(s.fg) && ColourOk(s.bg)
  }

  lemma {:induction false} HexDigitsOk(n: nat)
    ensures HexText(HexDigits(n))
  {
    if n >= 16 {
      HexDigitsOk(n / 16);
    }
  }

  lemma Hex2Ok(n: nat)
    ensures HexText(Hex2(n))
  {
    HexDigitsOk(n);
  }

  lemma RgbOk(r: nat, g: nat, b: nat)
    ensures ColourOk(Some(Rgb(r, g, b)))
  {
    Hex2Ok(r);
    Hex2Ok(g);
    Hex2Ok(b);
  }

  lemma ColourOfOk(index: nat)
    ensures ColourOk(Some(ColourOf(index)))
  {
    if index >= 232 {
      RgbOk(8 + 10 * (index - 232), 8 + 10 * (index - 232), 8 + 10 * (index - 232));
    } else if index >= 16 {
      var i := index - 16;
      RgbOk(CubeStep(i / 36), CubeStep((i / 6) % 6), CubeStep(i % 6));
    }
  }

  // ----- colours are `#rrggbb`, and say which

  function HexDigitValue(c: char): int {
    if c <= '9' then c as int - '0' as int else c as int - 'a' as int + 10
  }

  /** The number hexadecimal digits denote. */
  function HexValue(s: string): int {
    if s == "" then 0 else 16 * HexValue(s[..|s| - 1]) + HexDigitValue(s[|s| - 1])
  }

  lemma {:induction false} HexDigitsValue(n: nat)
    ensures HexValue(HexDigits(n)) == n
  {
    if n < 16 {
      assert HexDigits(n)[..0] == "";
      HexDigitReads(n);
    } else {
      HexDigitsValue(n / 16);
      HexDigitReads(n % 16);
      assert HexDigits(n)[..|HexDigits(n)| - 1] == HexDigits(n / 16);
    }
  }

  lemma HexDigitReads(d: nat)
    requires d < 16
    ensures HexDigitValue(HexDigit(d)) == d
  {
  }

  lemma HexDigitsLength(n: nat)
    ensures |HexDigits(n)| >= 1
    ensures |HexDigits(n)| == 1 <==> n < 16
    ensures |HexDigits(n)| == 2 <==> 16 <= n < 256
  {
    if n >= 16 {
      HexDigitsLength(n / 16);
    }
  }

  lemma Hex2Reads(n: nat)
    ensures HexValue(Hex2(n)) == n && |Hex2(n)| >= 2 && (|Hex2(n)| == 2 <==> n < 256)
  {
    hide HexDigits;
    HexDigitsValue(n);
    HexDigitsLength(n);
    if n < 16 {
      var digits := HexDigits(n);
      var padded := "0" + digits;
      assert padded[..1] == "0" && padded[1] == digits[0] && "0"[..0] == "" && digits[..0] == "";
      assert HexValue("0") == 0;
      assert HexValue(digits) == HexDigitValue(digits[0]);
    }
  }

  /** A colour is six digits exactly when each component is a byte, and then they read back. */
  lemma RgbReads(r: nat, g: nat, b: nat)
    ensures var text := Rgb(r, g, b).text;
      && (|text| == 7 <==> r < 256 && g < 256 && b < 256)
      && (|text| == 7 ==> text[0] == '#' && HexValue(text[1..3]) == r)
      && (|text| == 7 ==> HexValue(text[3..5]) == g && HexValue(text[5..7]) == b)
  {
    hide Hex2, HexValue;
    Hex2Reads(r);
    Hex2Reads(g);
    Hex2Reads(b);
    var text := Rgb(r, g, b).text;
    if |text| == 7 {
      assert text[1..3] == Hex2(r) && text[3..5] == Hex2(g) && text[5..7] == Hex2(b);
    }
  }

  /** How bright each of the cube's six steps is. */
  const LEVELS: seq<nat> := [0, 95, 135, 175, 215, 255]

  /** The cube of six reds, greens and blues: red counts thirty-sixes, green sixes and blue ones. */
  lemma CubeColours(red: nat, green: nat, blue: nat)
    requires red < 6 && green < 6 && blue < 6
    ensures ColourOf(16 + 36 * red + 6 * green + blue) == Rgb(LEVELS[red], LEVELS[green], LEVELS[blue])
  {
    hide ColourOf, Rgb, CubeStep;
    StepIsLevel(red);
    StepIsLevel(green);
    StepIsLevel(blue);
    CubeSteps(red, green, blue);
  }

  lemma CubeSteps(red: nat, green: nat, blue: nat)
    requires red < 6 && green < 6 && blue < 6
    ensures ColourOf(16 + 36 * red + 6 * green + blue) == Rgb(CubeStep(red), CubeStep(green), CubeStep(blue))
  {
    hide Rgb, CubeStep;
    var i := 36 * red + 6 * green + blue;
    assert i / 36 == red && i / 6 == 6 * red + green && i % 6 == blue;
  }

  lemma StepIsLevel(s: nat)
    requires s < 6
    ensures CubeStep(s) == LEVELS[s]
  {
  }

  /** Every colour of the 256 past the themed ones is six digits. */
  lemma PaletteIsSixDigits(index: nat)
    requires 16 <= index < 256
    ensures |ColourOf(index).text| == 7
  {
    hide Rgb;
    if index < 232 {
      var i := index - 16;
      RgbReads(CubeStep(i / 36), CubeStep((i / 6) % 6), CubeStep(i % 6));
    } else {
      var grey := 8 + 10 * (index - 232);
      RgbReads(grey, grey, grey);
    }
  }

  // ----- what each parameter does

  /** A parameter that stands alone. */
  function SgrOne(style: Style, code: nat): Style {
    if code == 0 then DEFAULT
    else if code == 1 then style.(bold := true)
    else if code == 2 then style.(dim := true)
    else if code == 3 then style.(italic := true)
    else if code == 4 then style.(underline := true)
    else if code == 22 then style.(bold := false, dim := false)
    else if code == 23 then style.(italic := false)
    else if code == 24 then style.(underline := false)
    else if 30 <= code <= 37 then style.(fg := Some(Indexed(code - 30)))
    else if 90 <= code <= 97 then style.(fg := Some(Indexed(code - 90 + 8)))
    else if code == 39 then style.(fg := None)
    else if 40 <= code <= 47 then style.(bg := Some(Indexed(code - 40)))
    else if 100 <= code <= 107 then style.(bg := Some(Indexed(code - 100 + 8)))
    else if code == 49 then style.(bg := None)
    else style
  }

  function WithColour(style: Style, code: nat, colour: Colour): Style {
    if code == 38 then style.(fg := Some(colour)) else style.(bg := Some(colour))
  }

  /** How many parameters the first one uses, itself included. */
  function SgrLength(params: seq<nat>): (n: nat)
    requires params != []
    ensures 0 < n <= |params|
  {
    if params[0] != 38 && params[0] != 48 then 1
    else if |params| > 2 && params[1] == 5 then 3
    else if |params| > 4 && params[1] == 2 then 5
    else 1
  }

  function SgrStep(style: Style, params: seq<nat>): Style
    requires params != []
  {
    match SgrLength(params)
    case 3 => WithColour(style, params[0], ColourOf(params[2]))
    case 5 => WithColour(style, params[0], Rgb(params[2], params[3], params[4]))
    case _ => SgrOne(style, params[0])
  }

  /** `style` after one sequence's parameters. */
  function Sgr(style: Style, params: seq<nat>): Style
    decreases |params|
  {
    if params == [] then style else Sgr(SgrStep(style, params), params[SgrLength(params)..])
  }

  method ApplySgr(style: Style, params: seq<nat>) returns (r: Style)
    ensures r == Sgr(style, params)
  {
    hide Sgr, SgrOne, ColourOf, Rgb, WithColour;
    r := style;
    var i := 0;
    assert params[0..] == params;
    while i < |params|
      invariant 0 <= i <= |params| && Sgr(style, params) == Sgr(r, params[i..])
    {
      SgrUnfold(r, params, i);
      var code := params[i];
      if code == 38 || code == 48 {
        ExtendedAlone(r, code);
        if i + 2 < |params| && params[i + 1] == 5 {
          r := WithColour(r, code, ColourOf(params[i + 2]));
          i := i + 2;
        } else if i + 4 < |params| && params[i + 1] == 2 {
          r := WithColour(r, code, Rgb(params[i + 2], params[i + 3], params[i + 4]));
          i := i + 4;
        }
      } else {
        r := SgrOne(r, code);
      }
      i := i + 1;
    }
    SgrDone(r, params[i..]);
  }

  lemma SgrUnfold(style: Style, params: seq<nat>, i: nat)
    requires i < |params|
    ensures i + SgrLength(params[i..]) <= |params|
    ensures Sgr(style, params[i..]) == Sgr(SgrStep(style, params[i..]), params[i + SgrLength(params[i..])..])
  {
    hide SgrStep, SgrLength;
    var rest := params[i..];
    assert rest[SgrLength(rest)..] == params[i + SgrLength(rest)..];
  }

  lemma SgrDone(style: Style, params: seq<nat>)
    requires params == []
    ensures Sgr(style, params) == style
  {
  }

  lemma ExtendedAlone(style: Style, code: nat)
    requires code == 38 || code == 48
    ensures SgrOne(style, code) == style
  {
  }

  lemma SgrOneOk(style: Style, code: nat)
    requires StyleOk(style)
    ensures StyleOk(SgrOne(style, code))
  {
    hide ColourOk;
    forall i: nat | i < 16 ensures ColourOk(Some(Indexed(i))) {
      IndexedOk(i);
    }
    NoColourOk();
  }

  lemma IndexedOk(index: nat)
    requires index < 16
    ensures ColourOk(Some(Indexed(index)))
  {
  }

  lemma NoColourOk()
    ensures ColourOk(None)
  {
  }

  lemma SgrStepOk(style: Style, params: seq<nat>)
    requires StyleOk(style) && params != []
    ensures StyleOk(SgrStep(style, params))
  {
    hide SgrOne, ColourOf, Rgb, ColourOk;
    if SgrLength(params) == 3 {
      ColourOfOk(params[2]);
    } else if SgrLength(params) == 5 {
      RgbOk(params[2], params[3], params[4]);
    } else {
      SgrOneOk(style, params[0]);
    }
  }

  /** Whatever the parameters, the style stays one an attribute can carry. */
  lemma {:induction false} SgrOk(style: Style, params: seq<nat>)
    requires StyleOk(style)
    ensures StyleOk(Sgr(style, params))
    decreases |params|
  {
    if params != [] {
      SgrStepOk(style, params);
      SgrOk(SgrStep(style, params), params[SgrLength(params)..]);
    }
  }

  /** Reading the parameters in order comes to number `i` itself, not to a colour that runs past it. */
  predicate Lands(params: seq<nat>, i: nat)
    decreases |params|
  {
    || i == 0
    || (params != [] && SgrLength(params) <= i && Lands(params[SgrLength(params)..], i - SgrLength(params)))
  }

  lemma FirstStepKept(style: Style, params: seq<nat>, i: nat)
    requires params != [] && SgrLength(params) <= i <= |params|
    ensures SgrLength(params[..i]) == SgrLength(params) && SgrStep(style, params[..i]) == SgrStep(style, params)
  {
    hide SgrOne, ColourOf, Rgb, WithColour;
  }

  /** One sequence does what its two parts do, wherever reading it lands. */
  lemma {:induction false} SgrSplits(style: Style, params: seq<nat>, i: nat)
    requires i <= |params| && Lands(params, i)
    ensures Sgr(style, params) == Sgr(Sgr(style, params[..i]), params[i..])
    decreases |params|
  {
    hide SgrStep, SgrLength;
    if i == 0 {
      assert params[..0] == [] && params[0..] == params;
    } else {
      var n := SgrLength(params);
      FirstStepKept(style, params, i);
      SgrSplits(SgrStep(style, params), params[n..], i - n);
      assert params[..i][n..] == params[n..][..i - n] && params[n..][i - n..] == params[i..];
    }
  }

  /** Everything before a reset is forgotten, unless a colour swallows the zero. */
  lemma ResetForgets(style: Style, before: seq<nat>, after: seq<nat>)
    requires Lands(before + [0] + after, |before|)
    ensures Sgr(style, before + [0] + after) == Sgr(DEFAULT, after)
  {
    var all := before + [0] + after;
    SgrSplits(style, all, |before|);
    var rest := all[|before|..];
    assert rest[0] == 0 && rest[1..] == after;
  }

  // ----- what each parameter sets, and what clears it

  /** Each flag is set by its own parameter and cleared by two: its own, and zero. Nothing else touches it. */
  lemma FlagsSet(style: Style, code: nat)
    ensures SgrOne(style, code).bold <==> code == 1 || (style.bold && code != 22 && code != 0)
    ensures SgrOne(style, code).dim <==> code == 2 || (style.dim && code != 22 && code != 0)
    ensures SgrOne(style, code).italic <==> code == 3 || (style.italic && code != 23 && code != 0)
    ensures SgrOne(style, code).underline <==> code == 4 || (style.underline && code != 24 && code != 0)
  {
  }

  /** The eight themed foregrounds, their bright forms, and what clears them. */
  lemma ForegroundSet(style: Style, code: nat, i: nat)
    ensures i < 8 ==> SgrOne(style, 30 + i).fg == Some(Indexed(i))
    ensures i < 8 ==> SgrOne(style, 90 + i).fg == Some(Indexed(8 + i))
    ensures SgrOne(style, 39).fg.None? && SgrOne(style, 0).fg.None?
    ensures code !in {0, 39} && !(30 <= code <= 37) && !(90 <= code <= 97) ==> SgrOne(style, code).fg == style.fg
  {
  }

  /** And the backgrounds. */
  lemma BackgroundSet(style: Style, code: nat, i: nat)
    ensures i < 8 ==> SgrOne(style, 40 + i).bg == Some(Indexed(i))
    ensures i < 8 ==> SgrOne(style, 100 + i).bg == Some(Indexed(8 + i))
    ensures SgrOne(style, 49).bg.None? && SgrOne(style, 0).bg.None?
    ensures code !in {0, 49} && !(40 <= code <= 47) && !(100 <= code <= 107) ==> SgrOne(style, code).bg == style.bg
  {
  }

  /** A parameter alone is read as it stands, an extended colour without its arguments as nothing. */
  lemma AloneIsOne(style: Style, code: nat)
    ensures Sgr(style, [code]) == SgrOne(style, code)
    ensures code == 38 || code == 48 ==> Sgr(style, [code]) == style
  {
    hide SgrOne;
    assert [code][1..] == [];
    if code == 38 || code == 48 {
      ExtendedAlone(style, code);
    }
  }

  /** 38 sets the foreground and 48 the background: from the palette after 5, from three components after 2. */
  lemma ExtendedColours(style: Style, n: nat, r: nat, g: nat, b: nat)
    ensures Sgr(style, [38, 5, n]) == style.(fg := Some(ColourOf(n)))
    ensures Sgr(style, [48, 5, n]) == style.(bg := Some(ColourOf(n)))
    ensures Sgr(style, [38, 2, r, g, b]) == style.(fg := Some(Rgb(r, g, b)))
    ensures Sgr(style, [48, 2, r, g, b]) == style.(bg := Some(Rgb(r, g, b)))
  {
    hide ColourOf, Rgb;
    OneStep(style, [38, 5, n]);
    OneStep(style, [48, 5, n]);
    OneStep(style, [38, 2, r, g, b]);
    OneStep(style, [48, 2, r, g, b]);
  }

  lemma OneStep(style: Style, params: seq<nat>)
    requires params != [] && SgrLength(params) == |params|
    ensures Sgr(style, params) == SgrStep(style, params)
  {
    hide SgrStep;
    assert params[|params|..] == [];
  }

  /** The palette: sixteen themed colours, then the cube, then twenty-four greys ten apart. */
  lemma Greys(i: nat)
    ensures ColourOf(232 + i) == Rgb(8 + 10 * i, 8 + 10 * i, 8 + 10 * i)
    ensures i < 16 ==> ColourOf(i) == Indexed(i)
  {
    hide Rgb;
  }
}
