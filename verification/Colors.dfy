/** HSL to RGB (src/utils/color.rs), over the reals. */
module Colors {
  type Rgb = (real, real, real)

  function Abs(x: real): real {
    if x < 0.0 then -x else x
  }

  /** The remainder of division by 2. */
  function Mod2(x: real): real
    requires x >= 0.0
  {
    x - 2.0 * (x / 2.0).Floor as real
  }

  /** The three components without the offset, by sector. */
  function Sextant(n: int, c: real, x: real): Rgb {
    match n
    case 0 => (c, x, 0.0)
    case 1 => (x, c, 0.0)
    case 2 => (0.0, c, x)
    case 3 => (0.0, x, c)
    case 4 => (x, 0.0, c)
    case _ => (c, 0.0, x)
  }

  function Chroma(s: real, l: real): real {
    (1.0 - Abs(2.0 * l - 1.0)) * s
  }

  /** How far the hue is along its sector, up in even sectors and down in odd ones. */
  function Ramp(h: real): real
    requires h >= 0.0
  {
    1.0 - Abs(Mod2(h / 60.0) - 1.0)
  }

  /** The second largest component. */
  function Second(c: real, ramp: real): real {
    c * ramp
  }

  /** `hsl_to_rgb`. */
  function HslToRgb(h: real, s: real, l: real): Rgb
    requires h >= 0.0
  {
    var c := Chroma(s, l);
    var x := Second(c, Ramp(h));
    var first := Sextant((h / 60.0).Floor, c, x);
    var m := l - c / 2.0;
    (first.0 + m, first.1 + m, first.2 + m)
  }

  // ----- the reference: section 4.2.4 of CSS Color Module Level 3

  function HueToRgb(m1: real, m2: real, hue: real): real {
    var h := if hue < 0.0 then hue + 1.0 else if hue > 1.0 then hue - 1.0 else hue;
    if h * 6.0 < 1.0 then m1 + (m2 - m1) * (h * 6.0)
    else if h * 2.0 < 1.0 then m2
    else if h * 3.0 < 2.0 then m1 + (m2 - m1) * ((2.0 / 3.0 - h) * 6.0)
    else m1
  }

  function M2(s: real, l: real): real {
    if l <= 0.5 then l * (s + 1.0) else l + s - l * s
  }

  /** Hue as a fraction of the circle. */
  function CssHslToRgb(h: real, s: real, l: real): Rgb {
    var m2 := M2(s, l);
    var m1 := l * 2.0 - m2;
    (HueToRgb(m1, m2, h + 1.0 / 3.0), HueToRgb(m1, m2, h), HueToRgb(m1, m2, h - 1.0 / 3.0))
  }

  // ----- the two agree

  /** The chroma is the distance of the reference's two levels, and the offset the lower. */
  lemma LevelsAgree(s: real, l: real)
    ensures l * 2.0 - M2(s, l) == l - Chroma(s, l) / 2.0
    ensures M2(s, l) == l - Chroma(s, l) / 2.0 + Chroma(s, l)
  {
    if l <= 0.5 { assert Chroma(s, l) == 2.0 * l * s; } else { assert Chroma(s, l) == (2.0 - 2.0 * l) * s; }
  }

  /** In sector `n` of the circle the rising and falling ramps are the reference's. */
  lemma RampAgrees(h: real, n: int)
    requires 0 <= n < 6 && n as real <= h / 60.0 < (n + 1) as real
    ensures (h / 60.0).Floor == n
    ensures Ramp(h) ==
            if n % 2 == 0 then h / 60.0 - n as real else (n + 1) as real - h / 60.0
  {
    var p := h / 60.0;
    assert (p / 2.0).Floor == n / 2;
  }

  function Sector(h: real): (n: int)
    requires 0.0 <= h < 360.0
    ensures 0 <= n < 6 && n as real <= h / 60.0 < (n + 1) as real
  {
    (h / 60.0).Floor
  }

  /** The reference's level at position `p` of the circle, in sixths. */
  function Level(m: real, c: real, p: real): real {
    if p < 1.0 then m + Second(c, p) else if p < 3.0 then m + c
    else if p < 4.0 then m + Second(c, 4.0 - p) else m
  }

  lemma HueIsLevel(m: real, c: real, hue: real, p: real)
    requires 0.0 <= p <= 6.0 && -1.0 <= hue <= 2.0
    requires p == 6.0 * (if hue < 0.0 then hue + 1.0 else if hue > 1.0 then hue - 1.0 else hue)
    ensures HueToRgb(m, m + c, hue) == Level(m, c, p)
  {
    var h := if hue < 0.0 then hue + 1.0 else if hue > 1.0 then hue - 1.0 else hue;
    assert m + c - m == c && h * 6.0 == p && (2.0 / 3.0 - h) * 6.0 == 4.0 - p;
    assert c * h * 6.0 == Second(c, p) && c * ((2.0 / 3.0 - h) * 6.0) == Second(c, 4.0 - p);
  }

  /** The three levels: red runs two sixths ahead of the hue, blue two behind. */
  function Levels(m: real, c: real, p: real): Rgb {
    (Level(m, c, if p > 4.0 then p - 4.0 else p + 2.0), Level(m, c, p),
     Level(m, c, if p < 2.0 then p + 4.0 else p - 2.0))
  }

  lemma ReferenceLevels(h: real, m: real, c: real)
    requires 0.0 <= h < 360.0
    ensures (HueToRgb(m, m + c, h / 360.0 + 1.0 / 3.0), HueToRgb(m, m + c, h / 360.0),
             HueToRgb(m, m + c, h / 360.0 - 1.0 / 3.0)) == Levels(m, c, h / 60.0)
  {
    var p := h / 60.0;
    assert h / 360.0 * 6.0 == p;
    HueIsLevel(m, c, h / 360.0 + 1.0 / 3.0, if p > 4.0 then p - 4.0 else p + 2.0);
    HueIsLevel(m, c, h / 360.0, p);
    HueIsLevel(m, c, h / 360.0 - 1.0 / 3.0, if p < 2.0 then p + 4.0 else p - 2.0);
  }

  lemma NoSecond(c: real)
    ensures Second(c, 0.0) == 0.0
  {
  }

  /** In each sector the code's components are the reference's levels. */
  lemma SextantLevels(n: int, p: real, m: real, c: real, x: real)
    requires 0 <= n < 6 && n as real <= p < (n + 1) as real
    requires x == Second(c, if n % 2 == 0 then p - n as real else (n + 1) as real - p)
    ensures var first := Sextant(n, c, x);
            (first.0 + m, first.1 + m, first.2 + m) == Levels(m, c, p)
  {
    hide Second;
    NoSecond(c);
    match n
    case 0 => assert x == Second(c, p);
    case 1 => assert x == Second(c, 2.0 - p) && 4.0 - (p + 2.0) == 2.0 - p;
    case 2 => assert x == Second(c, p - 2.0);
    case 3 => assert x == Second(c, 4.0 - p);
    case 4 => assert x == Second(c, p - 4.0);
    case _ => assert x == Second(c, 6.0 - p) && 4.0 - (p - 2.0) == 6.0 - p;
  }

  lemma CodeLevels(h: real, s: real, l: real)
    requires 0.0 <= h < 360.0
    ensures HslToRgb(h, s, l) == Levels(l - Chroma(s, l) / 2.0, Chroma(s, l), h / 60.0)
  {
    var n, c := Sector(h), Chroma(s, l);
    RampAgrees(h, n);
    SextantLevels(n, h / 60.0, l - c / 2.0, c, Second(c, Ramp(h)));
  }

  /** For every colour the code computes what the standard's algorithm does. */
  lemma AgreesWithCss(h: real, s: real, l: real)
    requires 0.0 <= h < 360.0
    ensures HslToRgb(h, s, l) == CssHslToRgb(h / 360.0, s, l)
  {
    CodeLevels(h, s, l);
    LevelsAgree(s, l);
    ReferenceLevels(h, l - Chroma(s, l) / 2.0, Chroma(s, l));
  }

  function Max(a: Rgb): real {
    var m := if a.0 > a.1 then a.0 else a.1; if m > a.2 then m else a.2
  }

  function Min(a: Rgb): real {
    var m := if a.0 < a.1 then a.0 else a.1; if m < a.2 then m else a.2
  }

  /** Every component is a proportion; lightness is the mean of the largest and the
      smallest, and their distance is the chroma. */
  lemma Components(h: real, s: real, l: real)
    requires 0.0 <= h < 360.0 && 0.0 <= s <= 1.0 && 0.0 <= l <= 1.0
    ensures var rgb := HslToRgb(h, s, l);
            && 0.0 <= Min(rgb) && Max(rgb) <= 1.0
            && Max(rgb) + Min(rgb) == 2.0 * l
            && Max(rgb) - Min(rgb) == Chroma(s, l)
  {
    var n, c := Sector(h), Chroma(s, l);
    RampAgrees(h, n);
    ChromaBounds(s, l);
    ProductBounds(c, Ramp(h));
    var m := l - c / 2.0;
    SextantBounds(n, c, Second(c, Ramp(h)), m);
    var rgb := Sextant(n, c, Second(c, Ramp(h)));
    assert HslToRgb(h, s, l) == (rgb.0 + m, rgb.1 + m, rgb.2 + m);
  }

  lemma ChromaBounds(s: real, l: real)
    requires 0.0 <= s <= 1.0 && 0.0 <= l <= 1.0
    ensures 0.0 <= Chroma(s, l) <= 2.0 * l && Chroma(s, l) <= 2.0 - 2.0 * l
  {
    if l <= 0.5 {
      assert Chroma(s, l) == 2.0 * l * s;
      assert 0.0 <= 2.0 * l * s <= 2.0 * l by { ProductBounds(2.0 * l, s); }
    } else {
      assert Chroma(s, l) == (2.0 - 2.0 * l) * s;
      assert 0.0 <= (2.0 - 2.0 * l) * s <= 2.0 - 2.0 * l by { ProductBounds(2.0 - 2.0 * l, s); }
    }
  }

  lemma ProductBounds(a: real, t: real)
    requires a >= 0.0 && 0.0 <= t <= 1.0
    ensures 0.0 <= a * t <= a && 0.0 <= Second(a, t) <= a
  {
  }

  lemma SextantBounds(n: int, c: real, x: real, m: real)
    requires 0 <= n < 6 && 0.0 <= x <= c
    ensures var (r, g, b) := Sextant(n, c, x);
            Max((r + m, g + m, b + m)) == c + m && Min((r + m, g + m, b + m)) == m
  {
  }
}
