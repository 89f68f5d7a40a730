/**
 * The console self-test of the distance-field algorithm: an 8 x 8 disc of
 * radius 2 as the source bitmap, its field with spread 2, the character
 * legend the field is shown with, and the smoothstep transfer the text
 * shader applies to field values (main fill and outline).
 *
 * Coordinates and field values in the shader part are `real`: float rounding
 * is not modelled.
 */
module SdfSelfTest {
  import opened Common
  import opened DistanceField

  const FixtureSize: nat := 8
  const FixtureRadius: int := 2
  const FixtureSpread: nat := 2

  /** Pixel (x, y) lies on the disc: sqrt(d) <= radius with d a square sum of integers is d <= radius^2. */
  predicate InCircle(x: int, y: int) {
    var cx, cy := FixtureSize / 2, FixtureSize / 2;
    (x - cx) * (x - cx) + (y - cy) * (y - cy) <= FixtureRadius * FixtureRadius
  }

  /** The fixture bitmap: 255 on the disc, 0 elsewhere, row-major. */
  function CircleFixture(): (b: seq<byte>)
    ensures |b| == FixtureSize * FixtureSize
  {
    seq(FixtureSize * FixtureSize, i => if InCircle(i % FixtureSize, i / FixtureSize) then 255 else 0)
  }

  /** The loops that draw the disc into the zero-initialised bitmap vector. */
  method CircleBitmap() returns (bitmap: seq<byte>)
    ensures bitmap == CircleFixture()
  {
    var pixels := new byte[FixtureSize * FixtureSize](_ => 0);
    var centerX, centerY := FixtureSize / 2, FixtureSize / 2;
    for y := 0 to FixtureSize
      invariant forall i :: 0 <= i < pixels.Length ==>
        pixels[i] == (if i / FixtureSize < y && InCircle(i % FixtureSize, i / FixtureSize) then 255 else 0)
    {
      for x := 0 to FixtureSize
        invariant forall i :: 0 <= i < pixels.Length ==>
          pixels[i] == (if Earlier(i % FixtureSize, i / FixtureSize, x, y) && InCircle(i % FixtureSize, i / FixtureSize)
                        then 255 else 0)
      {
        IndexInBounds(x, y, FixtureSize, FixtureSize);
        RowMajorCoordinates(x, y, FixtureSize);
        if (x - centerX) * (x - centerX) + (y - centerY) * (y - centerY) <= FixtureRadius * FixtureRadius {
          pixels[y * FixtureSize + x] := 255;
        }
      }
    }
    bitmap := pixels[..];
  }

  /**
   * TestSDFGeneration: the disc and its field with spread 2. Its inline
   * loop is the same computation as GenerateSDFTexture, which is used here.
   */
  method TestSDFGeneration() returns (bitmap: seq<byte>, sdfData: seq<byte>)
    ensures bitmap == CircleFixture()
    ensures |sdfData| == (FixtureSize + 2 * FixtureSpread) * (FixtureSize + 2 * FixtureSpread)
    ensures sdfData == Field(bitmap, FixtureSize, FixtureSize, FixtureSpread)
  {
    bitmap := CircleBitmap();
    var field := GenerateSDFTexture(bitmap, FixtureSize, FixtureSize, FixtureSpread);
    sdfData := field[..];
  }

  /** Every covered fixture pixel is on the 5 x 5 block around the centre. */
  lemma CoveredFixturePixels(bitmap: seq<byte>, px: nat, py: nat)
    requires bitmap == CircleFixture()
    requires px < FixtureSize && py < FixtureSize
    ensures Pixel(bitmap, FixtureSize, FixtureSize, px, py) > 0 <==> InCircle(px, py)
    ensures InCircle(px, py) ==> 2 <= px <= 6 && 2 <= py <= 6
  {
    RowMajorCoordinates(px, py, FixtureSize);
    if InCircle(px, py) {
      var dx, dy := px - 4, py - 4;
      assert dx * dx <= 4 && dy * dy <= 4;
    }
  }

  /** The texel over each disc pixel (sx, sy) of the fixture's 12 x 12 field is 255. */
  lemma FixtureDiscTexels(bitmap: seq<byte>, sx: nat, sy: nat)
    requires bitmap == CircleFixture()
    requires sx < FixtureSize && sy < FixtureSize && InCircle(sx, sy)
    ensures FieldAt(bitmap, FixtureSize, FixtureSize, FixtureSpread, sx + FixtureSpread, sy + FixtureSpread) == 255
  {
    CoveredFixturePixels(bitmap, sx, sy);
    CoveredPixelIs255(bitmap, FixtureSize, FixtureSize, FixtureSpread, sx, sy);
  }

  /** The frame of the fixture's field three texels wide, every texel at least `spread` from the disc, is 0. */
  lemma FixtureFrameTexels(bitmap: seq<byte>, x: nat, y: nat)
    requires bitmap == CircleFixture()
    requires x < FixtureSize + 2 * FixtureSpread && y < FixtureSize + 2 * FixtureSpread
    requires x <= 2 || x >= 10 || y <= 2 || y >= 10
    ensures FieldAt(bitmap, FixtureSize, FixtureSize, FixtureSpread, x, y) == 0
  {
    forall px, py | 0 <= px < FixtureSize && 0 <= py < FixtureSize && Pixel(bitmap, FixtureSize, FixtureSize, px, py) > 0
      ensures DistSq(x, y, px, py, FixtureSpread) >= FixtureSpread * FixtureSpread
    {
      CoveredFixturePixels(bitmap, px, py);
      FrameIsFarFromDisc(x, y, px, py);
    }
    FarTexelIsZero(bitmap, FixtureSize, FixtureSize, FixtureSpread, x, y);
  }

  /** A frame texel is at least `spread` from every pixel of the block that holds the disc. */
  lemma FrameIsFarFromDisc(x: int, y: int, px: int, py: int)
    requires x <= 2 || x >= 10 || y <= 2 || y >= 10
    requires 2 <= px <= 6 && 2 <= py <= 6
    ensures DistSq(x, y, px, py, FixtureSpread) >= FixtureSpread * FixtureSpread
  {
    var dx, dy := x - px - 2, y - py - 2;
    if dx <= -2 || dx >= 2 {
      SumOfSquaresAtLeastFour(dx, dy);
    } else {
      SumOfSquaresAtLeastFour(dy, dx);
    }
  }

  /** Once |a| >= 2, a^2 + b^2 >= 4. */
  lemma SumOfSquaresAtLeastFour(a: int, b: int)
    requires a <= -2 || a >= 2
    ensures a * a + b * b >= 4
  {
    if a >= 2 {
      assert a * a >= 2 * a;
    } else {
      assert a * a >= -2 * a;
    }
    assert b * b >= 0;
  }

  /** The shades the field is printed with, densest first. */
  datatype Shade = Solid | Dense | Medium | Light | Blank

  /** The two characters printed for a shade. */
  function ShadeText(s: Shade): string {
    match s
    case Solid => "##"
    case Dense => "**"
    case Medium => "++"
    case Light => ".."
    case Blank => "  "
  }

  /** The display's choice for a field byte: strict thresholds 200, 150, 100, 50. */
  function ShadeOf(value: byte): Shade {
    if value > 200 then Solid
    else if value > 150 then Dense
    else if value > 100 then Medium
    else if value > 50 then Light
    else Blank
  }

  /** The range the printed legend gives each shade: 255-200, 199-150, 149-100, 99-50, 49-0. */
  function LegendRange(s: Shade): (r: (int, int))
    ensures r.0 <= r.1
  {
    match s
    case Solid => (200, 255)
    case Dense => (150, 199)
    case Medium => (100, 149)
    case Light => (50, 99)
    case Blank => (0, 49)
  }

  /**
   * Each byte gets exactly one shade, and denser shades go to larger bytes.
   * The printed legend agrees with the display except at 200, 150, 100 and
   * 50, which the display's strict comparisons put one shade lower.
   */
  lemma LegendAgreesExceptAtBoundaries(value: byte)
    ensures value !in {50, 100, 150, 200} ==>
      LegendRange(ShadeOf(value)).0 <= value <= LegendRange(ShadeOf(value)).1
    ensures value in {50, 100, 150, 200} ==>
      LegendRange(ShadeOf(value)).1 == value - 1 && ShadeOf(value) != Solid
    ensures forall s: Shade :: LegendRange(s).0 <= value <= LegendRange(s).1 <==> s == LegendShade(value)
  {
  }

  /** The shade the printed legend assigns a byte. */
  function LegendShade(value: byte): Shade {
    if value >= 200 then Solid
    else if value >= 150 then Dense
    else if value >= 100 then Medium
    else if value >= 50 then Light
    else Blank
  }

  /** The disc of the fixture prints solid "##" in the field display. */
  lemma FixtureDiscDisplay(bitmap: seq<byte>, sx: nat, sy: nat)
    requires bitmap == CircleFixture()
    requires sx < FixtureSize && sy < FixtureSize && InCircle(sx, sy)
    ensures ShadeText(ShadeOf(FieldAt(bitmap, FixtureSize, FixtureSize, FixtureSpread, sx + FixtureSpread, sy + FixtureSpread))) == "##"
  {
    FixtureDiscTexels(bitmap, sx, sy);
  }

  /** The frame around the disc prints blank in the field display. */
  lemma FixtureFrameDisplay(bitmap: seq<byte>, x: nat, y: nat)
    requires bitmap == CircleFixture()
    requires x < FixtureSize + 2 * FixtureSpread && y < FixtureSize + 2 * FixtureSpread
    requires x <= 2 || x >= 10 || y <= 2 || y >= 10
    ensures ShadeText(ShadeOf(FieldAt(bitmap, FixtureSize, FixtureSize, FixtureSpread, x, y))) == "  "
  {
    FixtureFrameTexels(bitmap, x, y);
  }

  // ---------------------------------------------------------------------
  // The shader's transfer function.
  // ---------------------------------------------------------------------

  /** t clamped to [0, 1]. */
  function Clamp01(t: real): (r: real)
    ensures 0.0 <= r <= 1.0
    ensures 0.0 <= t <= 1.0 ==> r == t
  {
    if t < 0.0 then 0.0 else if t > 1.0 then 1.0 else t
  }

  /** The smoothstep lambda: t = clamp((x - edge0) / (edge1 - edge0)), then t^2 (3 - 2t). */
  function Smoothstep(edge0: real, edge1: real, x: real): real
    requires edge0 != edge1
  {
    var t := Clamp01((x - edge0) / (edge1 - edge0));
    t * t * (3.0 - 2.0 * t)
  }

  lemma MulNonNegative(a: real, b: real)
    requires a >= 0.0 && b >= 0.0
    ensures a * b >= 0.0
  {
  }

  lemma SquareNonNegative(a: real)
    ensures a * a >= 0.0
  {
    if a < 0.0 {
      MulNonNegative(-a, -a);
      assert (-a) * (-a) == a * a;
    } else {
      MulNonNegative(a, a);
    }
  }

  /** Dividing by a positive width keeps order. */
  lemma DivideMonotone(n1: real, n2: real, w: real)
    requires w > 0.0 && n1 <= n2
    ensures n1 / w <= n2 / w
  {
    var t1, t2 := n1 / w, n2 / w;
    assert t1 * w == n1 && t2 * w == n2;
    assert (t2 - t1) * w == n2 - n1;
  }

  /** The cubic t^2 (3 - 2t) maps [0, 1] into [0, 1]. */
  lemma CubicBounds(a: real)
    requires 0.0 <= a <= 1.0
    ensures 0.0 <= a * a * (3.0 - 2.0 * a) <= 1.0
  {
    SquareNonNegative(a);
    MulNonNegative(a * a, 3.0 - 2.0 * a);
    SquareNonNegative(1.0 - a);
    MulNonNegative((1.0 - a) * (1.0 - a), 1.0 + 2.0 * a);
    assert 1.0 - a * a * (3.0 - 2.0 * a) == (1.0 - a) * (1.0 - a) * (1.0 + 2.0 * a);
  }

  /** The cubic t^2 (3 - 2t) never decreases on [0, 1]. */
  lemma CubicOrder(a: real, b: real)
    requires 0.0 <= a <= b <= 1.0
    ensures a * a * (3.0 - 2.0 * a) <= b * b * (3.0 - 2.0 * b)
  {
    var slope := 3.0 * (a + b) - 2.0 * (a * a + a * b + b * b);
    assert slope >= 0.0 by {
      MulNonNegative(a, 1.0 - a);
      MulNonNegative(b, 1.0 - b);
      MulNonNegative(a, 1.0 - b);
      MulNonNegative(b, 1.0 - a);
    }
    MulNonNegative(b - a, slope);
    assert b * b * (3.0 - 2.0 * b) - a * a * (3.0 - 2.0 * a) == (b - a) * slope;
  }

  /** For edge0 < edge1: the result lies in [0, 1], is 0 at or below edge0 and 1 at or above edge1. */
  lemma SmoothstepRange(edge0: real, edge1: real, x: real)
    requires edge0 < edge1
    ensures 0.0 <= Smoothstep(edge0, edge1, x) <= 1.0
    ensures x <= edge0 ==> Smoothstep(edge0, edge1, x) == 0.0
    ensures x >= edge1 ==> Smoothstep(edge0, edge1, x) == 1.0
  {
    var w := edge1 - edge0;
    var t := Clamp01((x - edge0) / w);
    CubicBounds(t);
    if x <= edge0 {
      DivideMonotone(x - edge0, 0.0, w);
    }
    if x >= edge1 {
      DivideMonotone(w, x - edge0, w);
      assert w / w == 1.0;
    }
  }

  /** For edge0 < edge1, smoothstep never decreases in x. */
  lemma SmoothstepMonotone(edge0: real, edge1: real, x1: real, x2: real)
    requires edge0 < edge1 && x1 <= x2
    ensures Smoothstep(edge0, edge1, x1) <= Smoothstep(edge0, edge1, x2)
  {
    var w := edge1 - edge0;
    DivideMonotone(x1 - edge0, x2 - edge0, w);
    CubicOrder(Clamp01((x1 - edge0) / w), Clamp01((x2 - edge0) / w));
  }

  /** Moving both edges down by d is moving x up by d. */
  lemma SmoothstepShift(edge0: real, edge1: real, d: real, x: real)
    requires edge0 != edge1
    ensures Smoothstep(edge0 - d, edge1 - d, x) == Smoothstep(edge0, edge1, x + d)
  {
    assert (edge1 - d) - (edge0 - d) == edge1 - edge0;
    assert x - (edge0 - d) == (x + d) - edge0;
  }

  const Smoothness: real := 0.1
  const OutlineWidth: real := 0.1

  /** mainAlpha: the window 0.5 +- smoothness. */
  function MainAlpha(sdfValue: real): real {
    Smoothstep(0.5 - Smoothness, 0.5 + Smoothness, sdfValue)
  }

  /** outlineAlpha: the same window moved down by outlineWidth. */
  function OutlineAlpha(sdfValue: real): real {
    Smoothstep(0.5 - OutlineWidth - Smoothness, 0.5 - OutlineWidth + Smoothness, sdfValue)
  }

  /** The glyph edge (field value 0.5) is half covered, and the outline covers at least what the fill does. */
  lemma AlphaProperties(sdfValue: real)
    ensures MainAlpha(0.5) == 0.5
    ensures OutlineAlpha(sdfValue) >= MainAlpha(sdfValue)
    ensures 0.0 <= MainAlpha(sdfValue) <= 1.0 && 0.0 <= OutlineAlpha(sdfValue) <= 1.0
  {
    assert Clamp01((0.5 - 0.4) / (0.6 - 0.4)) == 0.5;
    SmoothstepShift(0.4, 0.6, OutlineWidth, sdfValue);
    SmoothstepMonotone(0.4, 0.6, sdfValue, sdfValue + OutlineWidth);
    SmoothstepRange(0.4, 0.6, sdfValue);
    SmoothstepRange(0.3, 0.5, sdfValue);
  }

  /** The field values the shader test tabulates. */
  const SdfValues: seq<real> := [0.0, 0.2, 0.4, 0.5, 0.6, 0.8, 1.0]

  /** TestShaderLogic: one row (value, mainAlpha, outlineAlpha) per tabulated value. */
  method TestShaderLogic() returns (rows: seq<(real, real, real)>)
    ensures |rows| == |SdfValues|
    ensures forall i :: 0 <= i < |rows| ==>
      rows[i] == (SdfValues[i], MainAlpha(SdfValues[i]), OutlineAlpha(SdfValues[i]))
  {
    rows := [];
    for i := 0 to |SdfValues|
      invariant |rows| == i
      invariant forall j :: 0 <= j < i ==>
        rows[j] == (SdfValues[j], MainAlpha(SdfValues[j]), OutlineAlpha(SdfValues[j]))
    {
      var sdfValue := SdfValues[i];
      var mainAlpha := Smoothstep(0.5 - Smoothness, 0.5 + Smoothness, sdfValue);
      var outlineAlpha := Smoothstep(0.5 - OutlineWidth - Smoothness, 0.5 - OutlineWidth + Smoothness, sdfValue);
      rows := rows + [(sdfValue, mainAlpha, outlineAlpha)];
    }
  }

  /** The fill column of the table in exact arithmetic: 0 up to 0.4, 0.5 at 0.5, 1 from 0.6. */
  lemma MainAlphaTable()
    ensures MainAlpha(0.0) == 0.0 && MainAlpha(0.2) == 0.0 && MainAlpha(0.4) == 0.0
    ensures MainAlpha(0.5) == 0.5
    ensures MainAlpha(0.6) == 1.0 && MainAlpha(0.8) == 1.0 && MainAlpha(1.0) == 1.0
  {
    assert Clamp01((0.5 - 0.4) / (0.6 - 0.4)) == 0.5;
    SmoothstepRange(0.4, 0.6, 0.0);
    SmoothstepRange(0.4, 0.6, 0.2);
    SmoothstepRange(0.4, 0.6, 0.4);
    SmoothstepRange(0.4, 0.6, 0.6);
    SmoothstepRange(0.4, 0.6, 0.8);
    SmoothstepRange(0.4, 0.6, 1.0);
  }

  /** The outline column: 0 up to 0.3, already 0.5 at 0.4 and 1 from 0.5. */
  lemma OutlineAlphaTable()
    ensures OutlineAlpha(0.0) == 0.0 && OutlineAlpha(0.2) == 0.0
    ensures OutlineAlpha(0.4) == 0.5
    ensures OutlineAlpha(0.5) == 1.0 && OutlineAlpha(0.6) == 1.0 && OutlineAlpha(0.8) == 1.0 && OutlineAlpha(1.0) == 1.0
  {
    forall v | v in {0.0, 0.2, 0.5, 0.6, 0.8, 1.0} ensures OutlineAlpha(v) == Smoothstep(0.3, 0.5, v) {
      SmoothstepRange(0.3, 0.5, v);
    }
    assert OutlineAlpha(0.4) == Smoothstep(0.3, 0.5, 0.4);
    assert Clamp01((0.4 - 0.3) / (0.5 - 0.3)) == 0.5;
  }
}
