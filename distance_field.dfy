/**
 * GenerateSDFTexture: turns a glyph's coverage bitmap (row-major, width x
 * height, non-zero = covered) into a distance field padded by `spread` on
 * every side. Each output texel gets the distance to the nearest covered
 * source pixel, capped at `spread`, mapped to 255 * (1 - dist / spread) and
 * truncated to a byte.
 *
 * Distances are kept squared and exact: `sqrt(d) < minDist` in the source is
 * `d < minDistSq` here, and the truncation to a byte is the largest v with
 * v <= 255 * (1 - sqrt(m) / spread), decided with integers only.
 */
module DistanceField {
  import opened Common

  lemma IndexInBounds(x: nat, y: nat, width: nat, height: nat)
    requires x < width && y < height
    ensures y * width + x < width * height
  {
    assert y * width + x < y * width + width == (y + 1) * width;
    assert (y + 1) * width <= height * width by {
      assert y + 1 <= height;
    }
  }

  lemma MulMonotone(a: nat, b: int, c: int)
    requires b <= c
    ensures a * b <= a * c
  {
    assert a * c - a * b == a * (c - b);
  }

  lemma RowMajorCoordinates(x: nat, y: nat, width: nat)
    requires x < width
    ensures (y * width + x) % width == x && (y * width + x) / width == y
  {
    var i := y * width + x;
    var q, r := i / width, i % width;
    assert width * q + r == width * y + x;
    assert width * (y + 1) == width * y + width;
    assert width * (q + 1) == width * q + width;
    if q > y {
      MulMonotone(width, y + 1, q);
      assert false;
    } else if q < y {
      MulMonotone(width, q + 1, y);
      assert false;
    }
  }

  /** The source pixel at column `sx`, row `sy`: `bitmap[sy * width + sx]`. */
  function Pixel(bitmap: seq<byte>, width: nat, height: nat, sx: nat, sy: nat): byte
    requires |bitmap| == width * height && sx < width && sy < height
  {
    IndexInBounds(sx, sy, width, height);
    bitmap[sy * width + sx]
  }

  /** Squared distance from padded texel (x, y) to source pixel (sx, sy), which sits at (sx + spread, sy + spread). */
  function DistSq(x: int, y: int, sx: int, sy: int, spread: int): (d: int)
    ensures d >= 0
  {
    var dx, dy := x - sx - spread, y - sy - spread;
    dx * dx + dy * dy
  }

  /** Source pixel (px, py) comes before (sx, sy) in the row-major scan. */
  predicate Earlier(px: int, py: int, sx: int, sy: int) {
    py < sy || (py == sy && px < sx)
  }

  /**
   * `minDist` squared after the scan has visited every source pixel before
   * (sx, sy): the least squared distance to a covered pixel seen so far,
   * starting from spread * spread.
   */
  function ScanMin(bitmap: seq<byte>, width: nat, height: nat, spread: nat, x: int, y: int, sx: nat, sy: nat): (m: int)
    requires |bitmap| == width * height
    requires sx <= width && sy <= height && (sy == height ==> sx == 0)
    ensures 0 <= m <= spread * spread
    decreases sy, sx
  {
    if sx == 0 then
      if sy == 0 then spread * spread else ScanMin(bitmap, width, height, spread, x, y, width, sy - 1)
    else
      var prev := ScanMin(bitmap, width, height, spread, x, y, sx - 1, sy);
      var d := DistSq(x, y, sx - 1, sy, spread);
      if Pixel(bitmap, width, height, sx - 1, sy) > 0 && d < prev then d else prev
  }

  /** Covered source pixel (px, py) is visited before (sx, sy). */
  predicate CoveredBefore(bitmap: seq<byte>, width: nat, height: nat, px: int, py: int, sx: int, sy: int)
    requires |bitmap| == width * height
  {
    0 <= px < width && 0 <= py < height && Earlier(px, py, sx, sy) && Pixel(bitmap, width, height, px, py) > 0
  }

  /**
   * The scan computes a minimum: no covered pixel visited so far is closer,
   * and the value is either the cap or the distance of one of them.
   */
  lemma {:induction false} ScanMinIsMinimum(bitmap: seq<byte>, width: nat, height: nat, spread: nat, x: int, y: int, sx: nat, sy: nat)
    requires |bitmap| == width * height
    requires sx <= width && sy <= height && (sy == height ==> sx == 0)
    ensures forall px, py :: CoveredBefore(bitmap, width, height, px, py, sx, sy) ==>
      ScanMin(bitmap, width, height, spread, x, y, sx, sy) <= DistSq(x, y, px, py, spread)
    ensures ScanMin(bitmap, width, height, spread, x, y, sx, sy) == spread * spread ||
      exists px, py :: CoveredBefore(bitmap, width, height, px, py, sx, sy) &&
        ScanMin(bitmap, width, height, spread, x, y, sx, sy) == DistSq(x, y, px, py, spread)
    decreases sy, sx
  {
    if sx == 0 {
      if sy != 0 {
        ScanMinIsMinimum(bitmap, width, height, spread, x, y, width, sy - 1);
        assert forall px, py :: CoveredBefore(bitmap, width, height, px, py, 0, sy) <==>
          CoveredBefore(bitmap, width, height, px, py, width, sy - 1);
      }
    } else {
      ScanMinIsMinimum(bitmap, width, height, spread, x, y, sx - 1, sy);
      assert forall px, py :: CoveredBefore(bitmap, width, height, px, py, sx, sy) <==>
        CoveredBefore(bitmap, width, height, px, py, sx - 1, sy) ||
        (px == sx - 1 && py == sy && Pixel(bitmap, width, height, sx - 1, sy) > 0);
    }
  }

  /** The squared capped distance from texel (x, y) to the glyph: the whole scan. */
  function NearestDistSq(bitmap: seq<byte>, width: nat, height: nat, spread: nat, x: int, y: int): int
    requires |bitmap| == width * height
  {
    ScanMin(bitmap, width, height, spread, x, y, 0, height)
  }

  /** Byte value v is at most 255 * (1 - sqrt(m) / spread), i.e. (255 * sqrt(m) <= (255 - v) * spread). */
  predicate Fits(m: int, spread: int, v: int) {
    65025 * m <= (255 - v) * (255 - v) * (spread * spread)
  }

  function TruncateFrom(m: int, spread: nat, v: nat): (r: byte)
    requires spread > 0 && 0 <= m <= spread * spread && v <= 255
    ensures r <= v && Fits(m, spread, r)
    ensures forall u :: r < u <= v ==> !Fits(m, spread, u)
    decreases v
  {
    if v == 0 || Fits(m, spread, v) then v else TruncateFrom(m, spread, v - 1)
  }

  /** `(unsigned char)(255 * (1 - minDist / spread))` in exact arithmetic, from the squared distance. */
  function DistanceByte(m: int, spread: nat): (v: byte)
    requires spread > 0 && 0 <= m <= spread * spread
    ensures Fits(m, spread, v)
    ensures forall u :: v < u <= 255 ==> !Fits(m, spread, u)
  {
    TruncateFrom(m, spread, 255)
  }

  /** The byte GenerateSDFTexture stores at padded texel (x, y). */
  function FieldAt(bitmap: seq<byte>, width: nat, height: nat, spread: nat, x: int, y: int): byte
    requires |bitmap| == width * height && spread > 0
  {
    DistanceByte(NearestDistSq(bitmap, width, height, spread, x, y), spread)
  }

  /** The byte at flat index `i` of the padded field, (width + 2 * spread) texels per row. */
  function FieldIndexed(bitmap: seq<byte>, width: nat, height: nat, spread: nat, i: int): byte
    requires |bitmap| == width * height && spread > 0
  {
    var w := width + 2 * spread;
    FieldAt(bitmap, width, height, spread, i % w, i / w)
  }

  /** The whole padded field, row-major. */
  function Field(bitmap: seq<byte>, width: nat, height: nat, spread: nat): (f: seq<byte>)
    requires |bitmap| == width * height && spread > 0
    ensures |f| == (width + 2 * spread) * (height + 2 * spread)
  {
    seq((width + 2 * spread) * (height + 2 * spread), i => FieldIndexed(bitmap, width, height, spread, i))
  }

  /** The inner two loops of GenerateSDFTexture: `minDist` for one padded texel, squared. */
  method NearestCoveredDistSq(bitmap: seq<byte>, width: nat, height: nat, spread: nat, x: int, y: int)
    returns (minDist: int)
    requires |bitmap| == width * height
    ensures minDist == NearestDistSq(bitmap, width, height, spread, x, y)
  {
    minDist := spread * spread;
    var sy := 0;
    while sy < height
      invariant 0 <= sy <= height
      invariant minDist == ScanMin(bitmap, width, height, spread, x, y, 0, sy)
    {
      var sx := 0;
      while sx < width
        invariant 0 <= sx <= width
        invariant minDist == ScanMin(bitmap, width, height, spread, x, y, sx, sy)
      {
        IndexInBounds(sx, sy, width, height);
        if bitmap[sy * width + sx] > 0 {
          var dist := DistSq(x, y, sx, sy, spread);
          if dist < minDist {
            minDist := dist;
          }
        }
        sx := sx + 1;
      }
      sy := sy + 1;
    }
  }

  /** GenerateSDFTexture: a new (width + 2 spread) x (height + 2 spread) buffer holding the field. */
  method GenerateSDFTexture(bitmap: seq<byte>, width: nat, height: nat, spread: nat)
    returns (sdfData: array<byte>)
    requires spread > 0 && |bitmap| == width * height
    ensures sdfData[..] == Field(bitmap, width, height, spread)
  {
    var sdfWidth := width + 2 * spread;
    var sdfHeight := height + 2 * spread;
    sdfData := new byte[sdfWidth * sdfHeight];
    // memset: the buffer is all zeros before the rows are filled, each of which overwrites its texels.
    var i := 0;
    while i < sdfWidth * sdfHeight
      invariant 0 <= i <= sdfData.Length
      invariant forall j :: 0 <= j < i ==> sdfData[j] == 0
    {
      sdfData[i] := 0;
      i := i + 1;
    }
    var y := 0;
    while y < sdfHeight
      invariant 0 <= y <= sdfHeight
      invariant forall k :: 0 <= k < y * sdfWidth && k < sdfData.Length ==>
        sdfData[k] == FieldIndexed(bitmap, width, height, spread, k)
    {
      FillRow(bitmap, width, height, spread, sdfData, y);
      y := y + 1;
    }
    assert sdfData.Length == sdfHeight * sdfWidth;
  }

  /** One pass of GenerateSDFTexture's outer loop: row y of the padded field is written, earlier rows are kept. */
  method FillRow(bitmap: seq<byte>, width: nat, height: nat, spread: nat, sdfData: array<byte>, y: nat)
    requires spread > 0 && |bitmap| == width * height
    requires sdfData.Length == (width + 2 * spread) * (height + 2 * spread) && y < height + 2 * spread
    requires forall k :: 0 <= k < y * (width + 2 * spread) && k < sdfData.Length ==>
      sdfData[k] == FieldIndexed(bitmap, width, height, spread, k)
    modifies sdfData
    ensures forall k :: 0 <= k < (y + 1) * (width + 2 * spread) && k < sdfData.Length ==>
      sdfData[k] == FieldIndexed(bitmap, width, height, spread, k)
  {
    var sdfWidth := width + 2 * spread;
    var rowStart := y * sdfWidth;
    MulMonotone(sdfWidth, y + 1, height + 2 * spread);
    assert rowStart + sdfWidth == (y + 1) * sdfWidth <= sdfData.Length;
    var x := 0;
    while x < sdfWidth
      invariant 0 <= x <= sdfWidth
      invariant forall k :: 0 <= k < rowStart + x ==> sdfData[k] == FieldIndexed(bitmap, width, height, spread, k)
    {
      var minDist := NearestCoveredDistSq(bitmap, width, height, spread, x, y);
      RowMajorCoordinates(x, y, sdfWidth);
      sdfData[rowStart + x] := DistanceByte(minDist, spread);
      x := x + 1;
    }
  }

  lemma CapExceedsEveryPositiveByte(s2: int, a: int)
    requires s2 > 0 && 0 <= a <= 254
    ensures a * a * s2 < 65025 * s2
  {
    MulMonotone(a, a, 254);
    MulMonotone(254, a, 254);
    assert a * a <= 64516;
    MulMonotone(s2, a * a, 64516);
    assert a * a * s2 == s2 * (a * a);
  }

  /** The byte mapping's end points: 255 at distance 0 and 0 at the cap. */
  lemma {:induction false} DistanceByteEndPoints(spread: nat)
    requires spread > 0
    ensures DistanceByte(0, spread) == 255
    ensures DistanceByte(spread * spread, spread) == 0
  {
    assert Fits(0, spread, 255);
    var s2 := spread * spread;
    MulMonotone(spread, 1, spread);
    var v := DistanceByte(s2, spread);
    if v > 0 {
      CapExceedsEveryPositiveByte(s2, 255 - v);
      assert false;
    }
  }

  /** A nearer covered pixel never gives a smaller byte. */
  lemma {:induction false} DistanceByteMonotone(m1: int, m2: int, spread: nat)
    requires spread > 0 && 0 <= m1 <= m2 <= spread * spread
    ensures DistanceByte(m1, spread) >= DistanceByte(m2, spread)
  {
    var v1, v2 := DistanceByte(m1, spread), DistanceByte(m2, spread);
    assert Fits(m1, spread, v2);
  }

  /** No covered source pixel lies closer than `spread` to padded texel (x, y). */
  predicate NothingCoveredWithin(bitmap: seq<byte>, width: nat, height: nat, spread: nat, x: int, y: int)
    requires |bitmap| == width * height
  {
    forall px, py :: 0 <= px < width && 0 <= py < height && Pixel(bitmap, width, height, px, py) > 0 ==>
      DistSq(x, y, px, py, spread) >= spread * spread
  }

  /** The texel over a covered source pixel is 255. */
  lemma CoveredPixelIs255(bitmap: seq<byte>, width: nat, height: nat, spread: nat, sx: nat, sy: nat)
    requires |bitmap| == width * height && spread > 0
    requires sx < width && sy < height && Pixel(bitmap, width, height, sx, sy) > 0
    ensures FieldAt(bitmap, width, height, spread, sx + spread, sy + spread) == 255
  {
    var x, y := sx + spread, sy + spread;
    ScanMinIsMinimum(bitmap, width, height, spread, x, y, 0, height);
    assert CoveredBefore(bitmap, width, height, sx, sy, 0, height);
    assert DistSq(x, y, sx, sy, spread) == 0;
    assert NearestDistSq(bitmap, width, height, spread, x, y) == 0;
    DistanceByteEndPoints(spread);
  }

  /** A texel with no covered source pixel closer than `spread` is 0. */
  lemma FarTexelIsZero(bitmap: seq<byte>, width: nat, height: nat, spread: nat, x: int, y: int)
    requires |bitmap| == width * height && spread > 0
    requires NothingCoveredWithin(bitmap, width, height, spread, x, y)
    ensures FieldAt(bitmap, width, height, spread, x, y) == 0
  {
    ScanMinIsMinimum(bitmap, width, height, spread, x, y, 0, height);
    DistanceByteEndPoints(spread);
  }

  /** An all-zero bitmap yields an all-zero field of the padded size. */
  lemma BlankBitmapGivesBlankField(bitmap: seq<byte>, width: nat, height: nat, spread: nat)
    requires |bitmap| == width * height && spread > 0
    requires forall i :: 0 <= i < |bitmap| ==> bitmap[i] == 0
    ensures Field(bitmap, width, height, spread) == seq((width + 2 * spread) * (height + 2 * spread), _ => 0)
  {
    var w := width + 2 * spread;
    var f := Field(bitmap, width, height, spread);
    forall i | 0 <= i < |f| ensures f[i] == 0 {
      forall px, py | 0 <= px < width && 0 <= py < height
        ensures Pixel(bitmap, width, height, px, py) == 0
      {
        IndexInBounds(px, py, width, height);
      }
      FarTexelIsZero(bitmap, width, height, spread, i % w, i / w);
    }
  }
}
