/**
 * LoadSDFFont: rasterise codes 32..127, turn each glyph into a distance
 * field, pack the fields into one 1024 x 1024 single-channel atlas with a
 * shelf (row) packer, and record one SDFCharacter per code.
 *
 * FreeType is not modelled: what FT_Init_FreeType/FT_New_Face and
 * FT_Load_Char produce for the font is the input `FontFace`. The GL texture
 * is its handle (what glGenTextures returns, an input) and its contents
 * (the packed atlas that glTexImage2D uploads).
 *
 * The packer's behaviour is first given as functions over values (PackFrom,
 * Paint, PaintAll); the imperative LoadSDFFont is proved to compute exactly
 * that, and the packing properties are lemmas about the functions.
 */
module SdfFont {
  import opened Common
  import opened DistanceField

  const AtlasWidth: nat := 1024
  const AtlasHeight: nat := 1024
  /** The codes loaded are FirstCode .. EndCode - 1. */
  const FirstCode: int := 32
  const EndCode: int := 128
  const CodeCount: nat := 96

  datatype IVec2 = IVec2(x: int, y: int)
  datatype Vec2 = Vec2(x: real, y: real)

  /** SDFCharacter: advance is in 1/64 pixel; atlasPos and atlasSize are atlas-relative (texels / atlas size). */
  datatype SDFCharacter = SDFCharacter(
    textureID: nat, size: IVec2, bearing: IVec2, advance: int, atlasPos: Vec2, atlasSize: Vec2)

  /** What FT_Load_Char(face, c, FT_LOAD_RENDER) leaves in the glyph slot, or its failure. */
  datatype GlyphRaster =
    | RasterFailed
    | Rendered(width: nat, height: nat, buffer: seq<byte>, left: int, top: int, advance: int)

  /** The font as FreeType opens it: failure of library or face, or the rasters of codes 32..127 in order. */
  datatype FontFace = FaceFailed | Face(glyphs: seq<GlyphRaster>)

  /**
   * What the loader needs of the rasteriser's output: a rows x width buffer
   * per glyph (pitch == width), and padded glyphs no wider than the atlas (a
   * wider one would be written past the end of its row and of the buffer).
   */
  predicate FaceFits(glyphs: seq<GlyphRaster>, spread: nat) {
    |glyphs| == CodeCount &&
    forall k :: 0 <= k < |glyphs| && glyphs[k].Rendered? ==>
      |glyphs[k].buffer| == glyphs[k].width * glyphs[k].height &&
      glyphs[k].width + 2 * spread <= AtlasWidth
  }

  /** The packer's cursor: currentX, currentY and the height of the current shelf. */
  datatype Cursor = Cursor(x: int, y: int, maxHeight: int)

  /** A distance field copied into the atlas with its top-left texel at (x, y). */
  datatype Placement = Placement(code: int, x: int, y: int, width: int, height: int, texels: seq<byte>)

  predicate InAtlas(p: Placement) {
    0 <= p.x && 0 < p.width && p.x + p.width <= AtlasWidth &&
    0 <= p.y && 0 < p.height && p.y + p.height <= AtlasHeight &&
    |p.texels| == p.width * p.height
  }

  /** The outcome of one load: the table, the fields placed in order, and the code packing stopped at, if any. */
  datatype PackResult = PackResult(table: map<int, SDFCharacter>, placements: seq<Placement>, stoppedAt: Option<int>)

  /** The entry of a glyph with no pixels: zero size and atlas rectangle, real bearing and advance. */
  function EmptyGlyphEntry(left: int, top: int, advance: int): SDFCharacter {
    SDFCharacter(0, IVec2(0, 0), IVec2(left, top), advance, Vec2(0.0, 0.0), Vec2(0.0, 0.0))
  }

  /** The entry of a glyph whose field was placed at (x, y) with padded size sdfWidth x sdfHeight. */
  function PlacedEntry(x: int, y: int, sdfWidth: int, sdfHeight: int, left: int, top: int, advance: int): SDFCharacter {
    SDFCharacter(0, IVec2(sdfWidth, sdfHeight), IVec2(left, top), advance,
      Vec2(x as real / AtlasWidth as real, y as real / AtlasHeight as real),
      Vec2(sdfWidth as real / AtlasWidth as real, sdfHeight as real / AtlasHeight as real))
  }

  /** Start a new shelf when the field does not fit in what is left of the current one. */
  function Wrap(cur: Cursor, sdfWidth: int): (r: Cursor)
    ensures 0 <= cur.x && 0 <= sdfWidth <= AtlasWidth ==> 0 <= r.x && r.x + sdfWidth <= AtlasWidth
    ensures 0 <= cur.maxHeight ==> cur.y <= r.y <= cur.y + cur.maxHeight
  {
    if cur.x + sdfWidth > AtlasWidth then Cursor(0, cur.y + cur.maxHeight, 0) else cur
  }

  /** What the packer has built before code FirstCode + k: its cursor, the table and the fields placed. */
  datatype PackState = PackState(cursor: Cursor, table: map<int, SDFCharacter>, placed: seq<Placement>)

  /** One code's effect: the next state, or the stop when the field would run past the atlas bottom. */
  datatype StepOutcome = Next(state: PackState) | Overflow

  /** Code FirstCode + k has pixels and, after the shelf wrap, its field would run past the atlas bottom. */
  predicate PastBottom(glyphs: seq<GlyphRaster>, spread: nat, k: nat, cur: Cursor)
    requires k < |glyphs|
  {
    var g := glyphs[k];
    g.Rendered? && g.width > 0 && g.height > 0 &&
    Wrap(cur, g.width + 2 * spread).y + g.height + 2 * spread > AtlasHeight
  }

  /** The body of the loop for code FirstCode + k: it stops the loop exactly when the field runs past the bottom. */
  function PackStep(glyphs: seq<GlyphRaster>, spread: nat, k: nat, st: PackState): (r: StepOutcome)
    requires spread > 0 && FaceFits(glyphs, spread) && k < |glyphs|
    ensures r.Overflow? <==> PastBottom(glyphs, spread, k, st.cursor)
  {
    var code := FirstCode + k;
    match glyphs[k]
    case RasterFailed => Next(st)
    case Rendered(width, height, buffer, left, top, advance) =>
      if width == 0 || height == 0 then
        Next(st.(table := st.table[code := EmptyGlyphEntry(left, top, advance)]))
      else
        var sdfWidth, sdfHeight := width + 2 * spread, height + 2 * spread;
        var at := Wrap(st.cursor, sdfWidth);
        if at.y + sdfHeight > AtlasHeight then Overflow
        else
          var entry := PlacedEntry(at.x, at.y, sdfWidth, sdfHeight, left, top, advance);
          var p := Placement(code, at.x, at.y, sdfWidth, sdfHeight, Field(buffer, width, height, spread));
          var next := Cursor(at.x + sdfWidth, at.y, if sdfHeight > at.maxHeight then sdfHeight else at.maxHeight);
          Next(PackState(next, st.table[code := entry], st.placed + [p]))
  }

  /** Packing from code FirstCode + k to the end of the range, or to the first overflow. */
  function PackFrom(glyphs: seq<GlyphRaster>, spread: nat, k: nat, st: PackState): (r: PackResult)
    requires spread > 0 && FaceFits(glyphs, spread) && k <= |glyphs|
    ensures r.stoppedAt.Some? ==> FirstCode + k <= r.stoppedAt.value < FirstCode + |glyphs|
    decreases |glyphs| - k
  {
    if k == |glyphs| then PackResult(st.table, st.placed, None)
    else
      match PackStep(glyphs, spread, k, st)
      case Overflow => PackResult(st.table, st.placed, Some(FirstCode + k))
      case Next(st') => PackFrom(glyphs, spread, k + 1, st')
  }

  /** A whole load pass over codes 32..127, starting from the table as it was. */
  function Pack(glyphs: seq<GlyphRaster>, spread: nat, table: map<int, SDFCharacter>): (r: PackResult)
    requires spread > 0 && FaceFits(glyphs, spread)
    ensures r.stoppedAt.Some? ==> FirstCode <= r.stoppedAt.value < EndCode
  {
    PackFrom(glyphs, spread, 0, PackState(Cursor(0, 0, 0), table, []))
  }

  /** Atlas texel (x, y) lies in the placement's rectangle. */
  predicate InRect(p: Placement, x: int, y: int) {
    p.x <= x < p.x + p.width && p.y <= y < p.y + p.height
  }

  /** The field texel a placement puts at atlas texel (x, y). */
  function TexelOf(p: Placement, x: int, y: int): byte
    requires InAtlas(p) && InRect(p, x, y)
  {
    IndexInBounds(x - p.x, y - p.y, p.width, p.height);
    p.texels[(y - p.y) * p.width + (x - p.x)]
  }

  /** The all-zero atlas after memset. */
  function BlankAtlas(): (a: seq<byte>)
    ensures |a| == AtlasWidth * AtlasHeight
  {
    seq(AtlasWidth * AtlasHeight, _ => 0)
  }

  function PaintedAt(atlas: seq<byte>, p: Placement, i: int): byte
    requires InAtlas(p) && 0 <= i < |atlas|
  {
    var x, y := i % AtlasWidth, i / AtlasWidth;
    if InRect(p, x, y) then TexelOf(p, x, y) else atlas[i]
  }

  /** The atlas after one field is copied in: its rectangle takes the field, every other texel is kept. */
  function Paint(atlas: seq<byte>, p: Placement): (r: seq<byte>)
    requires InAtlas(p)
    ensures |r| == |atlas|
  {
    seq(|atlas|, i requires 0 <= i < |atlas| => PaintedAt(atlas, p, i))
  }

  /** The atlas after the fields are copied in, in order. */
  function PaintAll(atlas: seq<byte>, ps: seq<Placement>): (r: seq<byte>)
    requires forall j :: 0 <= j < |ps| ==> InAtlas(ps[j])
    ensures |r| == |atlas|
  {
    if ps == [] then atlas else Paint(PaintAll(atlas, ps[..|ps| - 1]), ps[|ps| - 1])
  }

  /** Every entry refers to the atlas texture `texture`. */
  function WithTexture(table: map<int, SDFCharacter>, texture: nat): (r: map<int, SDFCharacter>)
  {
    map c | c in table :: table[c].(textureID := texture)
  }

  /** Atlas texel (x, y) is in the placement's rectangle and the copy loops have passed it at row y, column x. */
  predicate CopiedBefore(p: Placement, ax: int, ay: int, x: int, y: int) {
    InRect(p, ax, ay) && Earlier(ax - p.x, ay - p.y, x, y)
  }

  /** The copy loops of LoadSDFFont: `atlasData[(currentY + y) * atlasWidth + currentX + x] = sdfData[y * sdfWidth + x]`. */
  method CopyIntoAtlas(atlasData: array<byte>, p: Placement)
    requires atlasData.Length == AtlasWidth * AtlasHeight && InAtlas(p)
    modifies atlasData
    ensures atlasData[..] == Paint(old(atlasData[..]), p)
  {
    var y := 0;
    while y < p.height
      invariant 0 <= y <= p.height
      invariant forall i :: 0 <= i < atlasData.Length ==> (atlasData[i] ==
        if CopiedBefore(p, i % AtlasWidth, i / AtlasWidth, 0, y) then TexelOf(p, i % AtlasWidth, i / AtlasWidth)
        else old(atlasData[i]))
    {
      var x := 0;
      while x < p.width
        invariant 0 <= x <= p.width
        invariant forall i :: 0 <= i < atlasData.Length ==> (atlasData[i] ==
          if CopiedBefore(p, i % AtlasWidth, i / AtlasWidth, x, y) then TexelOf(p, i % AtlasWidth, i / AtlasWidth)
          else old(atlasData[i]))
      {
        IndexInBounds(p.x + x, p.y + y, AtlasWidth, AtlasHeight);
        RowMajorCoordinates(p.x + x, p.y + y, AtlasWidth);
        IndexInBounds(x, y, p.width, p.height);
        var atlasIndex := (p.y + y) * AtlasWidth + (p.x + x);
        var sdfIndex := y * p.width + x;
        atlasData[atlasIndex] := p.texels[sdfIndex];
        x := x + 1;
      }
      y := y + 1;
    }
  }

  /** The range of GLchar, the key type of the character map. */
  const MinChar: int := -128
  const MaxChar: int := 127

  predicate CharKeys(table: map<int, SDFCharacter>) {
    forall c :: c in table ==> MinChar <= c <= MaxChar
  }

  predicate AllInAtlas(ps: seq<Placement>) {
    forall j :: 0 <= j < |ps| ==> InAtlas(ps[j])
  }

  // ---------------------------------------------------------------------
  // Layout: every placed field lies inside the atlas and no two overlap.
  // ---------------------------------------------------------------------

  /** Two placements share no texel. */
  predicate Apart(p: Placement, q: Placement) {
    p.x + p.width <= q.x || q.x + q.width <= p.x || p.y + p.height <= q.y || q.y + q.height <= p.y
  }

  predicate Disjoint(ps: seq<Placement>) {
    forall i, j :: 0 <= i < j < |ps| ==> Apart(ps[i], ps[j])
  }

  /** A placed field is on a finished shelf above the cursor, or on the cursor's shelf to its left and no taller than it. */
  predicate Settled(p: Placement, cur: Cursor) {
    p.y + p.height <= cur.y || (p.y == cur.y && p.x + p.width <= cur.x && p.height <= cur.maxHeight)
  }

  /** The shelf packer's invariant: the cursor is inside the atlas row and every field placed so far is behind it. */
  predicate ShelfInvariant(st: PackState) {
    0 <= st.cursor.x <= AtlasWidth && 0 <= st.cursor.y && 0 <= st.cursor.maxHeight &&
    forall j :: 0 <= j < |st.placed| ==> Settled(st.placed[j], st.cursor)
  }

  /** The atlas rectangle of an entry lies in the unit square, and its size is its texel size over the atlas size. */
  predicate UnitRect(e: SDFCharacter) {
    0 <= e.size.x && 0 <= e.size.y &&
    0.0 <= e.atlasPos.x && e.atlasPos.x + e.atlasSize.x <= 1.0 &&
    0.0 <= e.atlasPos.y && e.atlasPos.y + e.atlasSize.y <= 1.0 &&
    e.atlasSize == Vec2(e.size.x as real / AtlasWidth as real, e.size.y as real / AtlasHeight as real)
  }

  predicate EntriesInUnitSquare(table: map<int, SDFCharacter>) {
    forall c :: c in table ==> UnitRect(table[c])
  }

  /** One code keeps the layout invariants: a new field goes behind the cursor, apart from all earlier ones. */
  lemma StepKeepsLayout(glyphs: seq<GlyphRaster>, spread: nat, k: nat, st: PackState)
    requires spread > 0 && FaceFits(glyphs, spread) && k < |glyphs|
    requires ShelfInvariant(st) && AllInAtlas(st.placed) && Disjoint(st.placed) && EntriesInUnitSquare(st.table)
    ensures PackStep(glyphs, spread, k, st).Next? ==>
      var st' := PackStep(glyphs, spread, k, st).state;
      ShelfInvariant(st') && AllInAtlas(st'.placed) && Disjoint(st'.placed) && EntriesInUnitSquare(st'.table)
  {
    var code := FirstCode + k;
    var g := glyphs[k];
    if g.Rendered? && g.width > 0 && g.height > 0 {
      var sdfWidth, sdfHeight := g.width + 2 * spread, g.height + 2 * spread;
      var at := Wrap(st.cursor, sdfWidth);
      if at.y + sdfHeight <= AtlasHeight {
        var p := Placement(code, at.x, at.y, sdfWidth, sdfHeight, Field(g.buffer, g.width, g.height, spread));
        var next := Cursor(at.x + sdfWidth, at.y, if sdfHeight > at.maxHeight then sdfHeight else at.maxHeight);
        var entry := PlacedEntry(at.x, at.y, sdfWidth, sdfHeight, g.left, g.top, g.advance);
        assert PackStep(glyphs, spread, k, st).state == PackState(next, st.table[code := entry], st.placed + [p]);
        PlaceBehindCursor(st.placed, st.cursor, p);
        PlacedEntryInUnitSquare(at.x, at.y, sdfWidth, sdfHeight, g.left, g.top, g.advance);
      }
    }
  }

  /** A field placed at the wrapped cursor lies in the atlas, apart from the settled ones, and behind the moved cursor. */
  lemma PlaceBehindCursor(placed: seq<Placement>, cur: Cursor, p: Placement)
    requires 0 <= cur.x <= AtlasWidth && 0 <= cur.y && 0 <= cur.maxHeight
    requires forall j :: 0 <= j < |placed| ==> Settled(placed[j], cur)
    requires AllInAtlas(placed) && Disjoint(placed)
    requires 0 < p.width <= AtlasWidth && 0 < p.height && |p.texels| == p.width * p.height
    requires p.x == Wrap(cur, p.width).x && p.y == Wrap(cur, p.width).y && p.y + p.height <= AtlasHeight
    ensures var at := Wrap(cur, p.width);
      var next := Cursor(at.x + p.width, at.y, if p.height > at.maxHeight then p.height else at.maxHeight);
      var placed' := placed + [p];
      0 <= next.x <= AtlasWidth && 0 <= next.y && 0 <= next.maxHeight &&
      (forall j :: 0 <= j < |placed'| ==> Settled(placed'[j], next)) &&
      AllInAtlas(placed') && Disjoint(placed')
  {
    var at := Wrap(cur, p.width);
    var placed' := placed + [p];
    assert forall j :: 0 <= j < |placed| ==> Apart(placed[j], p) && Settled(placed[j], at);
    assert forall j :: 0 <= j < |placed'| ==> placed'[j] == if j < |placed| then placed[j] else p;
  }

  /** The entry of a field inside the atlas has its rectangle in the unit square. */
  lemma PlacedEntryInUnitSquare(x: int, y: int, sdfWidth: int, sdfHeight: int, left: int, top: int, advance: int)
    requires 0 <= x && 0 < sdfWidth && x + sdfWidth <= AtlasWidth
    requires 0 <= y && 0 < sdfHeight && y + sdfHeight <= AtlasHeight
    ensures UnitRect(PlacedEntry(x, y, sdfWidth, sdfHeight, left, top, advance))
  {
    var e := PlacedEntry(x, y, sdfWidth, sdfHeight, left, top, advance);
    assert e.atlasPos.x + e.atlasSize.x == (x + sdfWidth) as real / AtlasWidth as real;
    assert e.atlasPos.y + e.atlasSize.y == (y + sdfHeight) as real / AtlasHeight as real;
  }

  lemma {:induction false} PackFromLayout(glyphs: seq<GlyphRaster>, spread: nat, k: nat, st: PackState)
    requires spread > 0 && FaceFits(glyphs, spread) && k <= |glyphs|
    requires ShelfInvariant(st) && AllInAtlas(st.placed) && Disjoint(st.placed) && EntriesInUnitSquare(st.table)
    ensures var r := PackFrom(glyphs, spread, k, st);
      AllInAtlas(r.placements) && Disjoint(r.placements) && EntriesInUnitSquare(r.table)
    decreases |glyphs| - k
  {
    if k < |glyphs| {
      StepKeepsLayout(glyphs, spread, k, st);
      match PackStep(glyphs, spread, k, st)
      case Overflow =>
      case Next(st') => PackFromLayout(glyphs, spread, k + 1, st');
    }
  }

  /**
   * The packed rectangles lie inside the atlas and do not overlap, and when
   * the table's entries had unit-square atlas rectangles, so do all entries
   * after the load.
   */
  lemma PackLayout(glyphs: seq<GlyphRaster>, spread: nat, table: map<int, SDFCharacter>)
    requires spread > 0 && FaceFits(glyphs, spread)
    ensures AllInAtlas(Pack(glyphs, spread, table).placements)
    ensures Disjoint(Pack(glyphs, spread, table).placements)
    ensures EntriesInUnitSquare(table) ==> EntriesInUnitSquare(Pack(glyphs, spread, table).table)
  {
    if EntriesInUnitSquare(table) {
      PackFromLayout(glyphs, spread, 0, PackState(Cursor(0, 0, 0), table, []));
    } else {
      PackFromPlacementsIgnoreTable(glyphs, spread, 0, PackState(Cursor(0, 0, 0), table, []), map[]);
      PackFromLayout(glyphs, spread, 0, PackState(Cursor(0, 0, 0), map[], []));
    }
  }

  /** Where the fields go does not depend on the entries already in the table. */
  lemma {:induction false} PackFromPlacementsIgnoreTable(glyphs: seq<GlyphRaster>, spread: nat, k: nat,
                                                        st: PackState, other: map<int, SDFCharacter>)
    requires spread > 0 && FaceFits(glyphs, spread) && k <= |glyphs|
    ensures PackFrom(glyphs, spread, k, st).placements == PackFrom(glyphs, spread, k, st.(table := other)).placements
    decreases |glyphs| - k
  {
    if k < |glyphs| {
      match PackStep(glyphs, spread, k, st)
      case Overflow =>
      case Next(st') =>
        var st2 := PackStep(glyphs, spread, k, st.(table := other)).state;
        assert st2 == st'.(table := st2.table);
        PackFromPlacementsIgnoreTable(glyphs, spread, k + 1, st', st2.table);
    }
  }

  // ---------------------------------------------------------------------
  // Entries: which codes get one, and what it holds.
  // ---------------------------------------------------------------------

  /** The first code after the pass: the overflowing code, or EndCode when every code was processed. */
  function StopCode(r: PackResult): int {
    if r.stoppedAt.Some? then r.stoppedAt.value else EndCode
  }

  /** Code c has the same entry (or the same absence of one) in both tables. */
  predicate Kept(before: map<int, SDFCharacter>, after: map<int, SDFCharacter>, c: int) {
    (c in after <==> c in before) && (c in before ==> after[c] == before[c])
  }

  /** An entry records the glyph's bearing and advance, its padded size, and no atlas rectangle when it has no pixels. */
  predicate HasGlyphMetrics(e: SDFCharacter, g: GlyphRaster, spread: nat)
    requires g.Rendered?
  {
    e.bearing == IVec2(g.left, g.top) && e.advance == g.advance &&
    if g.width == 0 || g.height == 0 then
      e.size == IVec2(0, 0) && e.atlasPos == Vec2(0.0, 0.0) && e.atlasSize == Vec2(0.0, 0.0)
    else
      e.size == IVec2(g.width + 2 * spread, g.height + 2 * spread)
  }

  /** The code whose field did not fit was rendered with pixels. */
  predicate RenderedWithPixels(glyphs: seq<GlyphRaster>, c: int) {
    FirstCode <= c < FirstCode + |glyphs| && glyphs[c - FirstCode].Rendered? &&
    glyphs[c - FirstCode].width > 0 && glyphs[c - FirstCode].height > 0
  }

  lemma {:induction false} PackFromCodes(glyphs: seq<GlyphRaster>, spread: nat, k: nat, st: PackState)
    requires spread > 0 && FaceFits(glyphs, spread) && k <= |glyphs|
    ensures var r := PackFrom(glyphs, spread, k, st);
      FirstCode + k <= StopCode(r) <= EndCode &&
      (r.stoppedAt.Some? ==> RenderedWithPixels(glyphs, r.stoppedAt.value)) &&
      (forall c :: (c < FirstCode + k || StopCode(r) <= c) ==> Kept(st.table, r.table, c)) &&
      (forall c :: FirstCode + k <= c < StopCode(r) && glyphs[c - FirstCode].RasterFailed? ==> Kept(st.table, r.table, c)) &&
      (forall c :: FirstCode + k <= c < StopCode(r) && glyphs[c - FirstCode].Rendered? ==>
        c in r.table && HasGlyphMetrics(r.table[c], glyphs[c - FirstCode], spread))
    decreases |glyphs| - k
  {
    if k < |glyphs| {
      var code := FirstCode + k;
      match PackStep(glyphs, spread, k, st)
      case Overflow =>
      case Next(st') =>
        PackFromCodes(glyphs, spread, k + 1, st');
        var r := PackFrom(glyphs, spread, k + 1, st');
        assert forall c :: c != code ==> Kept(st.table, st'.table, c);
        assert Kept(st'.table, r.table, code);
        if glyphs[k].RasterFailed? {
          assert st'.table == st.table;
        } else {
          assert code in st'.table && HasGlyphMetrics(st'.table[code], glyphs[k], spread);
        }
        forall c | c < FirstCode + k || StopCode(r) <= c ensures Kept(st.table, r.table, c) {
          assert Kept(st'.table, r.table, c);
        }
        forall c | FirstCode + k <= c < StopCode(r) && glyphs[c - FirstCode].RasterFailed?
          ensures Kept(st.table, r.table, c)
        {
          assert Kept(st'.table, r.table, c);
        }
    }
  }

  /**
   * What one load does to the table, code by code: codes outside 32..127,
   * codes the rasteriser failed on, and the code that overflowed the atlas
   * with every later one keep whatever entry (or absence of one) they had;
   * every other rendered code gets an entry with the glyph's metrics.
   */
  lemma PackCodes(glyphs: seq<GlyphRaster>, spread: nat, table: map<int, SDFCharacter>)
    requires spread > 0 && FaceFits(glyphs, spread)
    ensures var r := Pack(glyphs, spread, table);
      (r.stoppedAt.Some? ==> RenderedWithPixels(glyphs, r.stoppedAt.value)) &&
      (forall c :: (c < FirstCode || StopCode(r) <= c) ==> Kept(table, r.table, c)) &&
      (forall c :: FirstCode <= c < StopCode(r) && glyphs[c - FirstCode].RasterFailed? ==> Kept(table, r.table, c)) &&
      (forall c :: FirstCode <= c < StopCode(r) && glyphs[c - FirstCode].Rendered? ==>
        c in r.table && HasGlyphMetrics(r.table[c], glyphs[c - FirstCode], spread))
  {
    PackFromCodes(glyphs, spread, 0, PackState(Cursor(0, 0, 0), table, []));
  }

  // ---------------------------------------------------------------------
  // When the packer stops.
  // ---------------------------------------------------------------------

  /**
   * The loop state just before code FirstCode + k + n, running from state
   * st at code FirstCode + k, or Overflow when a code before it stopped the loop.
   */
  function Run(glyphs: seq<GlyphRaster>, spread: nat, k: nat, st: PackState, n: nat): StepOutcome
    requires spread > 0 && FaceFits(glyphs, spread) && k + n <= |glyphs|
    decreases n
  {
    if n == 0 then Next(st)
    else
      match PackStep(glyphs, spread, k, st)
      case Overflow => Overflow
      case Next(st') => Run(glyphs, spread, k + 1, st', n - 1)
  }

  /**
   * The loop stops at the first code whose field, after the shelf wrap,
   * would run past the atlas bottom: every code before the stop is reached
   * and fits; at the stop code the field does not fit, and the table and the
   * placements are those reached before it. Without a stop, every code is
   * passed and the result is the final state.
   */
  lemma {:induction false} PackFromStop(glyphs: seq<GlyphRaster>, spread: nat, k: nat, st: PackState)
    requires spread > 0 && FaceFits(glyphs, spread) && k <= |glyphs|
    ensures var r := PackFrom(glyphs, spread, k, st);
      forall n :: k + n < |glyphs| && FirstCode + k + n < StopCode(r) ==>
        Run(glyphs, spread, k, st, n).Next? &&
        !PastBottom(glyphs, spread, k + n, Run(glyphs, spread, k, st, n).state.cursor)
    ensures var r := PackFrom(glyphs, spread, k, st);
      r.stoppedAt.Some? ==>
        var n := r.stoppedAt.value - FirstCode - k;
        0 <= n && k + n < |glyphs| && Run(glyphs, spread, k, st, n).Next? &&
        PastBottom(glyphs, spread, k + n, Run(glyphs, spread, k, st, n).state.cursor) &&
        r.table == Run(glyphs, spread, k, st, n).state.table &&
        r.placements == Run(glyphs, spread, k, st, n).state.placed
    ensures var r := PackFrom(glyphs, spread, k, st);
      r.stoppedAt.None? ==>
        Run(glyphs, spread, k, st, |glyphs| - k).Next? &&
        r.table == Run(glyphs, spread, k, st, |glyphs| - k).state.table &&
        r.placements == Run(glyphs, spread, k, st, |glyphs| - k).state.placed
    decreases |glyphs| - k
  {
    var r := PackFrom(glyphs, spread, k, st);
    assert Run(glyphs, spread, k, st, 0) == Next(st);
    if k < |glyphs| {
      match PackStep(glyphs, spread, k, st)
      case Overflow =>
        assert r.stoppedAt == Some(FirstCode + k);
      case Next(st') =>
        PackFromStop(glyphs, spread, k + 1, st');
        assert r == PackFrom(glyphs, spread, k + 1, st');
        RunAfterStep(glyphs, spread, k, st, st');
    }
  }

  /** After a code that does not stop the loop, the run continues from the state it leaves. */
  lemma RunAfterStep(glyphs: seq<GlyphRaster>, spread: nat, k: nat, st: PackState, st': PackState)
    requires spread > 0 && FaceFits(glyphs, spread) && k < |glyphs|
    requires PackStep(glyphs, spread, k, st) == Next(st')
    ensures forall n :: 0 < n && k + n <= |glyphs| ==>
      Run(glyphs, spread, k, st, n) == Run(glyphs, spread, k + 1, st', n - 1)
  {
  }

  /** The stop of a whole load, from the empty shelf at code 32. */
  lemma PackStop(glyphs: seq<GlyphRaster>, spread: nat, table: map<int, SDFCharacter>)
    requires spread > 0 && FaceFits(glyphs, spread)
    ensures var r := Pack(glyphs, spread, table);
      var start := PackState(Cursor(0, 0, 0), table, []);
      (forall n: nat :: n < |glyphs| && FirstCode + n < StopCode(r) ==>
        Run(glyphs, spread, 0, start, n).Next? &&
        !PastBottom(glyphs, spread, n, Run(glyphs, spread, 0, start, n).state.cursor)) &&
      (r.stoppedAt.Some? ==>
        var n := r.stoppedAt.value - FirstCode;
        0 <= n < |glyphs| && Run(glyphs, spread, 0, start, n).Next? &&
        PastBottom(glyphs, spread, n, Run(glyphs, spread, 0, start, n).state.cursor) &&
        r.table == Run(glyphs, spread, 0, start, n).state.table &&
        r.placements == Run(glyphs, spread, 0, start, n).state.placed)
  {
    var start := PackState(Cursor(0, 0, 0), table, []);
    assert Pack(glyphs, spread, table) == PackFrom(glyphs, spread, 0, start);
    PackFromStop(glyphs, spread, 0, start);
  }

  /** Every glyph with pixels pads to at most 64 x 64 texels. */
  predicate SmallGlyphs(glyphs: seq<GlyphRaster>, spread: nat) {
    forall k :: 0 <= k < |glyphs| && glyphs[k].Rendered? && glyphs[k].width > 0 && glyphs[k].height > 0 ==>
      glyphs[k].width + 2 * spread <= 64 && glyphs[k].height + 2 * spread <= 64
  }

  /**
   * The room the shelves have used up before code FirstCode + k, measured as
   * 16 * y + x, grows by less than 128 per code while every field is at most
   * 64 x 64: a wrap happens only past x = 960 and costs at most one 64-high
   * shelf, i.e. 16 * 64 = 1024 against the x given up.
   */
  predicate SmallShelfState(cur: Cursor, k: nat) {
    0 <= cur.x <= AtlasWidth && 0 <= cur.y && 0 <= cur.maxHeight <= 64 &&
    16 * cur.y + cur.x <= 128 * k
  }

  /** One code with small glyphs never stops the loop and keeps the room bound. */
  lemma SmallGlyphStep(glyphs: seq<GlyphRaster>, spread: nat, k: nat, st: PackState)
    requires spread > 0 && FaceFits(glyphs, spread) && SmallGlyphs(glyphs, spread) && k < |glyphs|
    requires SmallShelfState(st.cursor, k)
    ensures PackStep(glyphs, spread, k, st).Next?
    ensures SmallShelfState(PackStep(glyphs, spread, k, st).state.cursor, k + 1)
  {
    var g := glyphs[k];
    if g.Rendered? && g.width > 0 && g.height > 0 {
      var sdfWidth, sdfHeight := g.width + 2 * spread, g.height + 2 * spread;
      var at := Wrap(st.cursor, sdfWidth);
      assert 16 * at.y + at.x <= 128 * k + 63;
      assert at.y + sdfHeight <= AtlasHeight;
    }
  }

  /** From a state within the room bound, small glyphs are all placed. */
  lemma {:induction false} SmallGlyphsFromFit(glyphs: seq<GlyphRaster>, spread: nat, k: nat, st: PackState)
    requires spread > 0 && FaceFits(glyphs, spread) && SmallGlyphs(glyphs, spread) && k <= |glyphs|
    requires SmallShelfState(st.cursor, k)
    ensures PackFrom(glyphs, spread, k, st).stoppedAt == None
    decreases |glyphs| - k
  {
    if k < |glyphs| {
      SmallGlyphStep(glyphs, spread, k, st);
      SmallGlyphsFromFit(glyphs, spread, k + 1, PackStep(glyphs, spread, k, st).state);
    }
  }

  /** When every glyph pads to at most 64 x 64 texels, all 96 codes fit in the atlas and packing never stops. */
  lemma SmallGlyphsAllFit(glyphs: seq<GlyphRaster>, spread: nat, table: map<int, SDFCharacter>)
    requires spread > 0 && FaceFits(glyphs, spread) && SmallGlyphs(glyphs, spread)
    ensures Pack(glyphs, spread, table).stoppedAt == None
  {
    SmallGlyphsFromFit(glyphs, spread, 0, PackState(Cursor(0, 0, 0), table, []));
  }

  /** A load adds keys only in 32..127, so the table's keys stay GLchar values. */
  lemma PackKeepsCharKeys(glyphs: seq<GlyphRaster>, spread: nat, table: map<int, SDFCharacter>)
    requires spread > 0 && FaceFits(glyphs, spread) && CharKeys(table)
    ensures CharKeys(Pack(glyphs, spread, table).table)
  {
    var r := Pack(glyphs, spread, table);
    PackCodes(glyphs, spread, table);
    forall c | c in r.table ensures MinChar <= c <= MaxChar {
      if c < FirstCode || StopCode(r) <= c {
        assert Kept(table, r.table, c);
      }
    }
  }

  // ---------------------------------------------------------------------
  // The atlas: each placed field shows in its rectangle, zero elsewhere.
  // ---------------------------------------------------------------------

  /** Placement p holds the field of its code's glyph, and the table's entry for that code describes p. */
  predicate PlacementOfGlyph(glyphs: seq<GlyphRaster>, spread: nat, table: map<int, SDFCharacter>, p: Placement) {
    0 <= p.code - FirstCode < |glyphs| &&
    var g := glyphs[p.code - FirstCode];
    g.Rendered? && g.width > 0 && g.height > 0 && spread > 0 && |g.buffer| == g.width * g.height &&
    p.width == g.width + 2 * spread && p.height == g.height + 2 * spread &&
    p.texels == Field(g.buffer, g.width, g.height, spread) &&
    p.code in table && table[p.code] == PlacedEntry(p.x, p.y, p.width, p.height, g.left, g.top, g.advance)
  }

  predicate CodesBelow(ps: seq<Placement>, bound: int) {
    forall j :: 0 <= j < |ps| ==> ps[j].code < bound
  }

  /** An update to another code leaves a placement's entry in place. */
  lemma EntryOfOtherCode(glyphs: seq<GlyphRaster>, spread: nat, table: map<int, SDFCharacter>,
                         c: int, e: SDFCharacter, p: Placement)
    requires PlacementOfGlyph(glyphs, spread, table, p) && p.code != c
    ensures PlacementOfGlyph(glyphs, spread, table[c := e], p)
  {
  }

  lemma StepKeepsEntries(glyphs: seq<GlyphRaster>, spread: nat, k: nat, st: PackState)
    requires spread > 0 && FaceFits(glyphs, spread) && k < |glyphs|
    requires CodesBelow(st.placed, FirstCode + k)
    requires forall j :: 0 <= j < |st.placed| ==> PlacementOfGlyph(glyphs, spread, st.table, st.placed[j])
    ensures PackStep(glyphs, spread, k, st).Next? ==>
      var st' := PackStep(glyphs, spread, k, st).state;
      CodesBelow(st'.placed, FirstCode + k + 1) &&
      forall j :: 0 <= j < |st'.placed| ==> PlacementOfGlyph(glyphs, spread, st'.table, st'.placed[j])
  {
    var code := FirstCode + k;
    var g := glyphs[k];
    if g.Rendered? && PackStep(glyphs, spread, k, st).Next? {
      var st' := PackStep(glyphs, spread, k, st).state;
      assert st'.table == st.table[code := st'.table[code]];
      forall j | 0 <= j < |st.placed|
        ensures PlacementOfGlyph(glyphs, spread, st'.table, st.placed[j])
      {
        EntryOfOtherCode(glyphs, spread, st.table, code, st'.table[code], st.placed[j]);
      }
      if g.width > 0 && g.height > 0 {
        assert st'.placed[..|st.placed|] == st.placed;
        assert PlacementOfGlyph(glyphs, spread, st'.table, st'.placed[|st.placed|]);
      } else {
        assert st'.placed == st.placed;
      }
    }
  }

  lemma {:induction false} PackFromEntries(glyphs: seq<GlyphRaster>, spread: nat, k: nat, st: PackState)
    requires spread > 0 && FaceFits(glyphs, spread) && k <= |glyphs|
    requires CodesBelow(st.placed, FirstCode + k)
    requires forall j :: 0 <= j < |st.placed| ==> PlacementOfGlyph(glyphs, spread, st.table, st.placed[j])
    ensures var r := PackFrom(glyphs, spread, k, st);
      forall j :: 0 <= j < |r.placements| ==> PlacementOfGlyph(glyphs, spread, r.table, r.placements[j])
    decreases |glyphs| - k
  {
    if k < |glyphs| {
      StepKeepsEntries(glyphs, spread, k, st);
      match PackStep(glyphs, spread, k, st)
      case Overflow =>
      case Next(st') =>
        PackFromEntries(glyphs, spread, k + 1, st');
        assert PackFrom(glyphs, spread, k, st) == PackFrom(glyphs, spread, k + 1, st');
    }
  }

  /** Every field placed by a load is its glyph's distance field, and its code's entry records where it went. */
  lemma PackEntries(glyphs: seq<GlyphRaster>, spread: nat, table: map<int, SDFCharacter>)
    requires spread > 0 && FaceFits(glyphs, spread)
    ensures var r := Pack(glyphs, spread, table);
      forall j :: 0 <= j < |r.placements| ==> PlacementOfGlyph(glyphs, spread, r.table, r.placements[j])
  {
    PackFromEntries(glyphs, spread, 0, PackState(Cursor(0, 0, 0), table, []));
    assert Pack(glyphs, spread, table) == PackFrom(glyphs, spread, 0, PackState(Cursor(0, 0, 0), table, []));
  }

  /** Texel i of the painted atlas: the field of the placement covering it, or the texel beneath. */
  lemma {:induction false} PaintAllShows(atlas: seq<byte>, ps: seq<Placement>, i: int)
    requires AllInAtlas(ps) && Disjoint(ps) && 0 <= i < |atlas|
    ensures forall j :: 0 <= j < |ps| && InRect(ps[j], i % AtlasWidth, i / AtlasWidth) ==>
      PaintAll(atlas, ps)[i] == TexelOf(ps[j], i % AtlasWidth, i / AtlasWidth)
    ensures (forall j :: 0 <= j < |ps| ==> !InRect(ps[j], i % AtlasWidth, i / AtlasWidth)) ==>
      PaintAll(atlas, ps)[i] == atlas[i]
    decreases |ps|
  {
    if ps != [] {
      var init, last := ps[..|ps| - 1], ps[|ps| - 1];
      var x, y := i % AtlasWidth, i / AtlasWidth;
      assert forall j :: 0 <= j < |init| ==> init[j] == ps[j];
      PaintAllShows(atlas, init, i);
      forall j | 0 <= j < |init| && InRect(init[j], x, y)
        ensures !InRect(last, x, y)
      {
        assert Apart(ps[j], ps[|ps| - 1]);
      }
    }
  }

  /**
   * The atlas a load uploads: inside the rectangle of each placed field it
   * holds that field (the placed glyph's own distance field), and every
   * texel outside all rectangles is 0.
   */
  lemma PackedAtlas(glyphs: seq<GlyphRaster>, spread: nat, table: map<int, SDFCharacter>)
    requires spread > 0 && FaceFits(glyphs, spread)
    ensures var r := Pack(glyphs, spread, table);
      AllInAtlas(r.placements) &&
      (forall j, i | 0 <= j < |r.placements| && 0 <= i < AtlasWidth * AtlasHeight &&
                     InRect(r.placements[j], i % AtlasWidth, i / AtlasWidth) ::
        PaintAll(BlankAtlas(), r.placements)[i] == TexelOf(r.placements[j], i % AtlasWidth, i / AtlasWidth)) &&
      (forall i | 0 <= i < AtlasWidth * AtlasHeight &&
                  (forall j :: 0 <= j < |r.placements| ==> !InRect(r.placements[j], i % AtlasWidth, i / AtlasWidth)) ::
        PaintAll(BlankAtlas(), r.placements)[i] == 0)
  {
    var r := Pack(glyphs, spread, table);
    PackLayout(glyphs, spread, table);
    forall i | 0 <= i < AtlasWidth * AtlasHeight {
      PaintAllShows(BlankAtlas(), r.placements, i);
    }
  }

  /** Re-pointing the entries at a texture changes nothing else about them. */
  lemma WithTextureKeepsTable(table: map<int, SDFCharacter>, texture: nat)
    ensures WithTexture(table, texture).Keys == table.Keys
    ensures CharKeys(table) ==> CharKeys(WithTexture(table, texture))
    ensures EntriesInUnitSquare(table) ==> EntriesInUnitSquare(WithTexture(table, texture))
    ensures forall c :: c in table ==> WithTexture(table, texture)[c].textureID == texture
    ensures forall c :: c in table ==> WithTexture(table, texture)[c].(textureID := table[c].textureID) == table[c]
  {
  }

  /**
   * The program's font state: the global SDFCharacters map, keyed by the
   * character (a GLchar, so codes 32..127 appear as themselves), the atlas
   * texture handle, and the texels last uploaded to that texture.
   */
  class FontState {
    var SDFCharacters: map<int, SDFCharacter>
    var sdfAtlasTexture: nat
    var atlasTexels: seq<byte>

    /** The keys are GLchar values and every entry's atlas rectangle lies in the unit square. */
    predicate Valid()
      reads this
    {
      CharKeys(SDFCharacters) && EntriesInUnitSquare(SDFCharacters)
    }

    /** Program start: no characters, texture handle 0, nothing uploaded. */
    constructor ()
      ensures Valid()
      ensures SDFCharacters == map[] && sdfAtlasTexture == 0 && atlasTexels == []
    {
      SDFCharacters := map[];
      sdfAtlasTexture := 0;
      atlasTexels := [];
    }

    /**
     * LoadSDFFont(fontPath, fontSize, spread). `face` is what FreeType makes
     * of the font file at the requested size; `newTexture` is the handle
     * glGenTextures returns. The map is not cleared first: entries of an
     * earlier load survive unless the same code is loaded again.
     */
    method LoadSDFFont(face: FontFace, spread: nat, newTexture: nat)
      requires Valid() && spread > 0
      requires face.Face? ==> FaceFits(face.glyphs, spread)
      modifies this
      ensures Valid()
      ensures face.FaceFailed? ==> unchanged(this)
      ensures face.Face? ==>
        var r := Pack(face.glyphs, spread, old(SDFCharacters));
        SDFCharacters == WithTexture(r.table, newTexture) &&
        sdfAtlasTexture == newTexture &&
        AllInAtlas(r.placements) && atlasTexels == PaintAll(BlankAtlas(), r.placements)
    {
      if face.FaceFailed? {
        return;
      }
      var glyphs := face.glyphs;
      var atlasData := PackGlyphs(glyphs, spread);
      sdfAtlasTexture := newTexture;
      atlasTexels := atlasData[..];
      PackLayout(glyphs, spread, old(SDFCharacters));
      PackKeepsCharKeys(glyphs, spread, old(SDFCharacters));
      SetTextureIDs(newTexture);
      WithTextureKeepsTable(Pack(glyphs, spread, old(SDFCharacters)).table, newTexture);
    }
  
    /**
     * The glyph loop of LoadSDFFont: each code's field is generated, placed
     * on the shelves and copied into the zeroed atlas buffer, and the code's
     * entry is written into the map, until the range ends or a field would
     * run past the atlas bottom.
     */
    method PackGlyphs(glyphs: seq<GlyphRaster>, spread: nat) returns (atlasData: array<byte>)
      requires spread > 0 && FaceFits(glyphs, spread)
      modifies this
      ensures fresh(atlasData)
      ensures var r := Pack(glyphs, spread, old(SDFCharacters));
        SDFCharacters == r.table && AllInAtlas(r.placements) && atlasData[..] == PaintAll(BlankAtlas(), r.placements)
      ensures sdfAtlasTexture == old(sdfAtlasTexture) && atlasTexels == old(atlasTexels)
    {
      atlasData := new byte[AtlasWidth * AtlasHeight](_ => 0);
      assert atlasData[..] == BlankAtlas();
      var currentX, currentY, maxHeight := 0, 0, 0;
      ghost var placed: seq<Placement> := [];
      ghost var stoppedAt: Option<int> := None;
      var c := FirstCode;
      while c < EndCode
        invariant FirstCode <= c <= EndCode
        invariant 0 <= currentX && 0 <= currentY && 0 <= maxHeight
        invariant sdfAtlasTexture == old(sdfAtlasTexture) && atlasTexels == old(atlasTexels)
        invariant AllInAtlas(placed)
        invariant atlasData[..] == PaintAll(BlankAtlas(), placed)
        invariant PackFrom(glyphs, spread, c - FirstCode, PackState(Cursor(currentX, currentY, maxHeight), SDFCharacters, placed))
          == Pack(glyphs, spread, old(SDFCharacters))
      {
        ghost var st := PackState(Cursor(currentX, currentY, maxHeight), SDFCharacters, placed);
        var glyph := glyphs[c - FirstCode];
        if glyph.RasterFailed? {
          c := c + 1;
          continue;
        }
        var width, height := glyph.width, glyph.height;
        if width == 0 || height == 0 {
          SDFCharacters := SDFCharacters[c := EmptyGlyphEntry(glyph.left, glyph.top, glyph.advance)];
          c := c + 1;
          continue;
        }
        var sdfData := GenerateSDFTexture(glyph.buffer, width, height, spread);
        var sdfWidth, sdfHeight := width + 2 * spread, height + 2 * spread;
        if currentX + sdfWidth > AtlasWidth {
          currentX := 0;
          currentY := currentY + maxHeight;
          maxHeight := 0;
        }
        if currentY + sdfHeight > AtlasHeight {
          assert PackStep(glyphs, spread, c - FirstCode, st) == Overflow;
          stoppedAt := Some(c);
          break;
        }
        var p := Placement(c, currentX, currentY, sdfWidth, sdfHeight, sdfData[..]);
        CopyIntoAtlas(atlasData, p);
        SDFCharacters := SDFCharacters[c := PlacedEntry(currentX, currentY, sdfWidth, sdfHeight, glyph.left, glyph.top, glyph.advance)];
        placed := placed + [p];
        currentX := currentX + sdfWidth;
        if sdfHeight > maxHeight {
          maxHeight := sdfHeight;
        }
        assert PackStep(glyphs, spread, c - FirstCode, st) ==
          Next(PackState(Cursor(currentX, currentY, maxHeight), SDFCharacters, placed));
        c := c + 1;
      }
      assert Pack(glyphs, spread, old(SDFCharacters)) == PackResult(SDFCharacters, placed, stoppedAt);
      PackLayout(glyphs, spread, old(SDFCharacters));
    }

    /**
     * The final loop of LoadSDFFont: every entry, old or new, takes the atlas
     * texture's handle. The map is walked in key order, over the GLchar range.
     */
    method SetTextureIDs(texture: nat)
      requires CharKeys(SDFCharacters)
      modifies this
      ensures SDFCharacters == WithTexture(old(SDFCharacters), texture)
      ensures sdfAtlasTexture == old(sdfAtlasTexture) && atlasTexels == old(atlasTexels)
    {
      var table := SDFCharacters;
      for code := MinChar to MaxChar + 1
        invariant table.Keys == SDFCharacters.Keys
        invariant forall c :: c in table ==>
          table[c] == if c < code then SDFCharacters[c].(textureID := texture) else SDFCharacters[c]
      {
        if code in table {
          table := table[code := table[code].(textureID := texture)];
        }
      }
      assert table.Keys == WithTexture(SDFCharacters, texture).Keys;
      assert forall c :: c in table ==> table[c] == WithTexture(SDFCharacters, texture)[c];
      SDFCharacters := table;
    }
  }
}
