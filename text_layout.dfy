/**
 * RenderSDFText: lay out a line of text as one textured quad per known
 * character. Each draw call (the six vertices written to the VBO and
 * glDrawArrays) is modelled as a Quad appended to the output; shader
 * uniforms and GL state are not modelled.
 */
module TextLayout {
  import opened Common
  import opened SdfFont

  /** The spread RenderSDFText passes when it reloads the font. */
  const ReloadSpread: nat := 6

  /** One glyph quad: lower-left corner, size, and the atlas rectangle u1..u2, v1..v2. */
  datatype Quad = Quad(xpos: real, ypos: real, w: real, h: real, u1: real, v1: real, u2: real, v2: real)

  /** A vertex as uploaded: position and texture coordinate. */
  datatype Vertex = Vertex(x: real, y: real, u: real, v: real)

  /** A byte of a std::string used as a key: char is signed, so bytes 128..255 become -128..-1. */
  function CharKey(b: byte): (c: int)
    ensures MinChar <= c <= MaxChar
    ensures c >= 0 <==> b < 128
  {
    if b < 128 then b else b - 256
  }

  /** The quad of a character drawn with the pen at (x, y). */
  function QuadFor(ch: SDFCharacter, x: real, y: real, scale: real): Quad {
    Quad(x + ch.bearing.x as real * scale,
         y - (ch.size.y - ch.bearing.y) as real * scale,
         ch.size.x as real * scale,
         ch.size.y as real * scale,
         ch.atlasPos.x, ch.atlasPos.y,
         ch.atlasPos.x + ch.atlasSize.x, ch.atlasPos.y + ch.atlasSize.y)
  }

  /** The pen step after a character: whole pixels of the 26.6 advance (an arithmetic shift by 6, i.e. floor division) plus 2, scaled. */
  function AdvanceOf(ch: SDFCharacter, scale: real): real {
    ((ch.advance / 64) + 2) as real * scale
  }

  /** The quads of a line, left to right: unknown characters are skipped and do not move the pen. */
  function Layout(table: map<int, SDFCharacter>, text: seq<byte>, x: real, y: real, scale: real): seq<Quad>
    decreases |text|
  {
    if text == [] then []
    else
      var key := CharKey(text[0]);
      if key !in table then Layout(table, text[1..], x, y, scale)
      else [QuadFor(table[key], x, y, scale)] + Layout(table, text[1..], x + AdvanceOf(table[key], scale), y, scale)
  }

  /** The entries of the characters the table knows, in text order. */
  function KnownEntries(table: map<int, SDFCharacter>, text: seq<byte>): seq<SDFCharacter>
    decreases |text|
  {
    if text == [] then []
    else if CharKey(text[0]) in table then [table[CharKey(text[0])]] + KnownEntries(table, text[1..])
    else KnownEntries(table, text[1..])
  }

  /** The pen position after drawing the given characters from x. */
  function PenAfter(entries: seq<SDFCharacter>, x: real, scale: real): real
    decreases |entries|
  {
    if entries == [] then x else PenAfter(entries[1..], x + AdvanceOf(entries[0], scale), scale)
  }

  /** The quads of Layout, one per known character, each at the pen left by the known characters before it. */
  predicate IndexedLayout(table: map<int, SDFCharacter>, text: seq<byte>, x: real, y: real, scale: real) {
    |Layout(table, text, x, y, scale)| == |KnownEntries(table, text)| &&
    forall i :: 0 <= i < |KnownEntries(table, text)| ==>
      Layout(table, text, x, y, scale)[i] ==
        QuadFor(KnownEntries(table, text)[i], PenAfter(KnownEntries(table, text)[..i], x, scale), y, scale)
  }

  /**
   * Layout quad by quad: there is one quad per known character, and the i-th
   * is that character's quad with the pen moved on by the advances of the
   * known characters before it.
   */
  lemma {:induction false} LayoutIndexed(table: map<int, SDFCharacter>, text: seq<byte>, x: real, y: real, scale: real)
    ensures |Layout(table, text, x, y, scale)| == |KnownEntries(table, text)|
    ensures forall i :: 0 <= i < |KnownEntries(table, text)| ==>
      Layout(table, text, x, y, scale)[i] ==
        QuadFor(KnownEntries(table, text)[i], PenAfter(KnownEntries(table, text)[..i], x, scale), y, scale)
    decreases |text|
  {
    if text == [] {
      assert IndexedLayout(table, text, x, y, scale);
    } else if CharKey(text[0]) !in table {
      LayoutIndexed(table, text[1..], x, y, scale);
      SkippedCharKeepsIndex(table, text, x, y, scale);
    } else {
      LayoutIndexed(table, text[1..], x + AdvanceOf(table[CharKey(text[0])], scale), y, scale);
      KnownCharShiftsIndex(table, text, x, y, scale);
    }
  }

  /** An unknown first character changes neither the quads nor the known characters. */
  lemma SkippedCharKeepsIndex(table: map<int, SDFCharacter>, text: seq<byte>, x: real, y: real, scale: real)
    requires text != [] && CharKey(text[0]) !in table
    requires IndexedLayout(table, text[1..], x, y, scale)
    ensures IndexedLayout(table, text, x, y, scale)
  {
    assert KnownEntries(table, text) == KnownEntries(table, text[1..]);
    assert Layout(table, text, x, y, scale) == Layout(table, text[1..], x, y, scale);
  }

  /** A known first character contributes the first quad and moves the pen for the rest. */
  lemma KnownCharShiftsIndex(table: map<int, SDFCharacter>, text: seq<byte>, x: real, y: real, scale: real)
    requires text != [] && CharKey(text[0]) in table
    requires IndexedLayout(table, text[1..], x + AdvanceOf(table[CharKey(text[0])], scale), y, scale)
    ensures IndexedLayout(table, text, x, y, scale)
  {
    var e := table[CharKey(text[0])];
    var x' := x + AdvanceOf(e, scale);
    var rest := KnownEntries(table, text[1..]);
    var known := [e] + rest;
    var quads := [QuadFor(e, x, y, scale)] + Layout(table, text[1..], x', y, scale);
    assert KnownEntries(table, text) == known;
    assert Layout(table, text, x, y, scale) == quads;
    forall i | 0 <= i < |known|
      ensures quads[i] == QuadFor(known[i], PenAfter(known[..i], x, scale), y, scale)
    {
      if i == 0 {
        assert PenAfter(known[..0], x, scale) == x;
      } else {
        assert known[..i][0] == e && known[..i][1..] == rest[..i - 1];
        assert PenAfter(known[..i], x, scale) == PenAfter(rest[..i - 1], x', scale);
      }
    }
  }

  /** With no characters loaded nothing is drawn. */
  lemma {:induction false} EmptyTableDrawsNothing(text: seq<byte>, x: real, y: real, scale: real)
    ensures Layout(map[], text, x, y, scale) == []
    decreases |text|
  {
    if text != [] {
      EmptyTableDrawsNothing(text[1..], x, y, scale);
    }
  }

  /** A table filled by loads into an empty map has keys 32..127 only. */
  predicate AsciiKeys(table: map<int, SDFCharacter>) {
    forall c :: c in table ==> FirstCode <= c < EndCode
  }

  /** The bytes below 128 of a text. */
  function AsciiBytes(text: seq<byte>): (r: seq<byte>)
    ensures forall i :: 0 <= i < |r| ==> r[i] < 128
    decreases |text|
  {
    if text == [] then []
    else if text[0] < 128 then [text[0]] + AsciiBytes(text[1..])
    else AsciiBytes(text[1..])
  }

  /** Bytes 128..255 (negative chars) are never found in such a table: the line lays out as if they were absent. */
  lemma {:induction false} HighBytesAreSkipped(table: map<int, SDFCharacter>, text: seq<byte>, x: real, y: real, scale: real)
    requires AsciiKeys(table)
    ensures Layout(table, text, x, y, scale) == Layout(table, AsciiBytes(text), x, y, scale)
    decreases |text|
  {
    if text != [] {
      if CharKey(text[0]) in table {
        HighBytesAreSkipped(table, text[1..], x + AdvanceOf(table[CharKey(text[0])], scale), y, scale);
      }
      HighBytesAreSkipped(table, text[1..], x, y, scale);
      if text[0] < 128 {
        assert AsciiBytes(text) == [text[0]] + AsciiBytes(text[1..]);
      }
    }
  }

  /** The six vertices of a quad's two triangles, as written to the vertex buffer. */
  function QuadVertices(q: Quad): (vs: seq<Vertex>)
    ensures |vs| == 6
  {
    [Vertex(q.xpos, q.ypos + q.h, q.u1, q.v1),
     Vertex(q.xpos, q.ypos, q.u1, q.v2),
     Vertex(q.xpos + q.w, q.ypos, q.u2, q.v2),
     Vertex(q.xpos, q.ypos + q.h, q.u1, q.v1),
     Vertex(q.xpos + q.w, q.ypos, q.u2, q.v2),
     Vertex(q.xpos + q.w, q.ypos + q.h, q.u2, q.v1)]
  }

  /**
   * The two triangles use exactly the quad's four corners, and texture
   * coordinates follow position: the left edge samples u1, the right u2, the
   * top v1 (the atlas's first row is the glyph's top) and the bottom v2.
   */
  lemma QuadCornersMapToAtlasRect(q: Quad)
    ensures forall v :: v in QuadVertices(q) ==>
      ((v.x == q.xpos && v.u == q.u1) || (v.x == q.xpos + q.w && v.u == q.u2)) &&
      ((v.y == q.ypos && v.v == q.v2) || (v.y == q.ypos + q.h && v.v == q.v1))
    ensures Vertex(q.xpos, q.ypos, q.u1, q.v2) in QuadVertices(q)
    ensures Vertex(q.xpos + q.w, q.ypos, q.u2, q.v2) in QuadVertices(q)
    ensures Vertex(q.xpos, q.ypos + q.h, q.u1, q.v1) in QuadVertices(q)
    ensures Vertex(q.xpos + q.w, q.ypos + q.h, q.u2, q.v1) in QuadVertices(q)
  {
  }

  /** With unit-square atlas rectangles in the table, every quad samples inside the atlas, scaled to its entry's size. */
  lemma {:induction false} LayoutSamplesInsideAtlas(table: map<int, SDFCharacter>, text: seq<byte>, x: real, y: real, scale: real)
    requires EntriesInUnitSquare(table) && scale >= 0.0
    ensures forall q :: q in Layout(table, text, x, y, scale) ==>
      0.0 <= q.u1 <= q.u2 <= 1.0 && 0.0 <= q.v1 <= q.v2 <= 1.0 && q.w >= 0.0 && q.h >= 0.0
    decreases |text|
  {
    if text != [] {
      var key := CharKey(text[0]);
      if key in table {
        assert UnitRect(table[key]);
        LayoutSamplesInsideAtlas(table, text[1..], x + AdvanceOf(table[key], scale), y, scale);
      } else {
        LayoutSamplesInsideAtlas(table, text[1..], x, y, scale);
      }
    }
  }

  /**
   * RenderSDFText(shader, text, x, y, scale, color). When the table is empty
   * it reloads the font once (spread 6; `reloadFace` and `reloadTexture` are
   * what FreeType and glGenTextures give for it) and draws nothing if the
   * table is still empty. Returns the quads drawn and renderedChars.
   */
  method RenderSDFText(font: FontState, text: seq<byte>, x: real, y: real, scale: real,
                       reloadFace: FontFace, reloadTexture: nat)
    returns (quads: seq<Quad>, renderedChars: nat)
    requires font.Valid()
    requires reloadFace.Face? ==> FaceFits(reloadFace.glyphs, ReloadSpread)
    modifies font
    ensures font.Valid()
    ensures old(font.SDFCharacters) != map[] || reloadFace.FaceFailed? ==> unchanged(font)
    ensures old(font.SDFCharacters) == map[] && reloadFace.Face? ==>
      var r := Pack(reloadFace.glyphs, ReloadSpread, map[]);
      font.SDFCharacters == WithTexture(r.table, reloadTexture) && font.sdfAtlasTexture == reloadTexture &&
      AllInAtlas(r.placements) && font.atlasTexels == PaintAll(BlankAtlas(), r.placements)
    ensures font.SDFCharacters == map[] ==> quads == []
    ensures quads == Layout(font.SDFCharacters, text, x, y, scale)
    ensures renderedChars == |quads|
  {
    if font.SDFCharacters == map[] {
      font.LoadSDFFont(reloadFace, ReloadSpread, reloadTexture);
      if font.SDFCharacters == map[] {
        EmptyTableDrawsNothing(text, x, y, scale);
        return [], 0;
      }
    }
    var table := font.SDFCharacters;
    quads := [];
    renderedChars := 0;
    var penX := x;
    var i := 0;
    while i < |text|
      invariant 0 <= i <= |text|
      invariant quads + Layout(table, text[i..], penX, y, scale) == Layout(table, text, x, y, scale)
      invariant renderedChars == |quads|
    {
      var key := CharKey(text[i]);
      assert text[i..][0] == text[i] && text[i..][1..] == text[i + 1..];
      if key !in table {
        assert Layout(table, text[i..], penX, y, scale) == Layout(table, text[i + 1..], penX, y, scale);
        i := i + 1;
        continue;
      }
      var ch := table[key];
      renderedChars := renderedChars + 1;
      var xpos := penX + ch.bearing.x as real * scale;
      var ypos := y - (ch.size.y - ch.bearing.y) as real * scale;
      var w := ch.size.x as real * scale;
      var h := ch.size.y as real * scale;
      var u1 := ch.atlasPos.x;
      var v1 := ch.atlasPos.y;
      var u2 := ch.atlasPos.x + ch.atlasSize.x;
      var v2 := ch.atlasPos.y + ch.atlasSize.y;
      assert Quad(xpos, ypos, w, h, u1, v1, u2, v2) == QuadFor(ch, penX, y, scale);
      assert Layout(table, text[i..], penX, y, scale) ==
        [QuadFor(ch, penX, y, scale)] + Layout(table, text[i + 1..], penX + AdvanceOf(ch, scale), y, scale);
      assert (quads + [QuadFor(ch, penX, y, scale)]) + Layout(table, text[i + 1..], penX + AdvanceOf(ch, scale), y, scale)
        == quads + Layout(table, text[i..], penX, y, scale);
      quads := quads + [Quad(xpos, ypos, w, h, u1, v1, u2, v2)];
      ghost var before := penX;
      penX := penX + ((ch.advance / 64) + 2) as real * scale;
      assert penX == before + AdvanceOf(ch, scale);
      i := i + 1;
    }
    assert text[|text|..] == [];
  }
}
