# SDF font pipeline of LearnOpenGL, modelled in Dafny

This project models the signed-distance-field (SDF) text path of the
LearnOpenGL sample program and proves properties of it. It covers five parts:

- **Distance field** (`distance_field.dfy`, module `DistanceField`).
  `GenerateSDFTexture` pads a glyph bitmap by `spread` on every side. Each
  texel gets 255·(1 − d/spread), truncated to a byte. Here d is the distance
  to the nearest covered pixel, capped at `spread`. The model keeps the
  distance as an exact squared integer. The byte is characterised exactly: it
  is the largest `v` with `65025·d² <= (255 − v)²·spread²`.
- **Atlas packer and glyph table** (`atlas_packer.dfy`, module `SdfFont`).
  `LoadSDFFont` walks character codes 32..127 and places each glyph's field in
  a 1024×1024 atlas on shelves. It wraps to a new shelf when a glyph does not
  fit the current row, and stops at the first glyph that does not fit below.
  It records an `SDFCharacter` entry per code, with atlas coordinates divided
  by 1024, then gives every entry the new texture handle. The program's global
  state (the `SDFCharacters` map, `sdfAtlasTexture`, the uploaded texels) is
  the class `FontState`. The loop is proved against a functional packer,
  `Pack`, whose layout, per-code and atlas-content properties are lemmas.
- **Text layout** (`text_layout.dfy`, module `TextLayout`). `RenderSDFText`
  reloads the font when the table is empty. It then emits one quad per known
  character and advances the pen by `((advance >> 6) + 2) · scale`.
  Characters missing from the table are skipped without moving the pen. Text
  is a byte string. Map keys are `GLchar` (signed), so bytes 128..255 look up
  keys −128..−1.
- **Paths and shader loading** (`path_utils.dfy`, module `FileSystem`;
  `shader_paths.dfy`, module `ShaderLoader`). These model the path helpers,
  including `NormalizePath` as written, and the shader-file fallback
  `CheckFileExistAndReplaceRightPath`. They also model the constructor's path
  handling and the stage bookkeeping of `generateShaderProgram`.
- **SDF self-test program** (`sdf_selftest.dfy`, module `SdfSelfTest`). It
  models the 8×8 circle fixture and its distance field, the printed legend,
  the `smoothstep` lambda, and the main and outline alpha table.

`common.dfy` (module `Common`) holds the byte type and an `Option` datatype.

What the environment provides becomes a parameter:
- A FreeType face is a `FontFace`: one `GlyphRaster` per code 32..127, or a
  failure to open.
- A texture handle from `glGenTextures` is a `nat`.
- "This file can be opened" is a set of openable paths.
- Program IDs from `glCreateProgram` are a `nat`.

### Quirks of the code

The model follows the code in each of these cases, where it does something
other than what its names, comments or printed messages suggest.

- A reload of the font does not rebuild the glyph table. `LoadSDFFont` never
  clears the global map, so entries from an earlier load survive unless the
  same code is loaded again. `LoadSDFFont`'s contract packs onto
  `old(SDFCharacters)`.
- The pen advance is not FreeType's advance alone, `(advance >> 6) · scale`:
  `RenderSDFText` adds a fixed 2 pixels, `((advance >> 6) + 2) · scale`.
- In `NormalizePath`, the assignment inside the while condition binds to the
  comparison, so `pos` is always 1 rather than the position of "//". Every step replaces the two characters at
  positions 1..2 by one separator, whatever those characters are; on a
  two-character string only position 1 exists, so "//" stays "//". On a
  string that starts with a separator and contains a doubled one, the loop
  shrinks it to "//" and then never ends. The model states this (`FileSystem.RootedDoubleSepNeverTerminates`)
  and takes termination as a precondition.
- The self-test's printed legend claims `##=255-200, **=199-150, …`. The
  classification uses strict `>` thresholds, so values 200, 150, 100 and 50
  are drawn one shade lower than the legend says
  (`SdfSelfTest.LegendAgreesExceptAtBoundaries`).

## Model

| member | source | states |
|---|---|---|
| DistanceField.DistSq | LearnOpenGL/MainTest.cpp:82-83 | the squared distance from a padded texel to a bitmap pixel is never negative |
| DistanceField.ScanMin | LearnOpenGL/MainTest.cpp:76-89 | the running minimum over the rest of the scan stays between 0 and the cap spread² |
| DistanceField.ScanMinIsMinimum | LearnOpenGL/MainTest.cpp:76-89 | the scan's result is at most the distance to every covered pixel it visits, and is either the cap or the distance to one such pixel |
| DistanceField.TruncateFrom | LearnOpenGL/MainTest.cpp:92 | the truncating search returns a byte that satisfies the truncation bound, and no larger byte up to its start does |
| DistanceField.DistanceByte | LearnOpenGL/MainTest.cpp:90-92 | the texel byte is the largest v with 255·(1 − d/spread) >= v, i.e. the float expression truncated toward zero |
| DistanceField.Field | LearnOpenGL/MainTest.cpp:63-98 | the field has (width + 2·spread)·(height + 2·spread) texels |
| DistanceField.NearestCoveredDistSq | LearnOpenGL/MainTest.cpp:76-89 | the inner double loop returns the squared distance to the nearest covered pixel, capped at spread² |
| DistanceField.GenerateSDFTexture | LearnOpenGL/MainTest.cpp:63-98 | the returned buffer holds exactly the distance field of the bitmap, row-major, padded by spread |
| DistanceField.FillRow | LearnOpenGL/MainTest.cpp:74-95 | after one pass of the row loop, every texel of rows 0..y holds its distance-field byte |
| DistanceField.DistanceByteEndPoints | LearnOpenGL/MainTest.cpp:90-92 | distance 0 gives 255 and the capped distance gives 0 |
| DistanceField.DistanceByteMonotone | LearnOpenGL/MainTest.cpp:90-92 | a farther pixel never gives a larger byte |
| DistanceField.CoveredPixelIs255 | LearnOpenGL/MainTest.cpp:74-95 | the texel over a covered pixel is 255 |
| DistanceField.FarTexelIsZero | LearnOpenGL/MainTest.cpp:74-95 | a texel with no covered pixel closer than spread is 0 |
| DistanceField.BlankBitmapGivesBlankField | LearnOpenGL/MainTest.cpp:63-98 | an empty glyph bitmap yields an all-zero field |
| SdfFont.EmptyGlyphEntry | LearnOpenGL/MainTest.cpp:141-150 | no contract of its own: the entry of a glyph without pixels has zero size and a zero atlas rectangle and keeps the glyph's bearing and advance, which PackCodes states for every such code |
| SdfFont.PlacedEntry | LearnOpenGL/MainTest.cpp:183-194 | no contract of its own: PlacedEntryInUnitSquare states its rectangle lies in the unit square, and PackEntries that it is the placed field's rectangle divided by 1024 |
| SdfFont.Wrap | LearnOpenGL/MainTest.cpp:160-165 | after the wrap a field no wider than the atlas fits in what is left of the row, and the cursor never moves up and moves down by at most the current shelf height |
| SdfFont.PackStep | LearnOpenGL/MainTest.cpp:131-202 | one pass of the glyph loop stops the loop exactly when the glyph has pixels and its field, after the wrap, would run past the atlas bottom |
| SdfFont.PackFrom | LearnOpenGL/MainTest.cpp:131-202 | the loop from any code onward stops, if at all, at a code between that code and 127 |
| SdfFont.Pack | LearnOpenGL/MainTest.cpp:131-202 | a whole load stops, if at all, at a code in 32..127; its layout, per-code and atlas properties are PackLayout, PackCodes, PackEntries and PackedAtlas |
| SdfFont.BlankAtlas | LearnOpenGL/MainTest.cpp:127-128 | the zeroed atlas has 1024·1024 texels |
| SdfFont.Paint | LearnOpenGL/MainTest.cpp:175-181 | copying a glyph's field into the atlas keeps the atlas size |
| SdfFont.PaintAll | LearnOpenGL/MainTest.cpp:131-202 | copying all placed glyphs keeps the atlas size |
| SdfFont.CopyIntoAtlas | LearnOpenGL/MainTest.cpp:175-181 | the nested copy loop writes the glyph's field into its rectangle of the atlas array and leaves every other texel unchanged |
| SdfFont.PackLayout | LearnOpenGL/MainTest.cpp:157-199 | every placed rectangle lies inside the 1024×1024 atlas, no two placed rectangles overlap, and all atlas rectangles in the table stay within the unit square |
| SdfFont.PackFromLayout | LearnOpenGL/MainTest.cpp:131-202 | from any shelf state that keeps the shelf invariant, the rest of the loop keeps placements inside the atlas and disjoint |
| SdfFont.StepKeepsLayout | LearnOpenGL/MainTest.cpp:157-199 | one packing step keeps the shelf invariant, containment and disjointness |
| SdfFont.PlaceBehindCursor | LearnOpenGL/MainTest.cpp:157-199 | a field placed at the (possibly wrapped) cursor lies in the atlas, is apart from every earlier field, and all fields lie behind the moved cursor |
| SdfFont.PlacedEntryInUnitSquare | LearnOpenGL/MainTest.cpp:183-194 | the table entry of a field inside the atlas has its rectangle within the unit square |
| SdfFont.PackFromPlacementsIgnoreTable | LearnOpenGL/MainTest.cpp:131-202 | where glyphs are placed does not depend on what the map held before |
| SdfFont.PackCodes | LearnOpenGL/MainTest.cpp:131-202 | codes below 32, and codes at or after the code where packing stopped, keep their old entry (or stay absent), as do codes FreeType fails to render. Every other code gets an entry with the glyph's bearing and advance. Its size is the padded size, or zero with no atlas rectangle for an empty bitmap. Packing stops only at a rendered glyph with pixels |
| SdfFont.PackFromCodes | LearnOpenGL/MainTest.cpp:131-202 | the per-code statement of PackCodes, from any code onwards |
| SdfFont.PackKeepsCharKeys | LearnOpenGL/MainTest.cpp:51 | all keys of the table remain GLchar values |
| SdfFont.PackFromStop | LearnOpenGL/MainTest.cpp:159-172 | from any state, every code before the stop is reached and its field fits after the wrap; at the stop code the field would run past the bottom and the result is the table and placements reached before it; without a stop every code is passed |
| SdfFont.PackStop | LearnOpenGL/MainTest.cpp:159-172 | for a whole load: the load stops at the first code whose field, after the wrap, would run past the atlas bottom, and nowhere else |
| SdfFont.SmallGlyphStep | LearnOpenGL/MainTest.cpp:157-199 | with fields of at most 64×64 texels, one code never stops the loop and the used room 16·y + x grows by at most 128 |
| SdfFont.SmallGlyphsFromFit | LearnOpenGL/MainTest.cpp:131-202 | from a state within that room bound, small glyphs are all placed |
| SdfFont.SmallGlyphsAllFit | LearnOpenGL/MainTest.cpp:131-202 | when every glyph pads to at most 64×64 texels, all 96 codes fit and the load never stops |
| SdfFont.PackEntries | LearnOpenGL/MainTest.cpp:183-194 | each placed glyph's table entry has the atlas position x/1024, y/1024 and size sdfWidth/1024, sdfHeight/1024 of its rectangle, and the rectangle holds that glyph's distance field |
| SdfFont.PackFromEntries | LearnOpenGL/MainTest.cpp:131-202 | the entry statement of PackEntries, from any code onwards |
| SdfFont.StepKeepsEntries | LearnOpenGL/MainTest.cpp:183-194 | one packing step keeps every placed glyph's entry matched to its rectangle |
| SdfFont.EntryOfOtherCode | LearnOpenGL/MainTest.cpp:194 | writing one code's entry leaves the entries of other placed codes intact |
| SdfFont.PaintAllShows | LearnOpenGL/MainTest.cpp:175-181 | after copying disjoint rectangles, a texel inside a rectangle shows that glyph's field and a texel outside all of them keeps its old value |
| SdfFont.PackedAtlas | LearnOpenGL/MainTest.cpp:127-202 | the uploaded atlas shows each placed glyph's field in its rectangle and is 0 everywhere else |
| SdfFont.WithTexture | LearnOpenGL/MainTest.cpp:217-220 | no contract of its own: WithTextureKeepsTable states it keeps the keys, gives every entry the handle and leaves every other field of every entry unchanged |
| SdfFont.WithTextureKeepsTable | LearnOpenGL/MainTest.cpp:218-220 | setting the texture handle keeps the keys, gives every entry the handle, and leaves size, bearing, advance and the atlas rectangle of every entry unchanged |
| SdfFont.FontState.constructor | LearnOpenGL/MainTest.cpp:51-55 | at program start the map is empty and the texture handle is 0 |
| SdfFont.FontState.LoadSDFFont | LearnOpenGL/MainTest.cpp:101-228 | if the face fails, nothing changes. Otherwise the map is the packer's result on the old map with every entry's textureID set to the new handle, the handle is stored, and the uploaded texels are the blank atlas with every placed glyph's field copied in |
| SdfFont.FontState.PackGlyphs | LearnOpenGL/MainTest.cpp:127-202 | the glyph loop leaves the map equal to the functional packer's table on the old map and the atlas buffer equal to the blank atlas with every placed field copied in, and keeps the texture handle |
| SdfFont.FontState.SetTextureIDs | LearnOpenGL/MainTest.cpp:218-220 | every entry of the map, old or new, gets the atlas texture handle, and nothing else changes |
| TextLayout.CharKey | LearnOpenGL/MainTest.cpp:460-467 | a text byte used as a map key is a signed char, and it is non-negative exactly for bytes below 128 |
| TextLayout.QuadFor | LearnOpenGL/MainTest.cpp:470-480 | no contract of its own: QuadCornersMapToAtlasRect states how its corners pair with the atlas rectangle, and LayoutSamplesInsideAtlas that its size is non-negative and its texture coordinates lie in the unit square |
| TextLayout.AdvanceOf | LearnOpenGL/MainTest.cpp:501 | no contract of its own: LayoutIndexed states that each known character moves the pen by it |
| TextLayout.Layout | LearnOpenGL/MainTest.cpp:460-502 | no contract of its own: LayoutIndexed states it quad by quad, and EmptyTableDrawsNothing and HighBytesAreSkipped state the skipped characters |
| TextLayout.LayoutIndexed | LearnOpenGL/MainTest.cpp:460-502 | one quad per known character, in order. The i-th quad is that character's quad at the pen moved on by the advances of the known characters before it |
| TextLayout.SkippedCharKeepsIndex | LearnOpenGL/MainTest.cpp:462-465 | a first character missing from the table adds no quad and leaves the pen where it was for the rest of the text |
| TextLayout.KnownCharShiftsIndex | LearnOpenGL/MainTest.cpp:467-502 | a known first character gives the first quad at the pen and the rest of the text is laid out from the pen moved by its advance |
| TextLayout.EmptyTableDrawsNothing | LearnOpenGL/MainTest.cpp:433-439 | with an empty table nothing is drawn |
| TextLayout.HighBytesAreSkipped | LearnOpenGL/MainTest.cpp:460-465 | with a table of ASCII codes only, bytes 128..255 are skipped and do not move the pen: the output is that of the text without them |
| TextLayout.QuadVertices | LearnOpenGL/MainTest.cpp:483-491 | each quad is uploaded as six vertices |
| TextLayout.QuadCornersMapToAtlasRect | LearnOpenGL/MainTest.cpp:477-491 | each vertex pairs a corner of the quad with the matching corner of the glyph's atlas rectangle, all four corners occur, and the top edge samples v1 |
| TextLayout.LayoutSamplesInsideAtlas | LearnOpenGL/MainTest.cpp:460-502 | with a well-formed table and non-negative scale, every quad has non-negative size and texture coordinates within the unit square |
| TextLayout.RenderSDFText | LearnOpenGL/MainTest.cpp:430-512 | the font is reloaded (spread 6, onto the empty map) only when the table is empty. With an empty table nothing is drawn. The quads are the layout of the text, and renderedChars counts them |
| TextLayout.AsciiBytes | LearnOpenGL/MainTest.cpp:460-465 | the filtered text holds only bytes below 128 |
| FileSystem.ReplaceAlt | LearnOpenGL/Utility/FileSystemUtils.h:40 | same length, every alternative separator replaced by the separator and every other character kept |
| FileSystem.ReplaceSeparators | LearnOpenGL/Utility/FileSystemUtils.h:40 | the replace loop turns every alternative separator into the separator and keeps every other character |
| FileSystem.DedupStep | LearnOpenGL/Utility/FileSystemUtils.h:44-45 | one step keeps the first character and puts a single separator at position 1: a string of three or more characters loses the character at position 2 (positions 1..2 become one separator), while a two-character string keeps its length, so "//" stays "//" |
| FileSystem.Dedup | LearnOpenGL/Utility/FileSystemUtils.h:43-46 | when the loop ends, no doubled separator is left, the string is no longer, and the first character is kept |
| FileSystem.RemoveDoubleSeparators | LearnOpenGL/Utility/FileSystemUtils.h:43-46 | when it ends, the while loop has produced the dedup result, which has no doubled separator |
| FileSystem.DedupAddsNoAlt | LearnOpenGL/Utility/FileSystemUtils.h:43-46 | removing doubled separators brings in no alternative separator |
| FileSystem.StripEnds | LearnOpenGL/Utility/FileSystemUtils.h:48-56 | one leading "./" is removed, then one trailing separator unless the path is a single character |
| FileSystem.StripsKeepNormalForm | LearnOpenGL/Utility/FileSystemUtils.h:48-56 | the two strips keep a path free of alternative and doubled separators, leave no trailing separator on paths longer than one character, and never lengthen it |
| FileSystem.Normalized | LearnOpenGL/Utility/FileSystemUtils.h:36-59 | the result has no alternative separator, no doubled separator, no trailing separator (unless it is a single character), and is no longer than the input |
| FileSystem.NormalizePath | LearnOpenGL/Utility/FileSystemUtils.h:36-59 | the imperative loop computes the normalized path |
| FileSystem.NormalizedPlainPath | LearnOpenGL/Utility/FileSystemUtils.h:36-59 | a path with no alternative and no doubled separator normalizes, and only the strips change it |
| FileSystem.RootedDoubleSepNeverTerminates | LearnOpenGL/Utility/FileSystemUtils.h:43-46 | on a path that starts with a separator and contains a doubled one, the dedup loop never ends |
| FileSystem.DedupTerminatesExactly | LearnOpenGL/Utility/FileSystemUtils.h:43-46 | the dedup loop ends exactly when the path does not both start with a separator and contain a doubled one |
| FileSystem.RootedPathHangs | LearnOpenGL/Utility/FileSystemUtils.h:43-46 | "/a//b" and "///" are such inputs |
| FileSystem.ReplaceAltKeepsPlainPath | LearnOpenGL/Utility/FileSystemUtils.h:40 | a path without alternative separators is unchanged by the replacement |
| FileSystem.DoubleSepAtPositionOne | LearnOpenGL/Utility/FileSystemUtils.h:43-46 | "a//b" normalizes to "a/b" |
| FileSystem.DoubleSepAfterPositionOneLosesCharacters | LearnOpenGL/Utility/FileSystemUtils.h:43-46 | "ab//c" normalizes to "a/c": the step rewrites position 1, not the doubled separator |
| FileSystem.DotSlashStrippedOnce | LearnOpenGL/Utility/FileSystemUtils.h:48-56 | only one leading "./" is removed, then the trailing separator: "././a/" gives "./a" |
| FileSystem.LastIndexOf | LearnOpenGL/Utility/FileSystemUtils.h:141 | find_last_of: none exactly when the character is absent, otherwise an index of it with no occurrence after |
| FileSystem.GetDirectoryPath | LearnOpenGL/Utility/FileSystemUtils.h:140-144 | no contract of its own: DirectoryAndFileNameSplitPath states that directory + separator + file name is the path, and "" when there is no separator |
| FileSystem.GetFileName | LearnOpenGL/Utility/FileSystemUtils.h:147-151 | no contract of its own: DirectoryAndFileNameSplitPath states it has no separator and is what follows the last one |
| FileSystem.GetFileExtension | LearnOpenGL/Utility/FileSystemUtils.h:154-159 | no contract of its own: StemAndExtensionSplitFileName states it has no dot and is what follows the file name's last dot, or "" |
| FileSystem.GetFileNameWithoutExtension | LearnOpenGL/Utility/FileSystemUtils.h:162-167 | no contract of its own: StemAndExtensionSplitFileName states that stem + "." + extension is the file name when it has a dot |
| FileSystem.DirectoryAndFileNameSplitPath | LearnOpenGL/Utility/FileSystemUtils.h:140-151 | the file name has no separator. Directory + separator + file name is the path when it has a separator. Otherwise the directory is empty and the file name is the path |
| FileSystem.StemAndExtensionSplitFileName | LearnOpenGL/Utility/FileSystemUtils.h:154-167 | the extension has no dot. Stem + "." + extension is the file name when it has a dot. Otherwise the extension is empty and the stem is the file name |
| FileSystem.CombinePaths | LearnOpenGL/Utility/FileSystemUtils.h:62-85 | an empty base yields the relative part and an empty relative part the base, both unnormalized. Otherwise a rooted normalized relative part replaces the base, and any other is appended to the normalized base after exactly one separator (none added after the root "/"), so the result has no doubled separator |
| FileSystem.NoDoubleSepAcrossJoin | LearnOpenGL/Utility/FileSystemUtils.h:81-84 | gluing two strings without doubled separators makes none, unless the first ends and the second starts with a separator |
| FileSystem.CombineThenSplit | LearnOpenGL/Utility/FileSystemUtils.h:62-85 | combining a base with a plain file name and splitting again gives back the normalized name as file name and the normalized base, without trailing separator, as directory |
| FileSystem.JoinThenSplit | LearnOpenGL/Utility/FileSystemUtils.h:81-84 | joining a base without trailing separator (or the root) and a separator-free name, then splitting, gives back the name and the base (empty for the root) |
| FileSystem.LastSeparatorOfJoin | LearnOpenGL/Utility/FileSystemUtils.h:141 | in dir + separator + name, with no separator in name, the last separator is the joining one |
| FileSystem.SplitOfJoin | LearnOpenGL/Utility/FileSystemUtils.h:140-151 | splitting dir + separator + name gives back dir and name |
| ShaderLoader.MapShaderExtension | LearnOpenGL/shader_s.h:36-47 | no contract of its own: TextVertexShaderFallback, TextFragmentShaderFallback and OtherExtensionLosesDot state its effect on the fallback path |
| ShaderLoader.FallbackCandidate | LearnOpenGL/shader_s.h:33-57 | no contract of its own: FallbackOfSplitPath states it for every dir/stem.ext |
| ShaderLoader.ResolvedPath | LearnOpenGL/shader_s.h:51-65 | no contract of its own: CheckFileExistAndReplaceRightPath is proved to leave it in the path, and ResolutionIsStable states it is stable |
| ShaderLoader.CheckFileExistAndReplaceRightPath | LearnOpenGL/shader_s.h:31-65 | an openable path is kept and reported found. Otherwise the path becomes the "Shader/" fallback exactly when that is openable. When neither opens, it reports false and leaves the path unchanged. Found holds exactly when the resulting path is openable |
| ShaderLoader.ResolutionIsStable | LearnOpenGL/shader_s.h:31-65 | resolving an already-resolved openable path leaves it as it is, and an unresolved path is the original |
| ShaderLoader.FallbackOfSplitPath | LearnOpenGL/shader_s.h:33-57 | for dir/stem.ext the fallback is "Shader/" + dir + stem + the mapped extension; the directory's separator is lost |
| ShaderLoader.PartsOfSplitPath | LearnOpenGL/shader_s.h:33-35 | the directory, stem and extension read from dir/stem.ext are dir, stem and ext |
| ShaderLoader.StemAndExtensionOfJoin | LearnOpenGL/Utility/FileSystemUtils.h:154-167 | in stem.ext with no dot in ext, the last dot is the joining one and the two sides are stem and ext |
| ShaderLoader.LastDotOfJoin | LearnOpenGL/Utility/FileSystemUtils.h:156 | in stem + "." + ext, with no dot in ext, the last dot is the joining one |
| ShaderLoader.TextVertexShaderFallback | LearnOpenGL/shader_s.h:33-57 | "TextRendering/text.vs" falls back to "Shader/TextRenderingtext.vert": the directory's separator is dropped |
| ShaderLoader.TextFragmentShaderFallback | LearnOpenGL/shader_s.h:33-57 | "TextRendering/text.fs" falls back to "Shader/TextRenderingtext.frag" |
| ShaderLoader.OtherExtensionLosesDot | LearnOpenGL/shader_s.h:36-49 | an unmapped extension is appended without its dot: "a/b.txt" falls back to "Shader/abtxt" |
| ShaderLoader.ResolveShaderPaths | LearnOpenGL/shader_s.h:69-81 | null paths become "", the geometry path is resolved only when given, and each resolved path is openable or the original |
| ShaderLoader.Shader.constructor | LearnOpenGL/shader_s.h:69-84 | the shader records one stage per non-empty resolved path, in vertex, fragment, geometry order, and has a program ID exactly when it has a stage |
| ShaderLoader.Shader.GenerateShaderProgram | LearnOpenGL/shader_s.h:86-91 | stages are added in vertex, fragment, geometry order, and the program is created at the first stage added |
| ShaderLoader.Shader.InternalGenerateShaderProgram | LearnOpenGL/shader_s.h:93-136 | a null or empty path adds nothing. Otherwise one stage is attached, and the program is created only if ID was 0 |
| SdfSelfTest.CircleFixture | LearnOpenGL/SimpleSDFTest.cpp:11-13 | the fixture bitmap has 8·8 pixels |
| SdfSelfTest.CircleBitmap | LearnOpenGL/SimpleSDFTest.cpp:13-27 | the drawing loop produces the disc of radius 2 around (4, 4) in 255s on 0s |
| SdfSelfTest.CoveredFixturePixels | LearnOpenGL/SimpleSDFTest.cpp:20-27 | a fixture pixel is covered exactly when it lies in the disc, and the disc lies within columns and rows 2..6 |
| SdfSelfTest.TestSDFGeneration | LearnOpenGL/SimpleSDFTest.cpp:7-64 | the self-test builds the fixture and gets its 12·12 distance field with spread 2 |
| SdfSelfTest.FixtureDiscTexels | LearnOpenGL/SimpleSDFTest.cpp:44-64 | texels over the disc are 255 |
| SdfSelfTest.FixtureFrameTexels | LearnOpenGL/SimpleSDFTest.cpp:44-64 | texels in the outer frame (x or y ≤ 2 or ≥ 10) are 0 |
| SdfSelfTest.FixtureDiscDisplay | LearnOpenGL/SimpleSDFTest.cpp:66-78 | every texel over the disc prints as "##" |
| SdfSelfTest.FixtureFrameDisplay | LearnOpenGL/SimpleSDFTest.cpp:66-78 | every texel of the outer frame prints as two blanks |
| SdfSelfTest.ShadeOf | LearnOpenGL/SimpleSDFTest.cpp:70-75 | no contract of its own: LegendAgreesExceptAtBoundaries states where it agrees with the printed legend |
| SdfSelfTest.LegendRange | LearnOpenGL/SimpleSDFTest.cpp:80 | the five ranges of the printed legend, each with its lower bound at most its upper bound; LegendAgreesExceptAtBoundaries states they partition 0..255 |
| SdfSelfTest.LegendAgreesExceptAtBoundaries | LearnOpenGL/SimpleSDFTest.cpp:70-80 | the printed shade agrees with the legend for every value except 50, 100, 150 and 200, where it is one shade lower. The legend's ranges are a partition |
| SdfSelfTest.Clamp01 | LearnOpenGL/SimpleSDFTest.cpp:90-91 | the clamped value lies in [0, 1] and values already there are kept |
| SdfSelfTest.Smoothstep | LearnOpenGL/SimpleSDFTest.cpp:88-93 | no contract of its own: SmoothstepRange, SmoothstepMonotone and SmoothstepShift state its range, order and translation |
| SdfSelfTest.SmoothstepRange | LearnOpenGL/SimpleSDFTest.cpp:88-93 | smoothstep lies in [0, 1], is 0 at or below edge0, and is 1 at or above edge1 |
| SdfSelfTest.SmoothstepMonotone | LearnOpenGL/SimpleSDFTest.cpp:88-93 | smoothstep is non-decreasing in x |
| SdfSelfTest.SmoothstepShift | LearnOpenGL/SimpleSDFTest.cpp:88-93 | shifting both edges down by d equals shifting x up by d |
| SdfSelfTest.MainAlpha | LearnOpenGL/SimpleSDFTest.cpp:104 | no contract of its own: AlphaProperties and MainAlphaTable state its values |
| SdfSelfTest.OutlineAlpha | LearnOpenGL/SimpleSDFTest.cpp:105-106 | no contract of its own: AlphaProperties and OutlineAlphaTable state its values |
| SdfSelfTest.AlphaProperties | LearnOpenGL/SimpleSDFTest.cpp:96-106 | main alpha is 0.5 at the 0.5 iso-line, the outline alpha is never below the main alpha, and both lie in [0, 1] |
| SdfSelfTest.TestShaderLogic | LearnOpenGL/SimpleSDFTest.cpp:96-110 | one row per listed SDF value, holding the value, its main alpha and its outline alpha |
| SdfSelfTest.MainAlphaTable | LearnOpenGL/SimpleSDFTest.cpp:96-106 | main alpha for 0, 0.2, 0.4, 0.5, 0.6, 0.8, 1 is 0, 0, 0, 0.5, 1, 1, 1 |
| SdfSelfTest.OutlineAlphaTable | LearnOpenGL/SimpleSDFTest.cpp:96-106 | outline alpha for 0, 0.2, 0.4, 0.5, 0.6, 0.8, 1 is 0, 0, 0.5, 1, 1, 1, 1 |

## Left out

- OpenGL calls are not modelled: texture creation, uploads, VAO/VBO updates,
  draw calls, uniforms, blending and the shader programs themselves. A
  texture handle is a parameter, and a draw call is a quad in the output.
- The FreeType calls (library init, face loading, `FT_Load_Char`, pixel
  sizes) are not modelled; a face is given as per-code glyph rasters. A
  library-init failure and a face-open failure are the same `FaceFailed`.
- Console logging is left out.
- Floating point is left out. The model computes in exact integers and reals.
  The byte of a texel is the exact truncation of 255·(1 − d/spread), so a
  float rounding one step differently at a boundary is not captured.
  UV coordinates and the pen position are exact reals.
- DistanceField.GenerateSDFTexture: requires `spread > 0`. With spread 0
  the source divides 0 by 0 and casts the NaN to `unsigned char`, which is
  undefined behaviour in C++; that case is not modelled.
- `int` width is not modelled. Integers are unbounded, so the 32-bit
  products in the source (`width * height` and `sdfWidth * sdfHeight` in
  `GenerateSDFTexture`, the atlas index `(currentY + y) * 1024 + currentX + x`)
  are exact here. The atlas index stays below 1024² for placed fields, but no
  contract bounds a glyph's height or `width * height`: a glyph bitmap of more
  than 2³¹ padded texels would overflow in the source and is not modelled.
- The FreeType bitmap pitch is taken equal to the width, as the source does
  when it reads `bitmap.buffer` row-major.
- SdfFont.FontState.LoadSDFFont: requires every rendered glyph's padded width
  to be at most 1024. A wider glyph makes the source's copy loop write past
  the row, into the next row or beyond the buffer, and that is not modelled.
- The loop over the map that sets texture IDs visits keys in the GLchar
  range in ascending order. Iteration order does not affect the result.
- The trap raised by `CHECK(0)` is modelled as the function's `false`
  return, with the path unchanged.
- The shader source read, compile, link and `checkCompileErrors` are not
  modelled. A stage is recorded per path with its kind.
- The file-reading exception path in `internal_generateShaderProgram` is
  left out, as file contents are not modelled.
- `FileExists`, `PathExists`, `GetCurrentDirectory`, `GetAbsolutePath`,
  `CreateDirectoryRecursive` and the other operating-system helpers of
  FileSystemUtils.h are left out, because they query the file system.
  The openable-path set stands in for `fileExists`.
- The Windows branch of the file-system helpers is left out. The model uses
  the POSIX separators, '/' as separator and '\\' as alternative.
- FileSystem.NormalizePath: requires that the dedup loop terminates. On
  rooted paths with a doubled separator the source loops forever, as
  `RootedDoubleSepNeverTerminates` shows; `DedupTerminatesExactly` shows
  those are the only paths excluded.
- FileSystem.CombinePaths: when both arguments are non-empty, requires
  that both normalizations terminate, for the same reason. It also excludes
  the case where the base normalizes to the empty string and the relative part
  is not rooted: there the source calls `back()` on an empty string, which is
  undefined behaviour.
- The traditional `RenderText` path, `LoadFont`, the window loop, input
  handling and the outline/shadow style toggles are left out: they are
  display code outside the SDF pipeline.
- SdfSelfTest.TestSDFGeneration: the self-test's inline distance loop is the
  same computation as `GenerateSDFTexture`. The model calls that method
  rather than repeating the loop, and the printed output is stated as
  lemmas about the result (`FixtureDiscDisplay`, `FixtureFrameDisplay`).
- SdfSelfTest.CircleBitmap: compares squared distances with radius² instead
  of taking the float square root. The two agree for these integer points.
